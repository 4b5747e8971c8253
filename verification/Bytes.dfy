/**
 Bytes, fixed-width unsigned integers, big-endian encoding and the lexicographic
 order that `std::array` and `std::vector` give byte strings.
 */
module Bytes {
  import opened Powers

  const TWO32: nat := 0x1_0000_0000
  const TWO64: nat := 0x1_0000_0000_0000_0000
  const MAX_U64: nat := 0xFFFF_FFFF_FFFF_FFFF

  type Byte = b: int | 0 <= b < 256
  type U16 = n: int | 0 <= n < 0x1_0000
  type U32 = n: int | 0 <= n < TWO32
  type U64 = n: int | 0 <= n < TWO64
  type ByteString = seq<Byte>

  /** A 32-byte digest (`Hash256`) and a 20-byte account address (`Address160`). */
  type Hash = s: seq<Byte> | |s| == 32 witness seq(32, _ => 0)
  type Address = s: seq<Byte> | |s| == 20 witness seq(20, _ => 0)

  /** The value of an unsigned 64-bit expression. */
  function Wrap64(x: int): U64 {
    x % 0x1_0000_0000_0000_0000
  }

  lemma Pow256Values()
    ensures Pow(256, 2) == 0x1_0000 && Pow(256, 4) == TWO32 && Pow(256, 8) == TWO64
  {
    assert Pow(256, 3) == 0x100_0000;
    assert Pow(256, 5) == 0x100_0000_0000;
    assert Pow(256, 6) == 0x1_0000_0000_0000;
    assert Pow(256, 7) == 0x100_0000_0000_0000;
  }

  // ----- Big-endian encoding -----

  /** The `n` low-order bytes of `v`, most significant first. */
  function ToBE(v: nat, n: nat): (bs: seq<Byte>)
    ensures |bs| == n
  {
    if n == 0 then [] else ToBE(v / 256, n - 1) + [v % 256]
  }

  /** The number a byte string denotes when read most significant byte first. */
  function FromBE(bs: seq<Byte>): nat {
    if bs == [] then 0 else FromBE(bs[..|bs| - 1]) * 256 + bs[|bs| - 1]
  }

  lemma {:induction false} FromBEBound(bs: seq<Byte>)
    ensures FromBE(bs) < Pow(256, |bs|)
  {
    if bs != [] {
      FromBEBound(bs[..|bs| - 1]);
    }
  }

  /** Encoding then decoding is the identity on every value that fits. */
  lemma {:induction false} DecodeEncode(v: nat, n: nat)
    requires v < Pow(256, n)
    ensures FromBE(ToBE(v, n)) == v
  {
    if n > 0 {
      DecodeEncode(v / 256, n - 1);
      var bs := ToBE(v, n);
      assert bs[..n - 1] == ToBE(v / 256, n - 1);
    }
  }

  /** Decoding then encoding is the identity on every byte string. */
  lemma {:induction false} EncodeDecode(bs: seq<Byte>)
    ensures ToBE(FromBE(bs), |bs|) == bs
  {
    if bs != [] {
      EncodeDecode(bs[..|bs| - 1]);
      assert bs == bs[..|bs| - 1] + [bs[|bs| - 1]];
    }
  }

  lemma ToBEInjective(v: nat, w: nat, n: nat)
    requires v < Pow(256, n) && w < Pow(256, n)
    requires ToBE(v, n) == ToBE(w, n)
    ensures v == w
  {
    DecodeEncode(v, n);
    DecodeEncode(w, n);
  }

  /** `v >> 8 * i`: the value with its `i` low-order bytes shifted out. */
  function ShiftRight(v: nat, i: nat): nat {
    if i == 0 then v else ShiftRight(v, i - 1) / 256
  }

  /**
   The source's encoding loop, which pushes `(v >> 8 * i) & 0xFF` for `i` from `n - 1` down to 0,
   appends exactly the big-endian encoding of `v`.
   */
  method AppendBE(buffer: seq<Byte>, v: nat, n: nat) returns (out: seq<Byte>)
    ensures out == buffer + ToBE(v, n)
  {
    out := buffer;
    var i := n;
    while i > 0
      invariant 0 <= i <= n
      invariant out == buffer + ToBE(ShiftRight(v, i), n - i)
    {
      i := i - 1;
      out := out + [ShiftRight(v, i) % 256];
    }
  }

  // ----- Lexicographic order -----

  /** `operator<` of `std::array` and `std::vector`: the first difference decides, a proper prefix is smaller. */
  predicate LexLess(a: seq<Byte>, b: seq<Byte>) {
    b != [] && (a == [] || a[0] < b[0] || (a[0] == b[0] && LexLess(a[1..], b[1..])))
  }

  lemma {:induction false} LexTotal(a: seq<Byte>, b: seq<Byte>)
    ensures a == b || LexLess(a, b) || LexLess(b, a)
    ensures !(LexLess(a, b) && LexLess(b, a))
    ensures !LexLess(a, a)
    decreases |a| + |b|
  {
    if a != [] {
      if b != [] {
        LexTotal(a[1..], b[1..]);
        assert a == [a[0]] + a[1..];
        assert b == [b[0]] + b[1..];
      }
      LexTotal(a[1..], []);
      LexIrreflexive(a);
    }
  }

  lemma {:induction false} LexIrreflexive(a: seq<Byte>)
    ensures !LexLess(a, a)
  {
    if a != [] {
      LexIrreflexive(a[1..]);
    }
  }

  /** The first difference decides, and a proper prefix comes first. */
  lemma {:induction false} LexLaw(p: seq<Byte>, x: Byte, y: Byte, s: seq<Byte>, t: seq<Byte>)
    ensures x < y ==> LexLess(p + [x] + s, p + [y] + t)
    ensures t != [] ==> LexLess(p, p + t)
  {
    if p != [] {
      LexLaw(p[1..], x, y, s, t);
      assert (p + [x] + s)[1..] == p[1..] + [x] + s;
      assert (p + [y] + t)[1..] == p[1..] + [y] + t;
      assert (p + t)[1..] == p[1..] + t;
    }
  }

  lemma {:induction false} LexTransitive(a: seq<Byte>, b: seq<Byte>, c: seq<Byte>)
    requires LexLess(a, b) && LexLess(b, c)
    ensures LexLess(a, c)
  {
    if a != [] && a[0] == b[0] == c[0] {
      LexTransitive(a[1..], b[1..], c[1..]);
    }
  }

  lemma {:induction false} FromBECons(bs: seq<Byte>)
    requires bs != []
    ensures FromBE(bs) == bs[0] * Pow(256, |bs| - 1) + FromBE(bs[1..])
  {
    if |bs| == 1 {
      assert bs[..0] == [];
    } else {
      var init := bs[..|bs| - 1];
      FromBECons(init);
      assert init[1..] == bs[1..][..|bs| - 2];
      assert bs[1..][|bs| - 2] == bs[|bs| - 1];
      assert bs[0] * Pow(256, |bs| - 2) * 256 == bs[0] * Pow(256, |bs| - 1);
    }
  }

  lemma {:induction false} MulMonotone(x: nat, y: nat, p: nat)
    requires x <= y
    ensures x * p <= y * p
  {
    if x < y {
      MulMonotone(x, y - 1, p);
      assert y * p == (y - 1) * p + p;
    }
  }

  /** A quotient is at least `d` exactly when `d` divisors fit. */
  lemma QuotientTest(n: nat, v: nat, d: nat)
    requires v > 0
    ensures d <= n / v <==> d * v <= n
  {
    var q := n / v;
    assert n == v * q + n % v;
    if d <= q {
      MulMonotone(d, q, v);
    } else {
      MulMonotone(q + 1, d, v);
    }
  }

  lemma LeadingDigitDecides(x: nat, y: nat, p: nat, r: nat, s: nat)
    requires x < y && r < p
    ensures x * p + r < y * p + s
  {
    MulMonotone(x + 1, y, p);
  }

  /** On byte strings of one length, lexicographic order is the order of the numbers they denote. */
  lemma {:induction false} LexIsNumeric(a: seq<Byte>, b: seq<Byte>)
    requires |a| == |b|
    ensures LexLess(a, b) <==> FromBE(a) < FromBE(b)
  {
    if a != [] {
      LexIsNumeric(a[1..], b[1..]);
      FromBECons(a);
      FromBECons(b);
      FromBEBound(a[1..]);
      FromBEBound(b[1..]);
      var p := Pow(256, |a| - 1);
      if a[0] < b[0] {
        LeadingDigitDecides(a[0], b[0], p, FromBE(a[1..]), FromBE(b[1..]));
      } else if a[0] > b[0] {
        LeadingDigitDecides(b[0], a[0], p, FromBE(b[1..]), FromBE(a[1..]));
      }
    }
  }
}
