/** The proof-of-work difficulty test (`consensus/src/consensus_impl.cpp`). */
module Difficulty {
  import opened Bytes

  /** The first eight bytes of a hash, read big-endian. */
  function Head(h: Hash): nat {
    FromBE(h[..8])
  }

  function DifficultyOf(v: nat): nat {
    if v == 0 then MAX_U64 else MAX_U64 / v
  }

  predicate MeetsTarget(h: Hash, difficulty: U64) {
    DifficultyOf(Head(h)) >= difficulty
  }

  /** The value `target_from_difficulty` computes. */
  function TargetValue(difficulty: U64): nat {
    MAX_U64 / (if difficulty == 0 then 1 else difficulty)
  }

  lemma EmptyHead(h: Hash)
    ensures FromBE(h[..0]) == 0
  {
  }

  lemma NextByte(h: Hash, i: nat)
    requires i < 32
    ensures FromBE(h[..i + 1]) == FromBE(h[..i]) * 256 + h[i]
  {
    assert h[..i + 1][..i] == h[..i];
  }

  /** The byte loop of `hash_to_difficulty`. */
  method HashToDifficulty(h: Hash) returns (difficulty: nat)
    ensures difficulty == DifficultyOf(Head(h))
    ensures FromBE(h[..8]) == 0 ==> difficulty == MAX_U64
    ensures FromBE(h[..8]) > 0 ==> difficulty == MAX_U64 / FromBE(h[..8])
  {
    hide FromBE;
    var v: nat := 0;
    EmptyHead(h);
    for i := 0 to 8
      invariant v == FromBE(h[..i])
    {
      NextByte(h, i);
      v := v * 256 + h[i];
    }
    difficulty := if v == 0 then MAX_U64 else MAX_U64 / v;
  }

  /** A hash meets a difficulty exactly when its first eight bytes, as a number, are at most the target value. */
  lemma MeetsIffBelowTarget(h: Hash, difficulty: U64)
    ensures MeetsTarget(h, difficulty) <==> Head(h) <= TargetValue(difficulty)
  {
    hide Head;
    FromBEBound(h[..8]);
    Pow256Values();
    HeadFits(h);
    MeetsIffValue(Head(h), difficulty);
  }

  lemma HeadFits(h: Hash)
    ensures Head(h) <= MAX_U64
  {
    FromBEBound(h[..8]);
    Pow256Values();
  }

  lemma MeetsIffValue(v: nat, d: U64)
    requires v <= MAX_U64
    ensures DifficultyOf(v) >= d <==> v <= TargetValue(d)
  {
    if v > 0 && d > 0 {
      QuotientTest(MAX_U64, v, d);
      QuotientTest(MAX_U64, d, v);
      assert d * v == v * d;
    }
  }

  lemma {:induction false} LexPrefix(a: ByteString, b: ByteString, k: nat)
    requires k <= |a| && k <= |b| && LexLess(a, b)
    ensures a[..k] == b[..k] || LexLess(a[..k], b[..k])
  {
    if k > 0 && a[0] == b[0] {
      LexPrefix(a[1..], b[1..], k - 1);
      assert a[..k] == [a[0]] + a[1..][..k - 1];
      assert b[..k] == [b[0]] + b[1..][..k - 1];
      assert a[..k][1..] == a[1..][..k - 1] && b[..k][1..] == b[1..][..k - 1];
    }
  }

  lemma DifficultyAntitone(v: nat, w: nat)
    requires v <= w <= MAX_U64
    ensures DifficultyOf(v) >= DifficultyOf(w)
  {
    if v > 0 {
      var q := MAX_U64 / w;
      QuotientTest(MAX_U64, w, q);
      assert q * v <= q * w by {
        MulMonotone(v, w, q);
      }
      QuotientTest(MAX_U64, v, q);
    } else {
      QuotientSmall(w);
    }
  }

  lemma QuotientSmall(w: nat)
    ensures w > 0 ==> MAX_U64 / w <= MAX_U64
  {
    if w > 0 {
      var q := MAX_U64 / w;
      assert MAX_U64 == w * q + MAX_U64 % w;
      MulMonotone(1, w, q);
    }
  }

  /** Smaller hashes are never less difficult, and a higher difficulty never admits more hashes. */
  lemma DifficultyIsMonotone(g: Hash, h: Hash, d: U64, e: U64)
    ensures LexLess(g, h) && MeetsTarget(h, d) ==> MeetsTarget(g, d)
    ensures d <= e && MeetsTarget(h, e) ==> MeetsTarget(h, d)
  {
    if LexLess(g, h) {
      LexPrefix(g, h, 8);
      LexIsNumeric(g[..8], h[..8]);
      HeadFits(h);
      DifficultyAntitone(Head(g), Head(h));
    }
  }

  /** The difficulty of a value is how often it goes into 2^64 - 1, and that of zero the highest there is. */
  lemma DifficultyIsQuotient(v: nat)
    ensures v == 0 ==> DifficultyOf(v) == 0xFFFF_FFFF_FFFF_FFFF
    ensures v > 0 ==> DifficultyOf(v) * v <= 0xFFFF_FFFF_FFFF_FFFF < (DifficultyOf(v) + 1) * v
  {
    if v > 0 {
      var q := MAX_U64 / v;
      QuotientTest(MAX_U64, v, q);
      QuotientTest(MAX_U64, v, q + 1);
    }
  }

  // ----- Targets as hashes -----

  /** `target_from_difficulty` writes the value into the last eight bytes. */
  function TargetHash(difficulty: U64): Hash {
    seq(24, _ => 0) + ToBE(TargetValue(difficulty), 8)
  }

  /** The target of a difficulty: 24 zero bytes and the number of times the difficulty, at least one, goes into 2^64 - 1. */
  lemma TargetLayout(difficulty: U64)
    ensures var h, d := TargetHash(difficulty), if difficulty == 0 then 1 else difficulty;
            && (forall i :: 0 <= i < 24 ==> h[i] == 0)
            && FromBE(h[24..]) * d <= 0xFFFF_FFFF_FFFF_FFFF < (FromBE(h[24..]) + 1) * d
  {
    hide ToBE, FromBE;
    var v, d: nat := TargetValue(difficulty), if difficulty == 0 then 1 else difficulty;
    assert TargetHash(difficulty)[24..] == ToBE(v, 8);
    QuotientSmall(d);
    Pow256Values();
    DecodeEncode(v, 8);
    QuotientTest(MAX_U64, d, v);
    QuotientTest(MAX_U64, d, v + 1);
  }

  lemma {:induction false} ZeroBytes(n: nat)
    ensures FromBE(seq(n, _ => 0)) == 0
  {
    if n > 0 {
      var z: ByteString := seq(n, _ => 0);
      ZeroBytes(n - 1);
      assert z[..n - 1] == seq(n - 1, _ => 0);
    }
  }

  /** `difficulty_from_target` reads the first eight bytes, so it does not undo `target_from_difficulty`:
      it returns the maximum for every difficulty. */
  lemma TargetRoundTripIff(difficulty: U64)
    ensures DifficultyOf(Head(TargetHash(difficulty))) == MAX_U64
    ensures DifficultyOf(Head(TargetHash(difficulty))) == difficulty <==> difficulty == MAX_U64
  {
    assert TargetHash(difficulty)[..8] == seq(8, _ => 0);
    ZeroBytes(8);
  }
}
