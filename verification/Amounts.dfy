/** Amounts in wei: decimal printing and parsing, and checked arithmetic (`core/src/amount.cpp`). */
module Amounts {
  import opened Bytes
  import opened Powers
  import opened Results

  datatype AmountError = InvalidArgument | OutOfRange | Overflow

  const WEI_PER_ETHER: nat := 1_000_000_000_000_000_000
  const DECIMALS: nat := 18

  lemma Pow10Values()
    ensures Pow(10, 10) == 10_000_000_000 && Pow(10, 18) == WEI_PER_ETHER
  {
    assert Pow(10, 4) == 10_000;
    assert Pow(10, 8) == 100_000_000;
    assert Pow(10, 12) == 1_000_000_000_000;
    assert Pow(10, 16) == 10_000_000_000_000_000;
  }

  // ----- Decimal numerals -----

  predicate IsDigit(c: char) {
    '0' <= c <= '9'
  }

  predicate AllDigits(s: string) {
    forall i :: 0 <= i < |s| ==> IsDigit(s[i])
  }

  function DigitChar(d: nat): char
    requires d < 10
  {
    '0' + d as char
  }

  function DigitValue(c: char): nat
    requires IsDigit(c)
  {
    (c - '0') as nat
  }

  /** The number a digit string denotes. */
  function Value(s: string): nat
    requires AllDigits(s)
  {
    if s == "" then 0 else Value(s[..|s| - 1]) * 10 + DigitValue(s[|s| - 1])
  }

  /** `std::to_string` and stream output of an unsigned number. */
  function Decimal(n: nat): (s: string)
    ensures AllDigits(s) && |s| > 0
  {
    if n < 10 then [DigitChar(n)] else Decimal(n / 10) + [DigitChar(n % 10)]
  }

  lemma {:induction false} ValueOfDecimal(n: nat)
    ensures Value(Decimal(n)) == n
  {
    if n < 10 {
      assert Decimal(n)[..0] == "";
    } else {
      ValueOfDecimal(n / 10);
      assert Decimal(n)[..|Decimal(n)| - 1] == Decimal(n / 10);
    }
  }

  lemma {:induction false} DecimalLength(n: nat, k: nat)
    requires k > 0 && n < Pow(10, k)
    ensures |Decimal(n)| <= k
  {
    if n >= 10 {
      DecimalLength(n / 10, k - 1);
    }
  }

  function Zeros(k: nat): (s: string)
    ensures |s| == k && AllDigits(s)
  {
    seq(k, _ => '0')
  }

  lemma {:induction false} ValueOfZeros(k: nat)
    ensures Value(Zeros(k)) == 0
  {
    if k > 0 {
      ValueOfZeros(k - 1);
      assert Zeros(k)[..k - 1] == Zeros(k - 1);
    }
  }

  lemma {:induction false} ValueAfterZeros(k: nat, s: string)
    requires AllDigits(s)
    ensures Value(Zeros(k) + s) == Value(s)
  {
    if s == "" {
      ValueOfZeros(k);
      assert Zeros(k) + s == Zeros(k);
    } else {
      ValueAfterZeros(k, s[..|s| - 1]);
      assert (Zeros(k) + s)[..k + |s| - 1] == Zeros(k) + s[..|s| - 1];
    }
  }

  lemma {:induction false} ValueBound(s: string)
    requires AllDigits(s)
    ensures Value(s) < Pow(10, |s|)
  {
    if s != "" {
      ValueBound(s[..|s| - 1]);
    }
  }

  // ----- Printing -----

  function Whole(wei: U64): nat {
    wei / WEI_PER_ETHER
  }

  /** The fractional wei, cut to 32 bits. */
  function Fraction(wei: U64): U32 {
    (wei % WEI_PER_ETHER) % 0x1_0000_0000
  }

  function PadLeft(s: string): string {
    if |s| < DECIMALS then Zeros(DECIMALS - |s|) + s else s
  }

  /** The string without its trailing zeros. */
  function StripRight(s: string): string {
    if s != "" && s[|s| - 1] == '0' then StripRight(s[..|s| - 1]) else s
  }

  function FractionDigits(f: U32): string {
    if f == 0 then "0"
    else
      var digits := StripRight(PadLeft(Decimal(f)));
      if digits == "" then "0" else digits
  }

  function ToString(wei: U64): string {
    Decimal(Whole(wei)) + "." + FractionDigits(Fraction(wei))
  }

  // ----- Parsing -----

  predicate IsSpace(c: char) {
    c == ' ' || '\t' <= c <= '\r'
  }

  function SkipSpaces(s: string): string {
    if s != "" && IsSpace(s[0]) then SkipSpaces(s[1..]) else s
  }

  function LeadingDigits(s: string): (d: string)
    ensures AllDigits(d)
  {
    if s != "" && IsDigit(s[0]) then [s[0]] + LeadingDigits(s[1..]) else ""
  }

  /** `std::stoull` and `std::stoul`: spaces, a sign, digits; the rest is ignored, a minus wraps. */
  function ParseUnsigned(s: string): Result<U64, AmountError> {
    var t := SkipSpaces(s);
    var digits := LeadingDigits(if t != "" && (t[0] == '+' || t[0] == '-') then t[1..] else t);
    if digits == "" then Err(InvalidArgument)
    else if Value(digits) > MAX_U64 then Err(OutOfRange)
    else if t[0] == '-' then Ok(Wrap64(0 - Value(digits)))
    else Ok(Value(digits))
  }

  function FindDot(s: string): (i: nat)
    ensures i <= |s| && (i < |s| ==> s[i] == '.')
    ensures forall j :: 0 <= j < i ==> s[j] != '.'
  {
    if s == "" || s[0] == '.' then 0 else 1 + FindDot(s[1..])
  }

  /** Eighteen characters: the first ones, filled up with zeros on the right. */
  function FitRight(s: string): (r: string)
    ensures |r| == DECIMALS
  {
    if |s| > DECIMALS then s[..DECIMALS] else s + Zeros(DECIMALS - |s|)
  }

  /** The constructor from a whole and a fractional part. */
  function FromParts(whole: U64, fraction: U32): Result<U64, AmountError> {
    if whole > MAX_U64 / WEI_PER_ETHER then Err(Overflow) else Ok(Wrap64(whole * WEI_PER_ETHER + fraction))
  }

  function FromString(s: string): Result<U64, AmountError> {
    var dot := FindDot(s);
    if dot == |s| then
      match ParseUnsigned(s)
      case Ok(v) => Ok(Wrap64(v * WEI_PER_ETHER))
      case Err(OutOfRange) => Err(OutOfRange)
      case _ => Err(InvalidArgument)
    else
      match ParseUnsigned(s[..dot])
      case Ok(whole) =>
        (match ParseUnsigned(FitRight(s[dot + 1..]))
         case Ok(f) => FromParts(whole, f % 0x1_0000_0000)
         case Err(OutOfRange) => Err(OutOfRange)
         case _ => Err(InvalidArgument))
      case Err(OutOfRange) => Err(OutOfRange)
      case _ => Err(InvalidArgument)
  }

  // ----- Parsing numerals -----

  lemma {:induction false} LeadingDigitsAll(s: string)
    requires AllDigits(s)
    ensures LeadingDigits(s) == s
  {
    if s != "" {
      LeadingDigitsAll(s[1..]);
    }
  }

  lemma ParseNumeral(s: string)
    requires AllDigits(s) && s != ""
    ensures ParseUnsigned(s) == if Value(s) > MAX_U64 then Err(OutOfRange) else Ok(Value(s))
  {
    assert SkipSpaces(s) == s;
    LeadingDigitsAll(s);
  }

  lemma FindDotAfterDigits(w: string, f: string)
    requires AllDigits(w)
    ensures FindDot(w + "." + f) == |w|
  {
    var s := w + "." + f;
    assert s[|w|] == '.';
    assert forall i :: 0 <= i < |w| ==> s[i] == w[i] && IsDigit(w[i]);
  }

  lemma {:induction false} FindDotInDigits(w: string)
    requires AllDigits(w)
    ensures FindDot(w) == |w|
  {
    if w != "" {
      FindDotInDigits(w[1..]);
    }
  }

  lemma FitRightDigits(f: string)
    requires AllDigits(f)
    ensures AllDigits(FitRight(f)) && Value(FitRight(f)) < WEI_PER_ETHER
  {
    ValueBound(FitRight(f));
    Pow10Values();
  }

  /** The wei a decimal fraction stands for, digits beyond the eighteenth dropped. */
  function FractionValue(f: string): (v: nat)
    requires AllDigits(f)
    ensures v < WEI_PER_ETHER
  {
    FitRightDigits(f);
    Value(FitRight(f))
  }

  /** A number with `k` zeros written behind it. */
  function WithZeros(v: nat, k: nat): nat {
    v * Pow(10, k)
  }

  /** A fraction of at most eighteen digits counts tenths, hundredths and so on down to wei; more digits are dropped. */
  lemma FractionIsDecimal(f: string)
    requires AllDigits(f)
    ensures |f| <= 18 ==> FractionValue(f) == WithZeros(Value(f), 18 - |f|)
    ensures |f| > 18 ==> AllDigits(f[..18]) && FractionValue(f) == Value(f[..18])
  {
    hide Value, WithZeros, FitRight, Zeros;
    FitRightCases(f);
    if |f| <= 18 {
      ValueBeforeZeros(f, 18 - |f|);
    }
  }

  lemma FitRightCases(f: string)
    requires AllDigits(f)
    ensures |f| <= 18 ==> FitRight(f) == f + Zeros(18 - |f|)
    ensures |f| > 18 ==> FitRight(f) == f[..18] && AllDigits(f[..18])
  {
  }

  lemma {:induction false} ValueBeforeZeros(s: string, k: nat)
    requires AllDigits(s)
    ensures Value(s + Zeros(k)) == WithZeros(Value(s), k)
  {
    if k == 0 {
      assert s + Zeros(0) == s;
    } else {
      assert Pow(10, k) == 10 * Pow(10, k - 1);
      hide Value, Pow;
      ValueBeforeZeros(s, k - 1);
      OneZeroMore(s, k);
      TenTimes(Value(s), Pow(10, k - 1));
    }
  }

  lemma OneZeroMore(s: string, k: nat)
    requires AllDigits(s) && k > 0
    ensures Value(s + Zeros(k)) == Value(s + Zeros(k - 1)) * 10
  {
    var t := s + Zeros(k);
    assert t[..|t| - 1] == s + Zeros(k - 1);
  }

  lemma TenTimes(v: nat, p: nat)
    ensures (v * p) * 10 == v * (10 * p)
  {
  }

  const SPACES: string := " \t\n\U{B}\U{C}\r"

  predicate AllSpaces(s: string) {
    forall i :: 0 <= i < |s| ==> s[i] in SPACES
  }

  lemma {:induction false} SpacesAreSkipped(sp: string, s: string)
    requires AllSpaces(sp) && (s != "" ==> s[0] !in SPACES)
    ensures SkipSpaces(sp + s) == s
  {
    if sp == "" {
      assert sp + s == s;
    } else {
      SpacesAreSkipped(sp[1..], s);
      assert (sp + s)[1..] == sp[1..] + s;
    }
  }

  lemma {:induction false} DigitsAreTaken(d: string, rest: string)
    requires AllDigits(d) && (rest != "" ==> !IsDigit(rest[0]))
    ensures LeadingDigits(d + rest) == d
  {
    if d == "" {
      assert d + rest == rest;
    } else {
      DigitsAreTaken(d[1..], rest);
      assert (d + rest)[1..] == d[1..] + rest;
    }
  }

  /** The value of a sign and digits, read as an unsigned 64-bit number. */
  function Signed(minus: bool, d: string): Result<U64, AmountError>
    requires AllDigits(d)
  {
    if d == "" then Err(InvalidArgument)
    else if Value(d) > MAX_U64 then Err(OutOfRange)
    else if minus && Value(d) > 0 then Ok(0x1_0000_0000_0000_0000 - Value(d))
    else Ok(Value(d))
  }

  lemma ParseSkipped(s: string, t: string, minus: bool, d: string)
    requires SkipSpaces(s) == t && AllDigits(d) && minus == (t != "" && t[0] == '-')
    requires LeadingDigits(if t != "" && (t[0] == '+' || t[0] == '-') then t[1..] else t) == d
    ensures ParseUnsigned(s) == Signed(minus, d)
  {
    hide Value, SkipSpaces;
    NegatedModulo(Value(d));
  }

  lemma NegatedModulo(v: nat)
    ensures 0 < v <= MAX_U64 ==> Wrap64(0 - v) == 0x1_0000_0000_0000_0000 - v
    ensures Wrap64(0) == 0
  {
  }

  /**
   Spaces, a sign, digits and anything that does not go on with a digit: the number of the digits,
   its negative modulo 2^64 behind a minus, an error when it is too large or there is none.
   */
  lemma ParseAny(sp: string, sign: string, d: string, rest: string)
    requires AllSpaces(sp) && sign in ["", "+", "-"] && AllDigits(d) && (rest != "" ==> !IsDigit(rest[0]))
    requires sign + d == "" && rest != "" ==> rest[0] !in SPACES + "+-"
    ensures ParseUnsigned(sp + (sign + (d + rest))) == Signed(sign == "-", d)
  {
    hide Value, ParseUnsigned, SkipSpaces, LeadingDigits, Signed;
    var t := sign + (d + rest);
    FirstIsNoSpace(sign, d, rest);
    SpacesAreSkipped(sp, t);
    DigitsAreTaken(d, rest);
    if sign == "" {
      assert t == d + rest;
    } else {
      assert t[1..] == d + rest;
    }
    ParseSkipped(sp + t, t, sign == "-", d);
  }

  lemma FirstIsNoSpace(sign: string, d: string, rest: string)
    requires sign in ["", "+", "-"] && AllDigits(d) && (sign + d == "" && rest != "" ==> rest[0] !in SPACES + "+-")
    ensures var t := sign + (d + rest);
            && (t != "" ==> t[0] !in SPACES)
            && (t != "" && (t[0] == '+' || t[0] == '-') <==> sign != "")
            && (t != "" && t[0] == '-' <==> sign == "-")
  {
    var t := sign + (d + rest);
    if sign == "" {
      if d != "" {
        assert t[0] == d[0];
      } else {
        assert t == rest;
      }
    }
  }

  /** What parsing a decimal numeral yields: the fractional wei are reduced modulo 2^32. */
  lemma ParseDecimal(w: string, f: string)
    requires AllDigits(w) && w != "" && AllDigits(f)
    ensures FromString(w + "." + f) ==
            if Value(w) > MAX_U64 then Err(OutOfRange)
            else if Value(w) > 18 then Err(Overflow)
            else Ok(Value(w) * WEI_PER_ETHER + FractionValue(f) % 0x1_0000_0000)
  {
    hide ParseUnsigned, Value, FitRight;
    var s := w + "." + f;
    FindDotAfterDigits(w, f);
    assert s[..|w|] == w && s[|w| + 1..] == f;
    ParseNumeral(w);
    FitRightDigits(f);
    ParseNumeral(FitRight(f));
    if Value(w) <= MAX_U64 {
      PartsOfSmall(Value(w), FractionValue(f) % 0x1_0000_0000);
    }
  }

  lemma PartsOfSmall(whole: U64, fraction: U32)
    ensures FromParts(whole, fraction) == if whole > 18 then Err(Overflow) else Ok(whole * WEI_PER_ETHER + fraction)
  {
  }

  /** A decimal numeral that fits parses to the amount it denotes exactly when its fractional wei are below 2^32. */
  lemma ParseDecimalExactIff(w: string, f: string)
    requires AllDigits(w) && w != "" && AllDigits(f) && Value(w) <= 18
    ensures FromString(w + "." + f) == Ok(Value(w) * WEI_PER_ETHER + FractionValue(f)) <==> FractionValue(f) < 0x1_0000_0000
  {
    hide FromString, Value, FractionValue;
    ParseDecimal(w, f);
  }

  /** Without a dot the product wraps: the result is right exactly up to 18 ether. */
  lemma ParseWholeExactIff(w: string)
    requires AllDigits(w) && w != "" && Value(w) <= MAX_U64
    ensures FromString(w) == Ok(Value(w) * WEI_PER_ETHER) <==> Value(w) <= 18
  {
    hide ParseUnsigned, Value;
    FindDotInDigits(w);
    ParseNumeral(w);
  }

  /** Nineteen ether parse to a little more than half an ether. */
  lemma NineteenEther()
    ensures FromString("19") == Ok(553_255_926_290_448_384)
  {
    hide ParseUnsigned, Value;
    FindDotInDigits("19");
    ParseNumeral("19");
    assert Value("19") == 19 by {
      NumeralValue19();
    }
  }

  lemma NumeralValue19()
    ensures Value("19") == 19
  {
  }

  // ----- Printing then parsing -----

  lemma {:induction false} StripSplits(s: string)
    ensures |StripRight(s)| <= |s| && s == StripRight(s) + Zeros(|s| - |StripRight(s)|)
  {
    if s != "" && s[|s| - 1] == '0' {
      StripSplits(s[..|s| - 1]);
      assert s == s[..|s| - 1] + "0";
    }
  }

  /** Stripping the padded numeral and filling it up again gives back the padded numeral. */
  lemma FitUndoesStrip(f: U32)
    ensures AllDigits(FractionDigits(f)) && FractionValue(FractionDigits(f)) == f
  {
    var padded := PadLeft(Decimal(f));
    if f == 0 {
      assert FitRight("0") == Zeros(18);
      ValueOfZeros(18);
    } else {
      PaddedValue(f);
      StripSplits(padded);
      var digits := StripRight(padded);
      assert AllDigits(digits) by {
        assert forall i :: 0 <= i < |digits| ==> digits[i] == padded[i];
      }
      if digits == "" {
        assert padded == Zeros(18);
        ValueOfZeros(18);
      }
      assert FitRight(digits) == padded;
    }
  }

  lemma PaddedValue(f: U32)
    ensures |PadLeft(Decimal(f))| == 18 && AllDigits(PadLeft(Decimal(f))) && Value(PadLeft(Decimal(f))) == f
  {
    Pow10Values();
    DecimalLength(f, 10);
    ValueOfDecimal(f);
    ValueAfterZeros(DECIMALS - |Decimal(f)|, Decimal(f));
  }

  /** Parsing a printed amount keeps the whole ether and the fractional wei modulo 2^32. */
  lemma ParsePrinted(wei: U64)
    ensures FromString(ToString(wei)) == Ok(wei / WEI_PER_ETHER * WEI_PER_ETHER + (wei % WEI_PER_ETHER) % 0x1_0000_0000)
  {
    hide FromString, FractionDigits, Decimal, Value;
    ValueOfDecimal(Whole(wei));
    FitUndoesStrip(Fraction(wei));
    ParseDecimal(Decimal(Whole(wei)), FractionDigits(Fraction(wei)));
  }

  /** Hence printing then parsing is the identity exactly when the fractional wei fit in 32 bits. */
  lemma PrintParseIdentityIff(wei: U64)
    ensures FromString(ToString(wei)) == Ok(wei) <==> wei % WEI_PER_ETHER < 0x1_0000_0000
  {
    hide FromString, ToString;
    ParsePrinted(wei);
    assert wei == wei / WEI_PER_ETHER * WEI_PER_ETHER + wei % WEI_PER_ETHER;
  }

  /** 2^32 wei print as zero. */
  lemma LostWei()
    ensures FromString(ToString(0x1_0000_0000)) == Ok(0)
  {
    hide FromString, ToString;
    ParsePrinted(0x1_0000_0000);
  }

  // ----- The form of a printed amount, and parsing then printing -----

  /** A numeral as people write it: no zero in front, unless it is zero. */
  predicate PlainNumeral(s: string) {
    AllDigits(s) && s != "" && (s[0] == '0' ==> s == "0")
  }

  /** And a fraction: no zero at the end, unless it is zero. */
  predicate PlainFraction(s: string) {
    AllDigits(s) && s != "" && (s[|s| - 1] == '0' ==> s == "0")
  }

  lemma {:induction false} DecimalIsPlain(n: nat)
    ensures PlainNumeral(Decimal(n)) && (Decimal(n)[0] == '0' <==> n == 0)
  {
    if n >= 10 {
      DecimalIsPlain(n / 10);
      assert Decimal(n)[0] == Decimal(n / 10)[0];
    }
  }

  lemma {:induction false} StripLeavesNoZero(s: string)
    ensures StripRight(s) != "" ==> StripRight(s)[|StripRight(s)| - 1] != '0'
  {
    if s != "" && s[|s| - 1] == '0' {
      StripLeavesNoZero(s[..|s| - 1]);
    }
  }

  /** A printed amount is a plain numeral for the whole ether, a dot and a plain fraction for the wei modulo 2^32. */
  lemma PrintedForm(wei: U64) returns (w: string, f: string)
    ensures ToString(wei) == w + "." + f && PlainNumeral(w) && PlainFraction(f)
    ensures Value(w) == wei / WEI_PER_ETHER && FractionValue(f) == (wei % WEI_PER_ETHER) % 0x1_0000_0000
  {
    w, f := Decimal(Whole(wei)), FractionDigits(Fraction(wei));
    DecimalIsPlain(Whole(wei));
    ValueOfDecimal(Whole(wei));
    FitUndoesStrip(Fraction(wei));
    StripLeavesNoZero(PadLeft(Decimal(Fraction(wei))));
  }

  lemma DigitBack(c: char)
    requires IsDigit(c)
    ensures DigitValue(c) < 10 && DigitChar(DigitValue(c)) == c
  {
  }

  /** A plain numeral is the numeral of its value. */
  lemma {:induction false} PlainIsDecimal(s: string)
    requires PlainNumeral(s)
    ensures Decimal(Value(s)) == s
  {
    var init, c := s[..|s| - 1], s[|s| - 1];
    DigitBack(c);
    if |s| == 1 {
      assert init == "" && s == [c];
    } else {
      assert init[0] == s[0];
      PlainIsDecimal(init);
      DecimalIsPlain(Value(init));
      assert Value(s) / 10 == Value(init) && Value(s) % 10 == DigitValue(c);
      assert s == init + [c];
    }
  }

  /** Two numerals of one length and value are the same. */
  lemma {:induction false} SameLengthSameValue(s: string, t: string)
    requires AllDigits(s) && AllDigits(t) && |s| == |t| && Value(s) == Value(t)
    ensures s == t
  {
    if s != "" {
      var c, d := s[|s| - 1], t[|t| - 1];
      DigitBack(c);
      DigitBack(d);
      assert Value(s) % 10 == DigitValue(c) && Value(t) % 10 == DigitValue(d);
      SameLengthSameValue(s[..|s| - 1], t[..|t| - 1]);
      assert s == s[..|s| - 1] + [c] && t == t[..|t| - 1] + [d];
    }
  }

  lemma {:induction false} StripUndoesZeros(s: string, k: nat)
    requires s != "" ==> s[|s| - 1] != '0'
    ensures StripRight(s + Zeros(k)) == s
  {
    if k == 0 {
      assert s + Zeros(0) == s;
    } else {
      assert (s + Zeros(k))[..|s| + k - 1] == s + Zeros(k - 1);
      StripUndoesZeros(s, k - 1);
    }
  }

  /** A plain fraction of at most eighteen digits and less than 2^32 wei is the one printed for its value. */
  lemma PlainIsFraction(f: string)
    requires PlainFraction(f) && |f| <= 18 && FractionValue(f) < 0x1_0000_0000
    ensures FractionDigits(FractionValue(f)) == f
  {
    hide Value, Decimal, StripRight, PadLeft, Zeros;
    var v := FractionValue(f);
    PaddedValue(v);
    FitRightDigits(f);
    SameLengthSameValue(PadLeft(Decimal(v)), FitRight(f));
    if f == "0" {
      ZeroFraction();
    } else {
      assert FitRight(f) == f + Zeros(18 - |f|);
      StripUndoesZeros(f, 18 - |f|);
      FractionIsPositive(f);
    }
  }

  lemma ZeroFraction()
    ensures FractionValue("0") == 0
  {
    assert FitRight("0") == Zeros(18);
    ValueOfZeros(18);
  }

  lemma FractionIsPositive(f: string)
    requires PlainFraction(f) && f != "0" && |f| <= 18
    ensures FractionValue(f) > 0
  {
    assert DigitValue(f[|f| - 1]) > 0;
    assert Value(f) > 0;
    hide Value, FractionValue, Pow;
    FractionIsDecimal(f);
    assert WithZeros(Value(f), 18 - |f|) > 0;
  }

  /** Parsing then printing gives back every plain amount of at most 18 whole ether, eighteen fractional digits and
      less than 2^32 fractional wei. */
  lemma ParsePrintIdentity(w: string, f: string)
    requires PlainNumeral(w) && PlainFraction(f) && Value(w) <= 18 && |f| <= 18 && FractionValue(f) < 0x1_0000_0000
    ensures FromString(w + "." + f) == Ok(Value(w) * WEI_PER_ETHER + FractionValue(f))
    ensures ToString(Value(w) * WEI_PER_ETHER + FractionValue(f)) == w + "." + f
  {
    hide FromString, FractionDigits, Decimal, Value, FractionValue;
    ParseDecimal(w, f);
    PlainIsDecimal(w);
    PlainIsFraction(f);
    PartsOf(Value(w), FractionValue(f));
  }

  lemma PartsOf(whole: nat, fraction: nat)
    requires whole <= 18 && fraction < 0x1_0000_0000
    ensures whole * WEI_PER_ETHER + fraction < TWO64
    ensures Whole(whole * WEI_PER_ETHER + fraction) == whole && Fraction(whole * WEI_PER_ETHER + fraction) == fraction
  {
  }

  // ----- The string loops -----

  method PadLeftLoop(s: string) returns (r: string)
    ensures r == PadLeft(s)
  {
    r := s;
    ghost var k := 0;
    while |r| < DECIMALS
      invariant r == Zeros(k) + s && |r| == k + |s|
      invariant k > 0 ==> |r| <= DECIMALS
    {
      r := "0" + r;
      k := k + 1;
      assert Zeros(k) == "0" + Zeros(k - 1);
    }
  }

  method FitRightLoop(s: string) returns (r: string)
    ensures r == FitRight(s)
  {
    r := if |s| > DECIMALS then s[..DECIMALS] else s;
    ghost var start, k := r, 0;
    while |r| < DECIMALS
      invariant |r| <= DECIMALS && r == start + Zeros(k)
    {
      r := r + "0";
      k := k + 1;
      assert Zeros(k) == Zeros(k - 1) + "0";
    }
  }

  // ----- Checked arithmetic -----

  function Plus(a: U64, b: U64): Result<U64, AmountError> {
    if Wrap64(a + b) < a then Err(Overflow) else Ok(Wrap64(a + b))
  }

  function Times(a: U64, m: U64): Result<U64, AmountError> {
    if m == 0 then Ok(0)
    else if a > MAX_U64 / m then Err(Overflow)
    else Ok(Wrap64(a * m))
  }

  /** The comparison with the wrapped sum catches every overflow, and nothing else. */
  lemma PlusIsChecked(a: U64, b: U64)
    ensures Plus(a, b) == if a + b <= MAX_U64 then Ok(a + b) else Err(Overflow)
  {
    if a + b > MAX_U64 {
      assert Wrap64(a + b) == a + b - 0x1_0000_0000_0000_0000;
    }
  }

  /** The division test rejects exactly the products that do not fit. */
  lemma TimesIsChecked(a: U64, m: U64)
    ensures Times(a, m) == if a * m <= MAX_U64 then Ok(a * m) else Err(Overflow)
  {
    if m > 0 {
      QuotientTest(MAX_U64, m, a);
    } else {
      assert a * m == 0;
    }
  }
}
