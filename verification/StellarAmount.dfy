/**
  `parse_stellar_amount` of services/rust-worker/src/stellar.rs: decimal text to stroops.
*/
module StellarAmount {
  import opened Wrappers

  const I64_MAX: int := 0x7FFF_FFFF_FFFF_FFFF
  const STROOPS: int := 10_000_000

  datatype Outcome =
    | Ok(stroops: int)
    | TooManyDecimals
    | NotAnInteger
    | AmountOverflow
    | SumOverflow  // the unchecked addition: a panic or a wrap, depending on the build

  predicate IsDigit(c: char) { '0' <= c <= '9' }

  predicate IsDigits(s: string) { forall i :: 0 <= i < |s| ==> IsDigit(s[i]) }

  function DigitValue(c: char): nat
    requires IsDigit(c)
  {
    c as int - '0' as int
  }

  function DigitsValue(s: string): nat
    requires IsDigits(s)
  {
    if s == [] then 0 else DigitsValue(s[..|s| - 1]) * 10 + DigitValue(s[|s| - 1])
  }

  function Pow10(n: nat): (r: nat)
    ensures r > 0
  {
    if n == 0 then 1 else 10 * Pow10(n - 1)
  }

  predicate HasSign(s: string) { s != [] && (s[0] == '+' || s[0] == '-') }

  predicate HasMinus(s: string) { s != [] && s[0] == '-' }

  function Body(s: string): string {
    if HasSign(s) then s[1..] else s
  }

  // The number after an optional sign.
  function SignedValue(s: string): int
    requires IsDigits(Body(s))
  {
    if HasMinus(s) then 0 - DigitsValue(Body(s)) else DigitsValue(Body(s))
  }

  predicate InI64(v: int) { -I64_MAX - 1 <= v <= I64_MAX }

  // str::parse::<i64>: an optional sign and at least one digit, in range
  function ParseI64(s: string): Option<int> {
    if Body(s) == [] || !IsDigits(Body(s)) then None
    else if InI64(SignedValue(s)) then Some(SignedValue(s)) else None
  }

  function FindDot(s: string, from: nat): (r: Option<nat>)
    requires from <= |s|
    ensures r.Some? ==> from <= r.value < |s| && s[r.value] == '.' && '.' !in s[from..r.value]
    ensures r.None? ==> '.' !in s[from..]
    decreases |s| - from
  {
    if from == |s| then None
    else if s[from] == '.' then Some(from)
    else
      var r := FindDot(s, from + 1);
      assert r.Some? ==> s[from..r.value] == [s[from]] + s[from + 1..r.value];
      assert s[from..] == [s[from]] + s[from + 1..];
      r
  }

  function Whole(amount: string): string {
    match FindDot(amount, 0) case Some(i) => amount[..i] case None => amount
  }

  function Fraction(amount: string): string {
    match FindDot(amount, 0) case Some(i) => amount[i + 1..] case None => ""
  }

  function Zeros(n: nat): (z: string)
    ensures |z| == n
  {
    if n == 0 then "" else Zeros(n - 1) + "0"
  }

  // What the parser returns, with the padding written out.
  function Parsed(whole: string, frac: string): Outcome {
    if |frac| > 7 then TooManyDecimals
    else match ParseI64(whole)
      case None => NotAnInteger
      case Some(w) =>
        if !InI64(w * STROOPS) then AmountOverflow
        else match ParseI64(frac + Zeros(7 - |frac|))
          case None => NotAnInteger
          case Some(f) =>
            var sum := w * STROOPS + f;
            if InI64(sum) then Ok(sum) else SumOverflow
  }

  method ParseStellarAmount(amount: string) returns (r: Outcome)
    ensures r == Parsed(Whole(amount), Fraction(amount))
  {
    hide ParseI64;
    var whole, frac := Whole(amount), Fraction(amount);
    if |frac| > 7 {
      return TooManyDecimals;
    }
    var w := ParseI64(whole);
    if w.None? {
      return NotAnInteger;
    }
    if !InI64(w.value * STROOPS) {
      return AmountOverflow;
    }
    var padded := frac;
    assert frac + "" == frac;
    while |padded| < 7
      invariant |frac| <= |padded| <= 7
      invariant padded == frac + Zeros(|padded| - |frac|)
    {
      padded := padded + "0";
    }
    var f := ParseI64(padded);
    if f.None? {
      return NotAnInteger;
    }
    var sum := w.value * STROOPS + f.value;
    if !InI64(sum) {
      return SumOverflow;
    }
    return Ok(sum);
  }

  // ----- Digit strings -----

  lemma {:induction false} ZerosAreDigits(n: nat)
    ensures IsDigits(Zeros(n))
  {
    if n > 0 {
      ZerosAreDigits(n - 1);
    }
  }

  lemma {:induction false} DigitsSnoc(s: string, c: char)
    requires IsDigits(s) && IsDigit(c)
    ensures IsDigits(s + [c]) && DigitsValue(s + [c]) == DigitsValue(s) * 10 + DigitValue(c)
  {
    assert (s + [c])[..|s|] == s;
  }

  lemma {:induction false} PaddedValue(s: string, n: nat)
    requires IsDigits(s)
    ensures IsDigits(s + Zeros(n)) && DigitsValue(s + Zeros(n)) == DigitsValue(s) * Pow10(n)
  {
    hide DigitsValue;
    if n == 0 {
      assert s + Zeros(0) == s;
    } else {
      PaddedValue(s, n - 1);
      DigitsSnoc(s + Zeros(n - 1), '0');
      assert s + Zeros(n) == (s + Zeros(n - 1)) + "0";
      TimesTen(DigitsValue(s), Pow10(n - 1));
    }
  }

  lemma {:induction false} TimesTen(v: nat, p: nat)
    ensures v * p * 10 == v * (10 * p)
  {
  }

  lemma {:induction false} DigitsBound(s: string)
    requires IsDigits(s)
    ensures DigitsValue(s) < Pow10(|s|)
  {
    if s != [] {
      DigitsBound(s[..|s| - 1]);
    }
  }

  lemma {:induction false} Pow10Seven()
    ensures Pow10(7) == STROOPS
  {
    assert Pow10(3) == 1000;
    assert Pow10(7) == 10 * Pow10(6) && Pow10(6) == 10 * Pow10(5) && Pow10(5) == 10 * Pow10(4)
      && Pow10(4) == 10 * Pow10(3);
  }

  // ----- Exactness -----

  // The number of stroops denoted by whole.frac
  function ExactStroops(whole: string, frac: string): nat
    requires IsDigits(whole) && IsDigits(frac) && |frac| <= 7
  {
    DigitsValue(whole) * 10_000_000 + DigitsValue(frac) * Pow10(7 - |frac|)
  }

  lemma {:induction false} SplitsAtDot(whole: string, frac: string)
    requires '.' !in whole
    ensures Whole(whole + "." + frac) == whole && Fraction(whole + "." + frac) == frac
    ensures Whole(whole) == whole && Fraction(whole) == ""
  {
    var s := whole + "." + frac;
    FindDotIs(s, |whole|, 0);
    assert s[..|whole|] == whole && s[|whole| + 1..] == frac;
    assert whole[0..] == whole;
  }

  lemma {:induction false} FindDotIs(s: string, n: nat, from: nat)
    requires from <= n < |s| && s[n] == '.' && forall j :: from <= j < n ==> s[j] != '.'
    ensures FindDot(s, from) == Some(n)
    decreases n - from
  {
    if from < n {
      FindDotIs(s, n, from + 1);
    }
  }

  /** On unsigned decimals the parser is exact: it returns the value precisely when it fits. */
  lemma {:induction false} ExactOnUnsigned(whole: string, frac: string)
    requires whole != [] && IsDigits(whole) && IsDigits(frac) && |frac| <= 7
    ensures var r := Parsed(whole, frac);
      && (r.Ok? <==> ExactStroops(whole, frac) <= I64_MAX)
      && (r.Ok? ==> r.stroops == ExactStroops(whole, frac))
  {
    hide ParseI64, DigitsValue, Pow10, Parsed, Zeros;
    DigitsHaveNoSign(whole);
    DigitsHaveNoSign(frac);
    PartsParse(whole, frac);
  }

  /** The same for the text itself, with and without a decimal point. */
  lemma {:induction false} ExactOnText(whole: string, frac: string)
    requires whole != [] && IsDigits(whole) && IsDigits(frac) && |frac| <= 7
    ensures var text := whole + "." + frac;
      && Parsed(Whole(text), Fraction(text)) == Parsed(whole, frac)
      && (ExactStroops(whole, frac) <= I64_MAX ==> Parsed(Whole(text), Fraction(text)) == Ok(ExactStroops(whole, frac)))
    ensures Parsed(Whole(whole), Fraction(whole)) == Parsed(whole, "")
  {
    assert '.' !in whole by {
      assert !IsDigit('.');
    }
    SplitsAtDot(whole, frac);
    ExactOnUnsigned(whole, frac);
  }

  /** A trailing zero of the fraction never matters, whatever the text, until it is an eighth digit. */
  lemma {:induction false} TrailingZeroIrrelevant(whole: string, frac: string)
    ensures Parsed(whole, frac + "0") == if |frac| < 7 then Parsed(whole, frac) else TooManyDecimals
  {
    hide ParseI64, Zeros;
    if |frac| < 7 {
      ZerosFront(6 - |frac|);
      assert frac + "0" + Zeros(6 - |frac|) == frac + ("0" + Zeros(6 - |frac|));
    }
  }

  lemma {:induction false} ZerosFront(n: nat)
    ensures "0" + Zeros(n) == Zeros(n + 1)
  {
    if n > 0 {
      ZerosFront(n - 1);
    }
  }

  // ----- Every text -----

  // Both parts are an optional sign and digits, of which only the fraction may have none.
  predicate WellShaped(whole: string, frac: string) {
    |frac| <= 7 && Body(whole) != [] && IsDigits(Body(whole)) && IsDigits(Body(frac))
  }

  // The two signed parts added up. A sign takes one of the seven places of the fraction.
  function SignedSum(whole: string, frac: string): int
    requires WellShaped(whole, frac)
  {
    SignedValue(whole) * STROOPS + SignedValue(frac) * Pow10(7 - |frac|)
  }

  lemma {:induction false} ParseFraction(frac: string)
    requires |frac| <= 7
    ensures var r := ParseI64(frac + Zeros(7 - |frac|));
      && (r.Some? <==> IsDigits(Body(frac)))
      && (r.Some? ==> r.value == SignedValue(frac) * Pow10(7 - |frac|) && -STROOPS < r.value < STROOPS)
  {
    hide DigitsValue, Zeros, Pow10;
    var n := 7 - |frac|;
    var padded := frac + Zeros(n);
    ZerosAreDigits(n);
    if frac == "" {
      assert padded == Zeros(7) && IsDigits(padded);
      assert Body(padded) == padded by { assert IsDigit(padded[0]); }
    } else {
      assert padded[0] == frac[0];
      assert padded[1..] == frac[1..] + Zeros(n);
    }
    assert Body(padded) == Body(frac) + Zeros(n) && HasMinus(padded) == HasMinus(frac) && Body(padded) != [];
    if IsDigits(Body(frac)) {
      PaddedValue(Body(frac), n);
      DigitsBound(Body(padded));
      Pow10Grows(|Body(padded)|);
      Negate(DigitsValue(Body(frac)), Pow10(n));
    } else {
      var i :| 0 <= i < |Body(frac)| && !IsDigit(Body(frac)[i]);
      assert Body(padded)[i] == Body(frac)[i];
    }
  }

  lemma {:induction false} Negate(a: int, b: int)
    ensures (0 - a) * b == 0 - a * b
  {
  }

  lemma {:induction false} Pow10Grows(n: nat)
    requires n <= 7
    ensures Pow10(n) <= STROOPS
  {
    Pow10Seven();
    Pow10Monotone(n, 7);
  }

  lemma {:induction false} Pow10Monotone(m: nat, n: nat)
    requires m <= n
    ensures Pow10(m) <= Pow10(n)
  {
    if m < n {
      Pow10Monotone(m, n - 1);
    }
  }

  /**
    Every text: it is accepted if and only if both parts have the right shape and the whole
    part and the sum fit; the result is then the sum of the two signed parts. The unchecked
    addition overflows exactly when the sum alone does not fit.
  */
  lemma {:induction false} AcceptedTexts(amount: string)
    ensures var whole, frac := Whole(amount), Fraction(amount);
      && '.' !in whole && (if '.' in amount then amount == whole + "." + frac else amount == whole && frac == "")
      && (Parsed(whole, frac).Ok? <==>
            WellShaped(whole, frac) && InI64(SignedValue(whole) * STROOPS) && InI64(SignedSum(whole, frac)))
      && (Parsed(whole, frac).Ok? ==> Parsed(whole, frac).stroops == SignedSum(whole, frac))
      && (Parsed(whole, frac).SumOverflow? <==>
            WellShaped(whole, frac) && InI64(SignedValue(whole) * STROOPS) && !InI64(SignedSum(whole, frac)))
      && (Parsed(whole, frac).TooManyDecimals? <==> |frac| > 7)
      && (Parsed(whole, frac).AmountOverflow? <==> |frac| <= 7 && WholeOverflows(whole))
  {
    hide ParseI64, DigitsValue, Pow10, Zeros, Parsed, SignedSum, SignedValue, InI64, WholeOverflows;
    assert amount[0..] == amount;
    PartsParse(Whole(amount), Fraction(amount));
  }

  // An integer that fits, and no longer does in stroops.
  predicate WholeOverflows(whole: string) {
    && Body(whole) != [] && IsDigits(Body(whole)) && InI64(SignedValue(whole))
    && !InI64(SignedValue(whole) * STROOPS)
  }

  lemma {:induction false} PartsParse(whole: string, frac: string)
    ensures Parsed(whole, frac).Ok? <==>
      WellShaped(whole, frac) && InI64(SignedValue(whole) * STROOPS) && InI64(SignedSum(whole, frac))
    ensures Parsed(whole, frac).Ok? ==> Parsed(whole, frac).stroops == SignedSum(whole, frac)
    ensures Parsed(whole, frac).SumOverflow? <==>
      WellShaped(whole, frac) && InI64(SignedValue(whole) * STROOPS) && !InI64(SignedSum(whole, frac))
    ensures Parsed(whole, frac).TooManyDecimals? <==> |frac| > 7
    ensures Parsed(whole, frac).AmountOverflow? <==> |frac| <= 7 && WholeOverflows(whole)
  {
    hide DigitsValue, Pow10, Zeros, Body, SignedValue;
    if |frac| <= 7 {
      ParseFraction(frac);
    }
  }

  // A decimal number as usually written: no sign after the point.
  predicate IsDecimal(whole: string, frac: string) {
    Body(whole) != [] && IsDigits(Body(whole)) && IsDigits(frac) && |frac| <= 7
  }

  function Denoted(whole: string, frac: string): int
    requires IsDecimal(whole, frac)
  {
    var stroops := ExactStroops(Body(whole), frac);
    if HasMinus(whole) then 0 - stroops else stroops
  }

  /**
    An accepted text is read as the decimal it writes if and only if it has no sign after
    the point, and no minus before it unless the fraction is zero.
  */
  lemma {:induction false} FaithfulIff(whole: string, frac: string)
    requires Parsed(whole, frac).Ok?
    ensures IsDecimal(whole, frac) <==> !HasSign(frac)
    ensures (IsDecimal(whole, frac) && Parsed(whole, frac).stroops == Denoted(whole, frac)) <==>
      !HasSign(frac) && (!HasMinus(whole) || DigitsValue(frac) == 0)
  {
    hide ParseI64, DigitsValue, Pow10, Zeros, Parsed;
    PartsParse(whole, frac);
    if HasSign(frac) {
      assert !IsDigit(frac[0]);
    } else {
      Negate(DigitsValue(Body(whole)), STROOPS);
      ZeroProduct(DigitsValue(frac), Pow10(7 - |frac|));
    }
  }

  lemma {:induction false} ZeroProduct(a: nat, b: nat)
    requires b > 0
    ensures a * b == 0 <==> a == 0
  {
    if a > 0 {
      assert a * b >= b;
    }
  }

  /**
    A minus sign governs the whole part only: -w.f is read as -w + f, so the result is the
    negated amount if and only if the fraction is zero.
  */
  lemma {:induction false} NegativeAmounts(whole: string, frac: string)
    requires whole != [] && IsDigits(whole) && IsDigits(frac) && |frac| <= 7
    ensures var r := Parsed("-" + whole, frac);
      var w, f := DigitsValue(whole) * STROOPS, DigitsValue(frac) * Pow10(7 - |frac|);
      && (r.Ok? <==> w <= I64_MAX)
      && (r.Ok? ==> r.stroops == f - w && (r.stroops == 0 - ExactStroops(whole, frac) <==> DigitsValue(frac) == 0))
  {
    hide DigitsValue, Pow10, ParseI64, Parsed, Zeros;
    var signed := "-" + whole;
    assert Body(signed) == whole && HasMinus(signed);
    DigitsHaveNoSign(frac);
    PartsParse(signed, frac);
    ParseFraction(frac);
    Negate(DigitsValue(whole), STROOPS);
    ZeroProduct(DigitsValue(frac), Pow10(7 - |frac|));
  }

  lemma {:induction false} DigitsHaveNoSign(s: string)
    requires IsDigits(s)
    ensures !HasSign(s) && !HasMinus(s) && Body(s) == s
  {
    if s != [] {
      assert IsDigit(s[0]);
    }
  }

  /**
    A sign inside the fraction is accepted too, and moves its digits one place down:
    1.-5 parses as 0.95, and so for every whole part that fits.
  */
  lemma {:induction false} SignedFractionAccepted(whole: string, sign: char, digits: string)
    requires whole != [] && IsDigits(whole) && IsDigits(digits) && |digits| <= 6 && (sign == '+' || sign == '-')
    ensures var r := Parsed(whole, [sign] + digits);
      var w, f := DigitsValue(whole) * STROOPS, DigitsValue(digits) * Pow10(6 - |digits|);
      var sum := if sign == '-' then w - f else w + f;
      && (r.Ok? <==> w <= I64_MAX && sum <= I64_MAX)
      && (r.Ok? ==> r.stroops == sum)
  {
    hide DigitsValue, Pow10, ParseI64, Parsed, Zeros;
    var frac := [sign] + digits;
    assert Body(frac) == digits && |frac| == |digits| + 1;
    DigitsHaveNoSign(whole);
    PartsParse(whole, frac);
    ParseFraction(frac);
    Negate(DigitsValue(digits), Pow10(6 - |digits|));
  }

  // ----- Printing -----

  function DigitChar(d: nat): (c: char)
    requires d < 10
    ensures IsDigit(c) && DigitValue(c) == d
  {
    ('0' as int + d) as char
  }

  function Decimal(n: nat): (s: string)
    ensures s != [] && IsDigits(s)
  {
    if n < 10 then [DigitChar(n)] else Decimal(n / 10) + [DigitChar(n % 10)]
  }

  function FixedDecimal(n: nat, width: nat): (s: string)
    ensures |s| == width && IsDigits(s)
  {
    if width == 0 then "" else FixedDecimal(n / 10, width - 1) + [DigitChar(n % 10)]
  }

  // Stroops with exactly seven decimals.
  function Print(stroops: nat): string {
    Decimal(stroops / 10_000_000) + "." + FixedDecimal(stroops % 10_000_000, 7)
  }

  lemma {:induction false} DecimalValue(n: nat)
    ensures DigitsValue(Decimal(n)) == n
  {
    if n < 10 {
      DigitsSnoc("", DigitChar(n));
      assert "" + [DigitChar(n)] == [DigitChar(n)];
    } else {
      DecimalValue(n / 10);
      DigitsSnoc(Decimal(n / 10), DigitChar(n % 10));
    }
  }

  lemma {:induction false} FixedDecimalValue(n: nat, width: nat)
    requires n < Pow10(width)
    ensures DigitsValue(FixedDecimal(n, width)) == n
  {
    if width > 0 {
      FixedDecimalValue(n / 10, width - 1);
      DigitsSnoc(FixedDecimal(n / 10, width - 1), DigitChar(n % 10));
    }
  }

  /** Parsing inverts printing for every stroop count up to i64::MAX. */
  lemma {:induction false} PrintThenParse(stroops: nat)
    requires stroops <= I64_MAX
    ensures Parsed(Whole(Print(stroops)), Fraction(Print(stroops))) == Ok(stroops)
  {
    hide DigitsValue, Parsed, Whole, Fraction, Decimal, FixedDecimal;
    var whole, frac := Decimal(stroops / 10_000_000), FixedDecimal(stroops % 10_000_000, 7);
    DecimalValue(stroops / 10_000_000);
    Pow10Seven();
    FixedDecimalValue(stroops % 10_000_000, 7);
    assert Pow10(0) == 1;
    assert ExactStroops(whole, frac) == stroops;
    ExactOnText(whole, frac);
  }
}
