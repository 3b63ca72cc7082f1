/**
  Fee and conversion arithmetic of contracts/fee-primitives/src/lib.rs on 128-bit integers.
  A Rust panic is an `Err`.
*/
module FeePrimitives {
  import opened Wrappers
  import opened Arithmetic

  const BPS: int := 10_000
  const I128_MAX: int := 0x7FFF_FFFF_FFFF_FFFF_FFFF_FFFF_FFFF_FFFF

  newtype i128 = x: int | -I128_MAX - 1 <= x <= I128_MAX

  datatype FeeConfig = FeeConfig(baseFeeRate: i128, minFee: i128, maxFee: i128)

  datatype ConversionRate = ConversionRate(assetA: string, assetB: string, rate: i128)

  datatype FeeResult = FeeResult(amount: i128, rateUsed: i128, convertedAmount: Option<i128>)

  datatype Panic =
    | NegativeAmount | RateOutOfRange | NegativeBound | MinAboveMax
    | NegativeConversionRate | ConversionOverflow | AssetMismatch

  datatype Result<T> = Ok(value: T) | Err(panic: Panic) {
    predicate IsFailure() { Err? }
    function PropagateFailure<U>(): Result<U> requires Err? { Err(panic) }
    function Extract(): T requires Ok? { value }
  }

  function CheckedMul(a: i128, b: i128): Option<i128> {
    var product := a as int * b as int;
    if -I128_MAX - 1 <= product <= I128_MAX then Some(product as i128) else None
  }

  function ComputeFee(amount: i128, config: FeeConfig): Result<FeeResult> {
    if amount < 0 then Err(NegativeAmount)
    else if config.baseFeeRate < 0 || config.baseFeeRate > 10_000 then Err(RateOutOfRange)
    else if config.minFee < 0 || config.maxFee < 0 then Err(NegativeBound)
    else if config.minFee > config.maxFee then Err(MinAboveMax)
    else
      var rawFee := match CheckedMul(amount, config.baseFeeRate)
        case Some(product) =>
          assert product >= 0 by { ProductBounds(amount as int, config.baseFeeRate as int); }
          var quotient := product / 10_000;
          if product % 10_000 > 0 then quotient + 1 else quotient
        case None => config.maxFee;
      var clampedFee := if rawFee < config.minFee then config.minFee
                        else if rawFee > config.maxFee then config.maxFee else rawFee;
      var finalFee := if clampedFee > amount then amount else clampedFee;
      Ok(FeeResult(finalFee, config.baseFeeRate, None))
  }

  function ApplyConversion(amount: i128, rate: ConversionRate): Result<i128> {
    if amount < 0 then Err(NegativeAmount)
    else if rate.rate < 0 then Err(NegativeConversionRate)
    else match CheckedMul(amount, rate.rate)
      case None => Err(ConversionOverflow)
      case Some(product) => Ok(product / 10_000)
  }

  function CalculateFeeWithConversion(amount: i128, fromAsset: string, toAsset: string,
                                      config: FeeConfig, rate: ConversionRate): Result<FeeResult> {
    if rate.assetA != fromAsset || rate.assetB != toAsset then Err(AssetMismatch)
    else
      var converted :- ApplyConversion(amount, rate);
      var fee :- ComputeFee(converted, config);
      Ok(fee.(convertedAmount := Some(converted)))
  }

  // ----- The fee on unbounded integers -----

  // the least n with n * 10000 >= x
  function Ceil(x: int): (n: int)
    ensures (n - 1) * BPS < x <= n * BPS
  {
    (x + 9_999) / BPS
  }

  lemma {:induction false} CeilUnique(x: int, n: int)
    requires (n - 1) * BPS < x <= n * BPS
    ensures Ceil(x) == n
  {
  }

  lemma {:induction false} CeilMonotone(x: int, y: int)
    requires x <= y
    ensures Ceil(x) <= Ceil(y)
  {
  }

  function Min(a: int, b: int): int { if a < b then a else b }

  function Clamp(x: int, lo: int, hi: int): int {
    if x < lo then lo else if x > hi then hi else x
  }

  // min(amount, clamp(ceil(amount rate / 10000), minFee, maxFee))
  function ExactFee(amount: int, rate: int, minFee: int, maxFee: int): int {
    Min(amount, Clamp(Ceil(amount * rate), minFee, maxFee))
  }

  predicate ValidConfig(c: FeeConfig) {
    0 <= c.baseFeeRate <= 10_000 && 0 <= c.minFee <= c.maxFee
  }

  function FeeOf(amount: i128, c: FeeConfig): int
    requires amount >= 0 && ValidConfig(c)
  {
    ComputeFee(amount, c).value.amount as int
  }

  function ExactFeeOf(amount: int, c: FeeConfig): int {
    ExactFee(amount, c.baseFeeRate as int, c.minFee as int, c.maxFee as int)
  }

  lemma {:induction false} ProductBounds(a: int, r: int)
    requires a >= 0 && r >= 0
    ensures 0 <= a * r
    ensures r <= BPS ==> a * r <= a * BPS && Ceil(a * r) <= a
    ensures r < BPS && a >= BPS ==> Ceil(a * r) < a
  {
    NonNegative(a, r);
    if r <= BPS {
      NonNegative(a, BPS - r);
      assert a * (BPS - r) == a * BPS - a * r;
      if r < BPS {
        NonNegative(a, BPS - r - 1);
        assert a * (BPS - r) == a * (BPS - r - 1) + a;
      }
    }
  }

  lemma {:induction false} NonNegative(x: int, y: int)
    requires x >= 0 && y >= 0
    ensures x * y >= 0
  {
  }

  /** Which inputs panic, with the first violated check, and what an accepted call reports. */
  lemma {:induction false} FeePanics(amount: i128, c: FeeConfig)
    ensures var r := ComputeFee(amount, c);
      && (r.Ok? <==> amount >= 0 && ValidConfig(c))
      && (r.Ok? ==>
            0 <= r.value.amount <= amount && r.value.rateUsed == c.baseFeeRate && r.value.convertedAmount == None)
      && (r == Err(NegativeAmount) <==> amount < 0)
      && (r == Err(RateOutOfRange) <==> amount >= 0 && !(0 <= c.baseFeeRate <= 10_000))
      && (r == Err(NegativeBound) <==> amount >= 0 && 0 <= c.baseFeeRate <= 10_000 && (c.minFee < 0 || c.maxFee < 0))
      && (r == Err(MinAboveMax) <==> amount >= 0 && 0 <= c.baseFeeRate <= 10_000 && 0 <= c.maxFee < c.minFee)
  {
    if amount >= 0 && ValidConfig(c) {
      FeeByCases(amount, c);
      ProductBounds(amount as int, c.baseFeeRate as int);
      CeilUnique(0, 0);
      CeilMonotone(0, amount as int * c.baseFeeRate as int);
    }
  }

  // Where the bounded and the unbounded fee part: only on overflow.
  lemma {:induction false} FeeByCases(amount: i128, c: FeeConfig)
    requires amount >= 0 && ValidConfig(c)
    ensures var product := amount as int * c.baseFeeRate as int;
      FeeOf(amount, c) ==
        if product <= I128_MAX then ExactFeeOf(amount as int, c) else Min(amount as int, c.maxFee as int)
  {
    var product := amount as int * c.baseFeeRate as int;
    ProductBounds(amount as int, c.baseFeeRate as int);
    if product <= I128_MAX {
      var p := product as i128;
      var n := if p % 10_000 > 0 then p / 10_000 + 1 else p / 10_000;
      CeilUnique(product, n as int);
    }
  }

  /**
    The fee pinned down by inequalities. It lies between the minimum and the maximum fee, both
    cut off at the amount. Above the lower bound it is no more than the rate rounded up, and
    below the upper bound no less. On overflow it is the upper bound.
  */
  lemma {:induction false} FeeIsDetermined(amount: i128, c: FeeConfig, n: int)
    requires amount >= 0 && ValidConfig(c)
    ensures var a, product := amount as int, amount as int * c.baseFeeRate as int;
      var (low, high) := (Min(a, c.minFee as int), Min(a, c.maxFee as int));
      n == FeeOf(amount, c) <==>
        if product > I128_MAX then n == high
        else low <= n <= high && (n > low ==> (n - 1) * 10_000 < product) && (n < high ==> product <= n * 10_000)
  {
    hide ComputeFee, FeeOf, Ceil;
    FeeByCases(amount, c);
    ProductBounds(amount as int, c.baseFeeRate as int);
  }

  // The least amount whose product with the rate overflows.
  function FirstOverflow(rate: int): int
    requires rate > 0
  {
    I128_MAX / rate + 1
  }

  lemma {:induction false} FirstOverflowIsLeast(rate: int, a: int)
    requires rate > 0
    ensures a * rate > I128_MAX <==> a >= FirstOverflow(rate)
  {
    var q := I128_MAX / rate;
    assert q * rate <= I128_MAX < (q + 1) * rate;
    if a >= q + 1 {
      assert a * rate >= (q + 1) * rate;
    } else {
      assert a * rate <= q * rate;
    }
  }

  // When clamping to maxFee on overflow gives the true fee. A caller can check it on a config.
  predicate FallbackSound(c: FeeConfig) {
    || c.baseFeeRate <= 1
    || c.baseFeeRate == 10_000
    || c.minFee == c.maxFee
    || c.maxFee as int <= Ceil(FirstOverflow(c.baseFeeRate as int) * c.baseFeeRate as int)
  }

  lemma {:induction false} ClampAtTop(a: int, x: int, lo: int, hi: int)
    requires lo <= hi && (hi <= x || lo == hi || x == a)
    ensures Min(a, Clamp(x, lo, hi)) == Min(a, hi)
  {
  }

  lemma {:induction false} OverflowReachesTop(a: int, r: int, hi: int)
    requires r > 0 && a * r > I128_MAX && hi <= Ceil(FirstOverflow(r) * r)
    ensures hi <= Ceil(a * r)
  {
    FirstOverflowIsLeast(r, a);
    var a0 := FirstOverflow(r);
    assert a0 * r <= a * r;
    CeilMonotone(a0 * r, a * r);
  }

  lemma {:induction false} SoundFallbackIsExact(amount: i128, c: FeeConfig)
    requires amount >= 0 && ValidConfig(c) && FallbackSound(c)
    ensures FeeOf(amount, c) == ExactFeeOf(amount as int, c)
  {
    hide ComputeFee, Ceil, FeeOf, Min, Clamp;
    var a, r, lo, hi := amount as int, c.baseFeeRate as int, c.minFee as int, c.maxFee as int;
    FeeByCases(amount, c);
    SmallRateFits(a, r);
    if a * r > I128_MAX {
      assert r > 1;
      if r == BPS {
        CeilUnique(a * BPS, a);
      } else if lo != hi {
        OverflowReachesTop(a, r, hi);
      }
      ClampAtTop(a, Ceil(a * r), lo, hi);
    }
  }

  lemma {:induction false} SmallRateFits(a: int, r: int)
    requires 0 <= a <= I128_MAX && r >= 0
    ensures r <= 1 ==> a * r <= I128_MAX
  {
  }

  lemma {:induction false} UnsoundFallbackDiffers(c: FeeConfig) returns (amount: i128)
    requires ValidConfig(c) && !FallbackSound(c)
    ensures amount >= 0 && FeeOf(amount, c) > ExactFeeOf(amount as int, c)
  {
    hide ComputeFee, Ceil;
    var r := c.baseFeeRate as int;
    var a0 := FirstOverflow(r);
    assert BPS <= a0 <= I128_MAX by { FirstOverflowRange(r); }
    var a := if c.minFee as int < a0 then a0 else c.minFee as int + 1;
    amount := a as i128;
    FirstOverflowIsLeast(r, a);
    ProductBounds(a, r);
    FeeByCases(amount, c);
  }

  lemma {:induction false} FirstOverflowRange(r: int)
    requires 2 <= r < BPS
    ensures BPS <= FirstOverflow(r) <= I128_MAX
  {
    assert BPS * r <= BPS * BPS && I128_MAX * r >= I128_MAX * 2;
    FirstOverflowIsLeast(r, BPS);
    FirstOverflowIsLeast(r, I128_MAX);
  }

  /** On a config, the bounded fee is the exact fee for every amount if and only if the fallback is sound. */
  lemma {:induction false} BoundedFeeIsExactIff(c: FeeConfig)
    requires ValidConfig(c)
    ensures (forall amount: i128 :: amount >= 0 ==> FeeOf(amount, c) == ExactFeeOf(amount as int, c)) <==>
      FallbackSound(c)
  {
    hide ComputeFee, FallbackSound, ExactFee, FeeOf;
    if FallbackSound(c) {
      forall amount: i128 | amount >= 0 ensures FeeOf(amount, c) == ExactFeeOf(amount as int, c) {
        SoundFallbackIsExact(amount, c);
      }
    } else {
      var amount := UnsoundFallbackDiffers(c);
      assert FeeOf(amount, c) != ExactFeeOf(amount as int, c);
    }
  }

  /** Every maxFee up to floor((2^127-1)/10000) is sound. */
  lemma {:induction false} SmallMaxFeeIsSound(c: FeeConfig)
    requires ValidConfig(c) && c.maxFee as int <= I128_MAX / BPS
    ensures FallbackSound(c)
  {
    if c.baseFeeRate > 1 {
      var r := c.baseFeeRate as int;
      FirstOverflowIsLeast(r, FirstOverflow(r));
      CeilMonotone(I128_MAX, FirstOverflow(r) * r);
    }
  }

  // ----- Splitting and monotonicity -----

  lemma {:induction false} CeilSplits(a: int, b: int, r: int)
    requires a >= 0 && b >= 0 && 0 <= r <= BPS
    ensures Ceil((a + b) * r) <= Ceil(a * r) + Ceil(b * r)
    ensures Ceil((a + b) * r) <= a + Ceil(b * r)
    ensures Ceil(b * r) <= Ceil((a + b) * r)
  {
    assert (a + b) * r == a * r + b * r;
    ProductBounds(a, r);
    ProductBounds(b, r);
  }

  /** Splitting a payment never lowers the total fee. */
  lemma {:induction false} ExactFeeSubadditive(a: int, b: int, r: int, lo: int, hi: int)
    requires a >= 0 && b >= 0 && 0 <= r <= BPS && 0 <= lo <= hi
    ensures ExactFee(a + b, r, lo, hi) <= ExactFee(a, r, lo, hi) + ExactFee(b, r, lo, hi)
  {
    hide Ceil;
    CeilSplits(a, b, r);
    CeilSplits(b, a, r);
    ProductBounds(a, r);
    ProductBounds(b, r);
    CeilUnique(0, 0);
    CeilMonotone(0, a * r);
    CeilMonotone(0, b * r);
  }

  /** A larger payment leaves the payee at least as much, and never pays a smaller fee. */
  lemma {:induction false} ExactFeeMonotone(a: int, b: int, r: int, lo: int, hi: int)
    requires 0 <= a <= b && 0 <= r <= BPS && 0 <= lo <= hi
    ensures ExactFee(a, r, lo, hi) <= ExactFee(b, r, lo, hi)
    ensures a - ExactFee(a, r, lo, hi) <= b - ExactFee(b, r, lo, hi)
  {
    hide Ceil;
    CeilSplits(b - a, a, r);
  }

  // ----- The bounded fee -----

  // The fee with its overflow fallback, on integers.
  function BoundedFee(a: int, r: int, lo: int, hi: int): int {
    if a * r <= I128_MAX then ExactFee(a, r, lo, hi) else Min(a, hi)
  }

  lemma {:induction false} FeeIsBounded(amount: i128, c: FeeConfig)
    requires amount >= 0 && ValidConfig(c)
    ensures FeeOf(amount, c) == BoundedFee(amount as int, c.baseFeeRate as int, c.minFee as int, c.maxFee as int)
  {
    hide ComputeFee, FeeOf, ExactFee;
    FeeByCases(amount, c);
  }

  // The ranges of a valid config, as integers.
  predicate Bounds(r: int, lo: int, hi: int) {
    0 <= r <= BPS && 0 <= lo <= hi
  }

  lemma {:induction false} ExactFeeRange(a: int, r: int, lo: int, hi: int)
    requires a >= 0 && Bounds(r, lo, hi)
    ensures 0 <= ExactFee(a, r, lo, hi) <= Min(a, hi)
    ensures ExactFee(a, r, lo, hi) == a || ExactFee(a, r, lo, hi) == Clamp(Ceil(a * r), lo, hi)
  {
    hide Ceil;
  }

  lemma {:induction false} TopRateFee(a: int, lo: int, hi: int)
    requires a >= 0 && 0 <= lo <= hi
    ensures BoundedFee(a, BPS, lo, hi) == Min(a, hi)
  {
    CeilUnique(a * BPS, a);
  }

  lemma {:induction false} BoundedFeeMonotone(a: int, b: int, r: int, lo: int, hi: int)
    requires 0 <= a <= b && Bounds(r, lo, hi)
    ensures 0 <= BoundedFee(a, r, lo, hi) <= BoundedFee(b, r, lo, hi)
    ensures BoundedFee(a, r, lo, hi) <= Min(a, hi)
  {
    hide ExactFee;
    ExactFeeRange(a, r, lo, hi);
    ExactFeeRange(b, r, lo, hi);
    ExactFeeMonotone(a, b, r, lo, hi);
    NonNegative(b - a, r);
    assert (b - a) * r == b * r - a * r;
  }

  /** For every valid config a larger payment pays no smaller fee, and no fee exceeds the payment. */
  lemma {:induction false} FeeMonotone(a: i128, b: i128, c: FeeConfig)
    requires 0 <= a <= b && ValidConfig(c)
    ensures 0 <= FeeOf(a, c) <= FeeOf(b, c) && FeeOf(a, c) <= a as int
  {
    hide ComputeFee, FeeOf, BoundedFee;
    FeeIsBounded(a, c);
    FeeIsBounded(b, c);
    BoundedFeeMonotone(a as int, b as int, c.baseFeeRate as int, c.minFee as int, c.maxFee as int);
  }

  // The fee rises by at most one where the fallback sets in.
  predicate NoJump(r: int, lo: int, hi: int) {
    r <= 1 || BoundedFee(FirstOverflow(r), r, lo, hi) <= BoundedFee(FirstOverflow(r) - 1, r, lo, hi) + 1
  }

  predicate NetSound(c: FeeConfig) {
    NoJump(c.baseFeeRate as int, c.minFee as int, c.maxFee as int)
  }

  lemma {:induction false} CappedNet(a: int, b: int, hi: int)
    requires a <= b
    ensures a - Min(a, hi) <= b - Min(b, hi)
  {
  }

  lemma {:induction false} BoundedNetMonotone(a: int, b: int, r: int, lo: int, hi: int)
    requires 0 <= a <= b <= I128_MAX && Bounds(r, lo, hi) && NoJump(r, lo, hi)
    ensures a - BoundedFee(a, r, lo, hi) <= b - BoundedFee(b, r, lo, hi)
  {
    hide ExactFee, FirstOverflow;
    SmallRateFits(a, r);
    SmallRateFits(b, r);
    if r <= 1 {
      ExactFeeMonotone(a, b, r, lo, hi);
    } else {
      var a0 := FirstOverflow(r);
      FirstOverflowIsLeast(r, a);
      FirstOverflowIsLeast(r, b);
      FirstOverflowIsLeast(r, a0);
      FirstOverflowIsLeast(r, a0 - 1);
      if b < a0 {
        ExactFeeMonotone(a, b, r, lo, hi);
      } else if a >= a0 {
        CappedNet(a, b, hi);
      } else {
        ExactFeeMonotone(a, a0 - 1, r, lo, hi);
        CappedNet(a0, b, hi);
      }
    }
  }

  // What the payee is left with never falls when the payment grows.
  ghost predicate NetMonotone(c: FeeConfig)
    requires ValidConfig(c)
  {
    forall a: i128, b: i128 :: 0 <= a <= b ==> a as int - FeeOf(a, c) <= b as int - FeeOf(b, c)
  }

  lemma {:induction false} FirstOverflowFits(r: int)
    requires 2 <= r <= BPS
    ensures BPS < FirstOverflow(r) <= I128_MAX
  {
    assert (BPS + 1) * r <= (BPS + 1) * BPS && I128_MAX * r >= I128_MAX * 2;
    FirstOverflowIsLeast(r, BPS);
    FirstOverflowIsLeast(r, BPS + 1);
    FirstOverflowIsLeast(r, I128_MAX);
  }

  /** The net amount never falls, for all payments, if and only if the fee does not jump at the first overflow. */
  lemma {:induction false} NetMonotoneIff(c: FeeConfig)
    requires ValidConfig(c)
    ensures NetMonotone(c) <==> NetSound(c)
  {
    hide ComputeFee, FeeOf, BoundedFee, NoJump, FirstOverflow;
    var r, lo, hi := c.baseFeeRate as int, c.minFee as int, c.maxFee as int;
    if NetSound(c) {
      forall a: i128, b: i128 | 0 <= a <= b ensures a as int - FeeOf(a, c) <= b as int - FeeOf(b, c) {
        FeeIsBounded(a, c);
        FeeIsBounded(b, c);
        BoundedNetMonotone(a as int, b as int, r, lo, hi);
      }
    } else {
      JumpAtOverflow(c);
    }
  }

  lemma {:induction false} JumpAtOverflow(c: FeeConfig)
    requires ValidConfig(c) && !NetSound(c)
    ensures c.baseFeeRate > 1
    ensures var a0 := FirstOverflow(c.baseFeeRate as int);
      BPS < a0 <= I128_MAX && FeeOf(a0 as i128, c) > FeeOf(a0 as i128 - 1, c) + 1
  {
    hide ComputeFee, FeeOf, BoundedFee, FirstOverflow;
    var a0 := FirstOverflow(c.baseFeeRate as int);
    FirstOverflowFits(c.baseFeeRate as int);
    FeeIsBounded(a0 as i128, c);
    FeeIsBounded(a0 as i128 - 1, c);
  }

  // Splitting one unit off some payment lowers the total fee.
  ghost predicate UnitSplitPays(c: FeeConfig)
    requires ValidConfig(c)
  {
    exists a: i128 :: 0 <= a < I128_MAX as i128 && FeeOf(a + 1, c) > FeeOf(a, c) + FeeOf(1, c)
  }

  lemma {:induction false} UnitFee(c: FeeConfig)
    requires ValidConfig(c)
    ensures 0 <= FeeOf(1, c) <= 1
    ensures c.baseFeeRate > 0 && c.maxFee > 0 ==> FeeOf(1, c) == 1
    ensures forall a: i128 :: a >= 0 && c.maxFee == 0 ==> FeeOf(a, c) == 0
  {
    FeeIsBounded(1, c);
    BoundedFeeMonotone(1, 1, c.baseFeeRate as int, c.minFee as int, c.maxFee as int);
    if c.baseFeeRate > 0 {
      CeilUnique(c.baseFeeRate as int, 1);
    }
    forall a: i128 | a >= 0 && c.maxFee == 0 ensures FeeOf(a, c) == 0 {
      hide FeeOf, BoundedFee;
      FeeIsBounded(a, c);
      BoundedFeeMonotone(a as int, a as int, c.baseFeeRate as int, c.minFee as int, c.maxFee as int);
    }
  }

  /** ... and splitting off one unit pays for some payment if and only if it does jump there. */
  lemma {:induction false} UnitSplitPaysIff(c: FeeConfig)
    requires ValidConfig(c)
    ensures UnitSplitPays(c) <==> !NetSound(c)
  {
    hide ComputeFee, FeeOf, NetSound, FirstOverflow;
    UnitFee(c);
    if !NetSound(c) {
      JumpAtOverflow(c);
      var a := FirstOverflow(c.baseFeeRate as int) as i128 - 1;
      assert FeeOf(a + 1, c) > FeeOf(a, c) + FeeOf(1, c);
    } else {
      NetMonotoneIff(c);
      forall a: i128 | 0 <= a < I128_MAX as i128 ensures FeeOf(a + 1, c) <= FeeOf(a, c) + FeeOf(1, c) {
        if c.baseFeeRate == 0 {
          FeeIsBounded(a, c);
          FeeIsBounded(a + 1, c);
          FeeIsBounded(1, c);
          ExactFeeSubadditive(a as int, 1, 0, c.minFee as int, c.maxFee as int);
        }
      }
    }
  }

  // ----- Exactly when splitting never pays -----

  function Max(a: int, b: int): int { if a < b then b else a }

  // Two parts whose rounded fees add up to the rounded fee of the first overflowing amount,
  // both at least minFee: the first part has fee n, and n runs over at most r candidates.
  predicate EvenSplit(r: int, lo: int)
    requires r > 0
  {
    var a0 := FirstOverflow(r);
    var top, m := Ceil(a0 * r), Max(lo, 1);
    exists n :: m <= n < m + r && n <= top - m && BPS * n % r <= BPS * top - a0 * r
  }

  // A caller can check it on a config.
  predicate SplitSound(c: FeeConfig) {
    var r, lo, hi := c.baseFeeRate as int, c.minFee as int, c.maxFee as int;
    r <= 1 || r == BPS || (NetSound(c) && !(hi == Ceil(FirstOverflow(r) * r) + 1 && EvenSplit(r, lo)))
  }

  ghost predicate Subadditive(c: FeeConfig)
    requires ValidConfig(c)
  {
    forall a: i128, b: i128 :: a >= 0 && b >= 0 && a as int + b as int <= I128_MAX
      ==> FeeOf(a + b, c) <= FeeOf(a, c) + FeeOf(b, c)
  }

  // A part with the given rounded fee.
  function PartWithFee(n: int, r: int): int
    requires r > 0
  {
    BPS * n / r
  }

  lemma {:induction false} PartFee(n: int, r: int)
    requires 0 < r <= BPS && n >= 1
    ensures var a := PartWithFee(n, r); a >= 1 && a * r == BPS * n - BPS * n % r && Ceil(a * r) == n
  {
    var a := PartWithFee(n, r);
    DivMod(BPS * n, r);
    MulOrder(a, 0, r);
    CeilUnique(a * r, n);
  }

  lemma {:induction false} DivMod(x: int, r: int)
    requires r > 0
    ensures x / r * r == x - x % r && 0 <= x % r < r
  {
  }

  // The even split lowers the fee of the first overflowing amount.
  lemma {:induction false} EvenSplitPays(r: int, lo: int, hi: int) returns (a: int)
    requires 2 <= r < BPS && Bounds(r, lo, hi)
    requires hi == Ceil(FirstOverflow(r) * r) + 1 && EvenSplit(r, lo)
    ensures var a0 := FirstOverflow(r);
      0 < a < a0 && BoundedFee(a0, r, lo, hi) > BoundedFee(a, r, lo, hi) + BoundedFee(a0 - a, r, lo, hi)
  {
    hide FirstOverflow, Ceil, PartWithFee, BoundedFee, ExactFee;
    var a0 := FirstOverflow(r);
    var top, m := Ceil(a0 * r), Max(lo, 1);
    var n :| m <= n < m + r && n <= top - m && BPS * n % r <= BPS * top - a0 * r;
    a := PartWithFee(n, r);
    EvenParts(a0, r, n, top);
    FirstOverflowFits(r);
    ProductBounds(a0, r);
    FeeAtOverflow(a0, r, lo, hi);
    FeeBelowOverflow(a, r, lo, hi);
    FeeBelowOverflow(a0 - a, r, lo, hi);
  }

  lemma {:induction false} EvenParts(a0: int, r: int, n: int, top: int)
    requires 0 < r <= BPS && 1 <= n < top && Ceil(a0 * r) == top && BPS * n % r <= BPS * top - a0 * r
    ensures var a := PartWithFee(n, r);
      a >= 1 && a0 - a >= 1 && Ceil(a * r) == n && Ceil((a0 - a) * r) == top - n
  {
    hide Ceil, PartWithFee;
    var a := PartWithFee(n, r);
    PartFee(n, r);
    DivMod(BPS * n, r);
    assert (a0 - a) * r == a0 * r - a * r;
    CeilUnique((a0 - a) * r, top - n);
    NonNegativeFactor(a0 - a, r);
  }

  lemma {:induction false} FeeAtOverflow(a: int, r: int, lo: int, hi: int)
    requires r > 0 && a >= FirstOverflow(r)
    ensures BoundedFee(a, r, lo, hi) == Min(a, hi)
  {
    hide FirstOverflow, ExactFee;
    FirstOverflowIsLeast(r, a);
  }

  lemma {:induction false} FeeBelowOverflow(a: int, r: int, lo: int, hi: int)
    requires r > 0 && a < FirstOverflow(r) && lo <= hi
    ensures BoundedFee(a, r, lo, hi) <= Max(lo, Ceil(a * r))
  {
    hide FirstOverflow, Ceil;
    FirstOverflowIsLeast(r, a);
  }

  lemma {:induction false} NonNegativeFactor(x: int, r: int)
    requires r > 0 && Ceil(x * r) >= 1
    ensures x >= 1
  {
    MulOrder(x, 0, r);
  }

  // Without a jump, either the cap alone decides every fee, or it lies below the first overflow.
  lemma {:induction false} NoJumpCases(r: int, lo: int, hi: int)
    requires 2 <= r < BPS && Bounds(r, lo, hi) && NoJump(r, lo, hi)
    ensures var a0 := FirstOverflow(r);
      lo >= a0 - 1 || (hi < a0 && hi <= Max(lo, Min(Ceil((a0 - 1) * r), hi)) + 1)
  {
    hide FirstOverflow, Ceil;
    var a0 := FirstOverflow(r);
    FirstOverflowFits(r);
    FirstOverflowIsLeast(r, a0);
    FirstOverflowIsLeast(r, a0 - 1);
    ProductBounds(a0 - 1, r);
  }

  lemma {:induction false} CapDecides(a: int, r: int, lo: int, hi: int)
    requires 2 <= r < BPS && Bounds(r, lo, hi) && lo >= FirstOverflow(r) - 1 && a >= 0
    ensures BoundedFee(a, r, lo, hi) == Min(a, hi)
  {
    hide FirstOverflow, Ceil;
    FirstOverflowIsLeast(r, a);
  }

  // A split that pays has parts below the first overflow with fees max(minFee, rounded fee).
  lemma {:induction false} PayingParts(a: int, b: int, r: int, lo: int, hi: int)
    requires 2 <= r < BPS && Bounds(r, lo, hi) && NoJump(r, lo, hi) && hi < FirstOverflow(r)
    requires a >= 0 && b >= 0 && FirstOverflow(r) <= a + b <= I128_MAX
    requires BoundedFee(a, r, lo, hi) + BoundedFee(b, r, lo, hi) < BoundedFee(a + b, r, lo, hi)
    ensures BoundedFee(a + b, r, lo, hi) == hi
    ensures 0 < a && BoundedFee(a, r, lo, hi) == Max(lo, Ceil(a * r))
  {
    hide FirstOverflow, Ceil, NoJump, ExactFee;
    FirstOverflowIsLeast(r, a + b);
    FirstOverflowIsLeast(r, a);
    BoundedFeeMonotone(a, a, r, lo, hi);
    BoundedFeeMonotone(b, b, r, lo, hi);
    BoundedNetMonotone(b, a + b, r, lo, hi);
    ExactFeeRange(a, r, lo, hi);
  }

  // ... and so is an even split.
  lemma {:induction false} PayingSplitIsEven(a: int, b: int, r: int, lo: int, hi: int)
    requires 2 <= r < BPS && Bounds(r, lo, hi) && NoJump(r, lo, hi) && hi < FirstOverflow(r)
    requires hi <= Max(lo, Min(Ceil((FirstOverflow(r) - 1) * r), hi)) + 1
    requires a >= 0 && b >= 0 && FirstOverflow(r) <= a + b <= I128_MAX
    requires BoundedFee(a, r, lo, hi) + BoundedFee(b, r, lo, hi) < BoundedFee(a + b, r, lo, hi)
    ensures hi == Ceil(FirstOverflow(r) * r) + 1 && EvenSplit(r, lo)
  {
    hide FirstOverflow, Ceil, NoJump, ExactFee, BoundedFee, EvenSplit;
    var a0 := FirstOverflow(r);
    PayingParts(a, b, r, lo, hi);
    PayingParts(b, a, r, lo, hi);
    PositiveCeil(a, r);
    PositiveCeil(b, r);
    CeilSplits(a, b, r);
    CeilOfProducts(a0, a + b, r);
    CeilOfProducts(a0 - 1, a0, r);
    var n := Ceil(a * r);
    assert Ceil(b * r) == Ceil(a0 * r) - n && hi == Ceil(a0 * r) + 1;
    RemainderFits(a, b, a0, r, n, Ceil(a0 * r));
    CandidateExists(r, lo, n);
  }

  lemma {:induction false} MulOrder(x: int, y: int, r: int)
    requires r >= 0
    ensures x <= y ==> x * r <= y * r
  {
    if x <= y {
      NonNegative(y - x, r);
      assert (y - x) * r == y * r - x * r;
    }
  }

  lemma {:induction false} PositiveCeil(a: int, r: int)
    requires a > 0 && r > 0
    ensures Ceil(a * r) >= 1
  {
    MulOrder(1, a, r);
    CeilUnique(1, 1);
    CeilMonotone(1, a * r);
  }

  lemma {:induction false} CeilOfProducts(a: int, b: int, r: int)
    requires a <= b && r >= 0
    ensures Ceil(a * r) <= Ceil(b * r)
  {
    MulOrder(a, b, r);
    CeilMonotone(a * r, b * r);
  }

  lemma {:induction false} RemainderFits(a: int, b: int, a0: int, r: int, n: int, top: int)
    requires r > 0 && a + b >= a0 && a * r <= BPS * n && b * r <= BPS * (top - n)
    ensures BPS * n % r <= BPS * top - a0 * r
  {
    var most := BPS * n / r;
    DivMod(BPS * n, r);
    MulOrder(most + 1, a, r);
    assert (most + 1) * r == most * r + r;
    MulOrder(a, most, r);
    MulOrder(a0, a + b, r);
    assert (a + b) * r == a * r + b * r;
  }

  lemma {:induction false} CandidateExists(r: int, lo: int, n: int)
    requires r > 0
    requires var a0 := FirstOverflow(r); var top, m := Ceil(a0 * r), Max(lo, 1);
      m <= n <= top - m && BPS * n % r <= BPS * top - a0 * r
    ensures EvenSplit(r, lo)
  {
    hide FirstOverflow, Ceil;
    var m := Max(lo, 1);
    var k := (n - m) / r;
    DivMod(n - m, r);
    var n' := n - k * r;
    NonNegativeQuotient(n - m, r);
    NonNegative(k, r);
    ModShift(BPS * n', BPS * k, r);
    assert BPS * n' + BPS * k * r == BPS * n;
    assert m <= n' < m + r;
  }

  lemma {:induction false} NonNegativeQuotient(x: int, r: int)
    requires x >= 0 && r > 0
    ensures x / r >= 0
  {
  }

  lemma {:induction false} BoundedSubadditive(a: int, b: int, c: FeeConfig)
    requires ValidConfig(c) && SplitSound(c) && a >= 0 && b >= 0 && a + b <= I128_MAX
    ensures var r, lo, hi := c.baseFeeRate as int, c.minFee as int, c.maxFee as int;
      BoundedFee(a + b, r, lo, hi) <= BoundedFee(a, r, lo, hi) + BoundedFee(b, r, lo, hi)
  {
    hide FirstOverflow, Ceil, ExactFee, EvenSplit;
    var r, lo, hi := c.baseFeeRate as int, c.minFee as int, c.maxFee as int;
    NonNegative(a, r);
    NonNegative(b, r);
    assert (a + b) * r == a * r + b * r;
    ExactFeeSubadditive(a, b, r, lo, hi);
    SmallRateFits(a + b, r);
    if r == BPS {
      TopRateFee(a, lo, hi);
      TopRateFee(b, lo, hi);
      TopRateFee(a + b, lo, hi);
    } else if (a + b) * r > I128_MAX {
      FirstOverflowIsLeast(r, a + b);
      NoJumpCases(r, lo, hi);
      if lo >= FirstOverflow(r) - 1 {
        CapDecides(a, r, lo, hi);
        CapDecides(b, r, lo, hi);
        CapDecides(a + b, r, lo, hi);
      } else if BoundedFee(a, r, lo, hi) + BoundedFee(b, r, lo, hi) < BoundedFee(a + b, r, lo, hi) {
        PayingSplitIsEven(a, b, r, lo, hi);
      }
    }
  }

  /** Splitting never lowers the fee, for all payments, if and only if the config is `SplitSound`. */
  lemma {:induction false} SubadditiveIff(c: FeeConfig)
    requires ValidConfig(c)
    ensures Subadditive(c) <==> SplitSound(c)
  {
    hide ComputeFee, FeeOf, BoundedFee, FirstOverflow, Ceil, EvenSplit, NoJump;
    if SplitSound(c) {
      forall a: i128, b: i128 | a >= 0 && b >= 0 && a as int + b as int <= I128_MAX
        ensures FeeOf(a + b, c) <= FeeOf(a, c) + FeeOf(b, c)
      {
        FeeIsBounded(a, c);
        FeeIsBounded(b, c);
        FeeIsBounded(a + b, c);
        BoundedSubadditive(a as int, b as int, c);
      }
    } else if !NetSound(c) {
      UnitSplitPaysIff(c);
      var a: i128 :| 0 <= a < I128_MAX as i128 && FeeOf(a + 1, c) > FeeOf(a, c) + FeeOf(1, c);
    } else {
      var r, lo, hi := c.baseFeeRate as int, c.minFee as int, c.maxFee as int;
      var a := EvenSplitPays(r, lo, hi);
      var a0 := FirstOverflow(r);
      FirstOverflowFits(r);
      FeeIsBounded(a0 as i128, c);
      FeeIsBounded(a as i128, c);
      FeeIsBounded((a0 - a) as i128, c);
      assert a as i128 + (a0 - a) as i128 == a0 as i128;
    }
  }

  /** A sound fallback is free of both defects. */
  lemma {:induction false} FallbackSoundSuffices(c: FeeConfig)
    requires ValidConfig(c) && FallbackSound(c)
    ensures Subadditive(c) && NetMonotone(c) && SplitSound(c) && NetSound(c)
  {
    hide ComputeFee, FallbackSound, FeeOf, ExactFee, NetSound, SplitSound;
    var r, lo, hi := c.baseFeeRate as int, c.minFee as int, c.maxFee as int;
    forall a: i128, b: i128 | a >= 0 && b >= 0 && a as int + b as int <= I128_MAX
      ensures FeeOf(a + b, c) <= FeeOf(a, c) + FeeOf(b, c)
    {
      SoundFallbackIsExact(a, c);
      SoundFallbackIsExact(b, c);
      SoundFallbackIsExact(a + b, c);
      ExactFeeSubadditive(a as int, b as int, r, lo, hi);
    }
    forall a: i128, b: i128 | 0 <= a <= b ensures a as int - FeeOf(a, c) <= b as int - FeeOf(b, c) {
      SoundFallbackIsExact(a, c);
      SoundFallbackIsExact(b, c);
      ExactFeeMonotone(a as int, b as int, r, lo, hi);
    }
    SubadditiveIff(c);
    NetMonotoneIff(c);
  }

  /** Unless minFee is near half the rounded fee of the first overflow, nothing else makes the fee subadditive. */
  lemma {:induction false} SmallMinFeeIff(c: FeeConfig)
    requires ValidConfig(c) && 2 <= c.baseFeeRate < 10_000
    requires var r := c.baseFeeRate as int; 2 * Max(c.minFee as int, 1) + r <= Ceil(FirstOverflow(r) * r) + 1
    ensures Subadditive(c) <==> FallbackSound(c)
  {
    hide ComputeFee, FeeOf, BoundedFee, FirstOverflow, Ceil, EvenSplit;
    var r, lo, hi := c.baseFeeRate as int, c.minFee as int, c.maxFee as int;
    SubadditiveIff(c);
    if FallbackSound(c) {
      FallbackSoundSuffices(c);
    } else if SplitSound(c) {
      var a0 := FirstOverflow(r);
      NoJumpCases(r, lo, hi);
      FirstOverflowFits(r);
      ProductBounds(a0, r);
      CeilOfProducts(a0 - 1, a0, r);
      WholeSplit(r, lo);
    }
  }

  // With room for r candidates one of them is a multiple of r.
  lemma {:induction false} WholeSplit(r: int, lo: int)
    requires r > 0 && 2 * Max(lo, 1) + r <= Ceil(FirstOverflow(r) * r) + 1
    ensures EvenSplit(r, lo)
  {
    hide FirstOverflow, Ceil, EvenSplit, Max;
    var m := Max(lo, 1);
    var n := MultipleIn(m, r);
    NoRemainder(n, r);
    CandidateExists(r, lo, n);
  }

  lemma {:induction false} MultipleIn(m: int, r: int) returns (n: int)
    requires r > 0
    ensures m <= n < m + r && n % r == 0
  {
    DivMod(m + r - 1, r);
    var k := (m + r - 1) / r;
    n := k * r;
    ModShift(0, k, r);
  }

  lemma {:induction false} NoRemainder(n: int, r: int)
    requires r > 0 && n % r == 0
    ensures BPS * n % r == 0
  {
    DivMod(n, r);
    var k := n / r;
    assert BPS * n == 0 + (BPS * k) * r;
    ModShift(0, BPS * k, r);
  }

  /** The contract's own fee on two payments and on their sum. */
  lemma {:induction false} FeeLaws(a: i128, b: i128, c: FeeConfig)
    requires a >= 0 && b >= 0 && a as int + b as int <= I128_MAX && ValidConfig(c)
    ensures FeeOf(a, c) <= FeeOf(a + b, c) && 0 <= FeeOf(a, c) <= a as int
    ensures SplitSound(c) ==> FeeOf(a + b, c) <= FeeOf(a, c) + FeeOf(b, c)
    ensures NetSound(c) ==> a as int - FeeOf(a, c) <= (a + b) as int - FeeOf(a + b, c)
    ensures FallbackSound(c) ==> SplitSound(c) && NetSound(c)
  {
    hide ComputeFee, FallbackSound, SplitSound, NetSound, FeeOf;
    FeeMonotone(a, a + b, c);
    SubadditiveIff(c);
    NetMonotoneIff(c);
    if FallbackSound(c) {
      FallbackSoundSuffices(c);
    }
  }

  /** With an unsound fallback, splitting one unit off can nearly halve the fee. */
  lemma {:induction false} SplittingCanPay()
    ensures var c := FeeConfig(5_000, 0, I128_MAX as i128);
      var a := (I128_MAX / 5_000) as i128;
      && ValidConfig(c) && !FallbackSound(c) && !NetSound(c) && !SplitSound(c)
      && FeeOf(a + 1, c) > FeeOf(a, c) + FeeOf(1, c)
  {
    var c := FeeConfig(5_000, 0, I128_MAX as i128);
    var a := (I128_MAX / 5_000) as i128;
    FeeByCases(a, c);
    FeeByCases(a + 1, c);
    FeeByCases(1, c);
    hide ComputeFee, FeeOf, NetSound, SplitSound;
    assert UnitSplitPays(c);
    UnitSplitPaysIff(c);
    SubadditiveIff(c);
  }

  // ----- Conversion -----

  /** Which conversions panic, with the first violated check, and the floor of the others. */
  lemma {:induction false} ConversionOutcome(amount: i128, rate: ConversionRate)
    ensures var r, product := ApplyConversion(amount, rate), amount as int * rate.rate as int;
      && (r == Err(NegativeAmount) <==> amount < 0)
      && (r == Err(NegativeConversionRate) <==> amount >= 0 && rate.rate < 0)
      && (r == Err(ConversionOverflow) <==> amount >= 0 && rate.rate >= 0 && product > I128_MAX)
      && (r.Ok? <==> amount >= 0 && rate.rate >= 0 && product <= I128_MAX)
      && (r.Ok? ==> r.value as int * 10_000 <= product < (r.value as int + 1) * 10_000)
  {
    if amount >= 0 && rate.rate >= 0 {
      ProductBounds(amount as int, rate.rate as int);
    }
  }

  /** Converting there and back never gains when the rates multiply to at most one. */
  lemma {:induction false} ConversionRoundTrip(amount: i128, there: ConversionRate, back: ConversionRate)
    requires there.rate as int * back.rate as int <= BPS * BPS
    ensures ApplyConversion(amount, there).Ok? ==>
      var x := ApplyConversion(amount, there).value;
      0 <= x && (ApplyConversion(x, back).Ok? ==> 0 <= ApplyConversion(x, back).value <= amount)
  {
    var x := ApplyConversion(amount, there);
    if x.Ok? {
      var a, r, s := amount as int, there.rate as int, back.rate as int;
      ProductBounds(a, r);
      var v := x.value as int;
      assert v * BPS <= a * r;
      var y := ApplyConversion(x.value, back);
      if y.Ok? {
        ProductBounds(v, s);
        var w := y.value as int;
        assert w * BPS <= v * s;
        RoundTripArithmetic(a, r, s, v, w);
      }
    }
  }

  lemma {:induction false} RoundTripArithmetic(a: int, r: int, s: int, v: int, w: int)
    requires a >= 0 && r >= 0 && s >= 0 && r * s <= BPS * BPS
    requires v * BPS <= a * r && w * BPS <= v * s
    ensures w <= a
  {
    assert (v * BPS) * s <= (a * r) * s;
    assert (v * s) * BPS == (v * BPS) * s && (a * r) * s == a * (r * s);
    assert a * (r * s) <= a * (BPS * BPS);
  }

  /** The combined call: floor of the conversion, then a fee on the converted amount that never exceeds it. */
  lemma {:induction false} ConvertedFee(amount: i128, from: string, to: string, c: FeeConfig, rate: ConversionRate)
    ensures var r := CalculateFeeWithConversion(amount, from, to, c, rate);
      && (r.Ok? <==>
           && ValidConfig(c) && rate.assetA == from && rate.assetB == to && amount >= 0 && rate.rate >= 0
           && amount as int * rate.rate as int <= I128_MAX)
      && (r.Ok? ==>
           && r.value.convertedAmount.Some?
           && var v := r.value.convertedAmount.value;
              && v as int * BPS <= amount as int * rate.rate as int < (v as int + 1) * BPS
              && 0 <= r.value.amount <= v && r.value.amount as int == FeeOf(v, c))
  {
    if amount >= 0 && rate.rate >= 0 {
      ProductBounds(amount as int, rate.rate as int);
    }
    var r := CalculateFeeWithConversion(amount, from, to, c, rate);
    if r.Ok? {
      var v := r.value.convertedAmount.value;
      FeeByCases(v, c);
      ProductBounds(v as int, c.baseFeeRate as int);
      CeilMonotone(0, v as int * c.baseFeeRate as int);
      CeilUnique(0, 0);
    }
  }
}
