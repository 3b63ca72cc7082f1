/**
  Fermat's little theorem, and what it says of the residues modulo a safe prime p = 2q + 1:
  every commitment that p does not divide has order dividing 2q.
*/
module Fermat {
  import opened Arithmetic
  import opened ModularGroup

  // ----- Binomial coefficients -----

  function Binomial(n: nat, k: nat): nat {
    if k == 0 then 1 else if n == 0 then 0 else Binomial(n - 1, k - 1) + Binomial(n - 1, k)
  }

  lemma {:induction false} BinomialTop(n: nat, k: nat)
    requires k >= n
    ensures Binomial(n, k) == if k == n then 1 else 0
  {
    if n > 0 {
      BinomialTop(n - 1, k - 1);
      BinomialTop(n - 1, k);
    }
  }

  // k C(n, k) = n C(n-1, k-1)
  lemma {:induction false} Absorption(n: nat, k: nat)
    requires n >= 1 && k >= 1
    ensures k * Binomial(n, k) == n * Binomial(n - 1, k - 1)
    decreases n
  {
    if n == 1 {
      BinomialTop(1, k);
      BinomialTop(0, k - 1);
    } else if k == 1 {
      Absorption(n - 1, 1);
    } else {
      Absorption(n - 1, k - 1);
      Absorption(n - 1, k);
      AbsorptionStep(n, k, Binomial(n - 1, k - 1), Binomial(n - 1, k), Binomial(n - 2, k - 2), Binomial(n - 2, k - 1));
    }
  }

  lemma {:induction false} AbsorptionStep(n: int, k: int, a: int, b: int, c: int, d: int)
    requires (k - 1) * a == (n - 1) * c && k * b == (n - 1) * d && a == c + d
    ensures k * (a + b) == n * a
  {
    assert k * (a + b) == (k - 1) * a + a + k * b;
    assert (n - 1) * c + (n - 1) * d == (n - 1) * a;
  }

  /** Euclid's lemma. */
  lemma {:induction false} PrimeDividesFactor(a: int, b: int, p: nat)
    requires IsPrime(p) && (a * b) % p == 0
    ensures a % p == 0 || b % p == 0
  {
    if a % p != 0 {
      var x := ScalarInverse(a, p);
      ModUnique(0, 0, 0, p);
      ModMulCong(a * b, 0, x, p);
      assert (a * b) * x == (a * x) * b && 0 * x == 0;
      ModUnique(1, 0, 1, p);
      ModMulCong(a * x, 1, b, p);
    }
  }

  lemma {:induction false} PrimeDividesBinomial(p: nat, k: nat)
    requires IsPrime(p) && 0 < k < p
    ensures Binomial(p, k) % p == 0
  {
    Absorption(p, k);
    var c := Binomial(p - 1, k - 1);
    assert k * Binomial(p, k) == c * p + 0;
    ModUnique(k * Binomial(p, k), c, 0, p);
    ModUnique(k, 0, k, p);
    PrimeDividesFactor(k, Binomial(p, k), p);
  }

  // ----- The binomial theorem -----

  function IntPower(a: int, n: nat): int {
    if n == 0 then 1 else a * IntPower(a, n - 1)
  }

  // sum of C(n, k) a^k over k <= m
  function BinomialSum(n: nat, a: int, m: nat): int {
    if m == 0 then 1 else BinomialSum(n, a, m - 1) + Binomial(n, m) * IntPower(a, m)
  }

  lemma {:induction false} PascalSum(n: nat, a: int, m: nat)
    requires n >= 1 && m >= 1
    ensures BinomialSum(n, a, m) == BinomialSum(n - 1, a, m) + a * BinomialSum(n - 1, a, m - 1)
  {
    if m == 1 {
      assert BinomialSum(n, a, 1) == 1 + Binomial(n, 1) * IntPower(a, 1);
      assert BinomialSum(n - 1, a, 1) == 1 + Binomial(n - 1, 1) * IntPower(a, 1);
      assert IntPower(a, 1) == a * IntPower(a, 0) == a;
      PascalTerm(Binomial(n - 1, 0), Binomial(n - 1, 1), a, 1);
    } else {
      PascalSum(n, a, m - 1);
      PascalTerm(Binomial(n - 1, m - 1), Binomial(n - 1, m), a, IntPower(a, m - 1));
      Distribute(a, BinomialSum(n - 1, a, m - 2), Binomial(n - 1, m - 1) * IntPower(a, m - 1));
    }
  }

  lemma {:induction false} PascalTerm(b: int, c: int, a: int, x: int)
    ensures (b + c) * (a * x) == c * (a * x) + a * (b * x)
  {
  }

  lemma {:induction false} Distribute(a: int, x: int, y: int)
    ensures a * (x + y) == a * x + a * y
  {
  }

  /** (a + 1)^n is the sum of C(n, k) a^k. */
  lemma {:induction false} BinomialTheorem(n: nat, a: int)
    ensures IntPower(a + 1, n) == BinomialSum(n, a, n)
  {
    if n > 0 {
      BinomialTheorem(n - 1, a);
      PascalSum(n, a, n);
      FullSum(n, a);
      OneMore(a, BinomialSum(n - 1, a, n - 1));
      assert IntPower(a + 1, n) == (a + 1) * IntPower(a + 1, n - 1);
      hide BinomialSum, IntPower;
    }
  }

  // The row n-1 has no further term.
  lemma {:induction false} FullSum(n: nat, a: int)
    requires n >= 1
    ensures BinomialSum(n - 1, a, n) == BinomialSum(n - 1, a, n - 1)
  {
    hide IntPower, Binomial;
    BinomialTop(n - 1, n);
    assert 0 * IntPower(a, n) == 0;
  }

  lemma {:induction false} OneMore(a: int, x: int)
    ensures (a + 1) * x == x + a * x
  {
  }

  // ----- Fermat -----

  // Modulo p only the ends of the sum remain.
  lemma {:induction false} InnerTermsVanish(p: nat, a: int, m: nat)
    requires IsPrime(p) && m < p
    ensures BinomialSum(p, a, m) % p == 1
  {
    if m == 0 {
      ModUnique(1, 0, 1, p);
    } else {
      InnerTermsVanish(p, a, m - 1);
      PrimeDividesBinomial(p, m);
      hide Binomial, IntPower;
      var c := DivideOut(Binomial(p, m), IntPower(a, m), p);
      ModShift(BinomialSum(p, a, m - 1), c, p);
    }
  }

  lemma {:induction false} DivideOut(b: int, x: int, p: nat) returns (c: int)
    requires p > 0 && b % p == 0
    ensures b * x == c * p
  {
    c := (b / p) * x;
    Regroup(b / p, x, p);
  }

  lemma {:induction false} Regroup(d: int, x: int, p: int)
    ensures (d * p) * x == (d * x) * p
  {
  }

  lemma {:induction false} FermatStep(p: nat, a: int)
    requires IsPrime(p)
    ensures IntPower(a + 1, p) % p == (IntPower(a, p) + 1) % p
  {
    BinomialTheorem(p, a);
    BinomialTop(p, p);
    InnerTermsVanish(p, a, p - 1);
    ModUnique(1, 0, 1, p);
    ModAddCong(BinomialSum(p, a, p - 1), 1, IntPower(a, p), p);
  }

  lemma {:induction false} FermatNat(p: nat, a: nat)
    requires IsPrime(p)
    ensures IntPower(a, p) % p == a % p
  {
    if a == 0 {
      assert IntPower(0, p) == 0 * IntPower(0, p - 1) == 0;
    } else {
      FermatNat(p, a - 1);
      FermatStep(p, a - 1);
      ModAddCong(IntPower(a - 1, p), a - 1, 1, p);
    }
  }

  lemma {:induction false} PowerIsIntPower(b: int, e: nat, m: nat)
    requires m > 0
    ensures Power(b, e, m) == IntPower(b, e) % m
  {
    if e > 0 {
      PowerIsIntPower(b, e - 1, m);
      MulReduce(b, IntPower(b, e - 1), m);
    }
  }

  /** Fermat's little theorem. */
  lemma {:induction false} FermatLittle(p: nat, x: int)
    requires IsPrime(p) && x % p != 0
    ensures Power(x, p - 1, p) == 1 % p
  {
    var a := x % p;
    var y := Power(x, p - 1, p);
    PowerReduce(x, p, p);
    PowerIsIntPower(a, p, p);
    FermatNat(p, a);
    ModOfMod(x, p);
    assert Power(x, p, p) == Mul(x, y, p) == x % p;
    Cancel(x, y, p);
    ModUnique(y, 0, y, p);
  }

  // x y = x gives y = 1, through the inverse of x.
  lemma {:induction false} Cancel(x: int, y: int, p: nat)
    requires IsPrime(p) && x % p != 0 && (x * y) % p == x % p
    ensures y % p == 1 % p
  {
    var i := ScalarInverse(x, p);
    ModMulCong(x * y, x, i, p);
    assert (x * y) * i == (x * i) * y;
    ModUnique(1, 0, 1, p);
    ModMulCong(x * i, 1, y, p);
  }

  /** A square root modulo a prime is unique up to sign. */
  lemma {:induction false} RootsUpToSign(p: nat, x: int, y: int)
    requires IsPrime(p) && Mul(x, x, p) == Mul(y, y, p)
    ensures x % p == y % p || x % p == -y % p
  {
    ModDiff(x * x, y * y, p);
    assert x * x - y * y == (x - y) * (x + y);
    PrimeDividesFactor(x - y, x + y, p);
    ModDiff(x, y, p);
    ModDiff(x, -y, p);
  }
}
