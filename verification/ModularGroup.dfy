/**
  Arithmetic behind zkp_compliance.py: Python's three-argument `pow` on residues modulo P,
  exponents modulo the subgroup order Q, and inverses modulo a prime.
*/
module ModularGroup {
  import opened Wrappers
  import opened Arithmetic

  // ----- Residues -----

  function Mul(a: int, b: int, m: nat): (r: nat)
    requires m > 0
    ensures r < m
  {
    (a * b) % m
  }

  lemma {:induction false} MulReduce(a: int, b: int, m: nat)
    requires m > 0
    ensures Mul(a % m, b, m) == Mul(a, b, m) && Mul(a, b % m, m) == Mul(a, b, m)
  {
    ModOfMod(a, m);
    ModMulCong(a % m, a, b, m);
    ModOfMod(b, m);
    ModMulCong(b % m, b, a, m);
    assert a * (b % m) == (b % m) * a && a * b == b * a;
  }

  lemma {:induction false} MulComm(a: int, b: int, m: nat)
    requires m > 0
    ensures Mul(a, b, m) == Mul(b, a, m)
  {
    assert a * b == b * a;
  }

  lemma {:induction false} MulAssoc(a: int, b: int, c: int, m: nat)
    requires m > 0
    ensures Mul(Mul(a, b, m), c, m) == Mul(a, Mul(b, c, m), m)
  {
    MulReduce(a * b, c, m);
    MulReduce(a, b * c, m);
    assert (a * b) * c == a * (b * c);
  }

  // (a b)(c d) = (a c)(b d)
  lemma {:induction false} MulSwap(a: int, b: int, c: int, d: int, m: nat)
    requires m > 0
    ensures Mul(Mul(a, b, m), Mul(c, d, m), m) == Mul(Mul(a, c, m), Mul(b, d, m), m)
  {
    calc {
      Mul(Mul(a, b, m), Mul(c, d, m), m);
      { MulAssoc(a, b, Mul(c, d, m), m); }
      Mul(a, Mul(b, Mul(c, d, m), m), m);
      { MulAssoc(b, c, d, m); MulComm(b, c, m); MulAssoc(c, b, d, m); }
      Mul(a, Mul(c, Mul(b, d, m), m), m);
      { MulAssoc(a, c, Mul(b, d, m), m); }
      Mul(Mul(a, c, m), Mul(b, d, m), m);
    }
  }

  // ----- Powers -----

  function Power(b: int, e: nat, m: nat): (r: nat)
    requires m > 0
    ensures r < m
  {
    if e == 0 then 1 % m else Mul(b, Power(b, e - 1, m), m)
  }

  lemma {:induction false} MulOne(x: nat, m: nat)
    requires x < m
    ensures Mul(1 % m, x, m) == x && Mul(x, 1 % m, m) == x
  {
    MulReduce(1, x, m);
    MulComm(1 % m, x, m);
    ModUnique(x, 0, x, m);
    assert 1 * x == x;
  }

  lemma {:induction false} PowerOne(b: int, m: nat)
    requires m > 0
    ensures Power(b, 1, m) == b % m
  {
    assert Power(b, 1, m) == Mul(b, Power(b, 0, m), m);
    MulReduce(b, 1, m);
    assert b * 1 == b;
  }

  lemma {:induction false} PowerAdd(b: int, e: nat, f: nat, m: nat)
    requires m > 0
    ensures Power(b, e + f, m) == Mul(Power(b, e, m), Power(b, f, m), m)
  {
    if e == 0 {
      MulOne(Power(b, f, m), m);
    } else {
      PowerAdd(b, e - 1, f, m);
      MulAssoc(b, Power(b, e - 1, m), Power(b, f, m), m);
    }
  }

  lemma {:induction false} PowerUnit(e: nat, m: nat)
    requires m > 0
    ensures Power(1 % m, e, m) == 1 % m
  {
    if e != 0 {
      PowerUnit(e - 1, m);
      MulOne(1 % m, m);
    }
  }

  lemma {:induction false} PowerMul(b: int, e: nat, f: nat, m: nat)
    requires m > 0
    ensures Power(b, e * f, m) == Power(Power(b, e, m), f, m)
  {
    if f != 0 {
      PowerMul(b, e, f - 1, m);
      assert e * f == e + e * (f - 1);
      PowerAdd(b, e, e * (f - 1), m);
    }
  }

  lemma {:induction false} PowerProduct(a: int, b: int, e: nat, m: nat)
    requires m > 0
    ensures Power(Mul(a, b, m), e, m) == Mul(Power(a, e, m), Power(b, e, m), m)
  {
    if e == 0 {
      MulOne(1 % m, m);
    } else {
      PowerProduct(a, b, e - 1, m);
      MulSwap(a, b, Power(a, e - 1, m), Power(b, e - 1, m), m);
    }
  }

  lemma {:induction false} PowerReduce(b: int, e: nat, m: nat)
    requires m > 0
    ensures Power(b % m, e, m) == Power(b, e, m)
  {
    if e != 0 {
      PowerReduce(b, e - 1, m);
      MulReduce(b, Power(b, e - 1, m), m);
    }
  }

  // ----- Inverses and Python's pow -----

  // The least x >= from that inverts b modulo m.
  function InverseFrom(b: int, m: nat, from: nat): (r: Option<nat>)
    requires m > 0
    ensures r.Some? ==> r.value < m && Mul(b, r.value, m) == 1 % m
    ensures r.None? ==> forall x :: from <= x < m ==> Mul(b, x, m) != 1 % m
    decreases m - from
  {
    if from >= m then None
    else if Mul(b, from, m) == 1 % m then Some(from)
    else InverseFrom(b, m, from + 1)
  }

  // pow(b, -1, m); None stands for the ValueError of a base that is not invertible.
  function Inverse(b: int, m: nat): Option<nat>
    requires m > 0
  {
    InverseFrom(b, m, 0)
  }

  /** An inverse, once found, is the only one. */
  lemma {:induction false} InverseIs(b: int, x: nat, m: nat)
    requires x < m && Mul(b, x, m) == 1 % m
    ensures Inverse(b, m) == Some(x)
  {
    var r := Inverse(b, m);
    assert r.Some?;
    var y := r.value;
    calc {
      x;
      { MulOne(x, m); }
      Mul(x, 1 % m, m);
      Mul(x, Mul(b, y, m), m);
      { MulAssoc(x, b, y, m); MulComm(x, b, m); }
      Mul(1 % m, y, m);
      { MulOne(y, m); }
      y;
    }
  }

  // pow(b, e, m) for every integer e.
  function ModPow(b: int, e: int, m: nat): Option<nat>
    requires m > 0
  {
    if e >= 0 then Some(Power(b, e, m))
    else var i :- Inverse(b, m); Some(Power(i, -e, m))
  }

  // ----- Elements of order dividing q -----

  ghost predicate HasOrder(x: int, q: nat, m: nat)
    requires m > 0
  {
    q > 0 && Power(x, q, m) == 1 % m
  }

  // x to an integer exponent, reduced modulo q.
  function Exp(x: int, e: int, q: nat, m: nat): (r: nat)
    requires m > 0 && q > 0
    ensures r < m
  {
    Power(x, e % q, m)
  }

  lemma {:induction false} PowerIsExp(x: int, e: nat, q: nat, m: nat)
    requires m > 0 && HasOrder(x, q, m)
    ensures Power(x, e, m) == Exp(x, e, q, m)
  {
    var k := e / q;
    assert e == q * k + e % q && k >= 0;
    PowerAdd(x, q * k, e % q, m);
    PowerMul(x, q, k, m);
    PowerUnit(k, m);
    MulOne(Power(x, e % q, m), m);
  }

  lemma {:induction false} ExpAdd(x: int, e: int, f: int, q: nat, m: nat)
    requires m > 0 && HasOrder(x, q, m)
    ensures Exp(x, e + f, q, m) == Mul(Exp(x, e, q, m), Exp(x, f, q, m), m)
  {
    PowerAdd(x, e % q, f % q, m);
    PowerIsExp(x, e % q + f % q, q, m);
    ModOfMod(e, q);
    ModOfMod(f, q);
    ModAddCong(e % q, e, f % q, q);
    ModAddCong(f % q, f, e, q);
  }

  lemma {:induction false} ExpMul(x: int, e: int, f: int, q: nat, m: nat)
    requires m > 0 && HasOrder(x, q, m)
    ensures HasOrder(Exp(x, e, q, m), q, m)
    ensures Exp(x, e * f, q, m) == Exp(Exp(x, e, q, m), f, q, m)
  {
    var y := Exp(x, e, q, m);
    PowerMul(x, e % q, q, m);
    PowerMul(x, q, e % q, m);
    PowerUnit(e % q, m);
    assert (e % q) * q == q * (e % q);
    PowerMul(x, e % q, f % q, m);
    PowerIsExp(x, (e % q) * (f % q), q, m);
    ModOfMod(e, q);
    ModOfMod(f, q);
    ModMulCong(e % q, e, f % q, q);
    ModMulCong(f % q, f, e, q);
    assert e * (f % q) == (f % q) * e && e * f == f * e;
  }

  /** Python's pow agrees with exponents modulo q, negative exponents included. */
  lemma {:induction false} ModPowIsExp(x: int, e: int, q: nat, m: nat)
    requires m > 0 && HasOrder(x, q, m)
    ensures ModPow(x, e, m) == Some(Exp(x, e, q, m))
    ensures Inverse(x, m) == Some(Exp(x, -1, q, m))
  {
    var i := Exp(x, -1, q, m);
    assert Mul(x, i, m) == 1 % m by {
      PowerOne(x, m);
      PowerIsExp(x, 1, q, m);
      ExpAdd(x, 1, -1, q, m);
      MulReduce(x, i, m);
      ModUnique(0, 0, 0, q);
    }
    InverseIs(x, i, m);
    if e >= 0 {
      PowerIsExp(x, e, q, m);
    } else {
      ExpMul(x, -1, -e, q, m);
      PowerIsExp(i, -e, q, m);
      assert -1 * -e == e;
    }
  }

  // ----- Inverses modulo a prime -----

  predicate Divides(d: nat, n: nat) requires d > 0 { n % d == 0 }

  ghost predicate IsPrime(q: nat) {
    q >= 2 && forall d :: 2 <= d < q ==> !Divides(d, q)
  }

  // a (-floor(q/a) y) = 1 whenever (q mod a) y = 1, all modulo q.
  function PrimeInverse(a: nat, q: nat): (x: int)
    requires IsPrime(q) && 0 < a < q
    ensures (a * x) % q == 1
    decreases a
  {
    if a == 1 then ModUnique(1, 0, 1, q); 1
    else
      assert !Divides(a, q);
      var r := q % a;
      assert 0 < r < a;
      var y := PrimeInverse(r, q);
      InverseStep(a, q, y);
      -(q / a) * y
  }

  lemma {:induction false} InverseStep(a: nat, q: nat, y: int)
    requires 0 < a < q && ((q % a) * y) % q == 1
    ensures (a * (-(q / a) * y)) % q == 1
  {
    var d, r := q / a, q % a;
    assert q == d * a + r;
    calc {
      a * (-d * y);
      -(d * a) * y;
      (r - q) * y;
      r * y + -y * q;
    }
    ModShift(r * y, -y, q);
  }

  // The inverse of any integer that q does not divide.
  function ScalarInverse(a: int, q: nat): (x: int)
    requires IsPrime(q) && a % q != 0
    ensures (a * x) % q == 1
  {
    var x := PrimeInverse(a % q, q);
    ModOfMod(a, q);
    ModMulCong(a % q, a, x, q);
    x
  }
}
