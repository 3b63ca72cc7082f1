/**
  Special soundness of the range proof: an explicit extractor.

  Two accepting transcripts with the same commitments and announcements but different
  challenges (a fork) determine openings of every bit commitment. From a forked compliance
  proof the extractor obtains an opening of the commitment that respects the limit, or
  else it computes the discrete logarithm of g to the base h.

  The verifier does not check that a commitment lies in the subgroup of order q. Modulo a
  safe prime p = 2q + 1 the extractor still opens it up to sign: squaring a verification
  equation moves it into the subgroup.
*/
module ZkpSoundness {
  import opened Wrappers
  import opened Arithmetic
  import opened ModularGroup
  import opened Transcript
  import opened ZkpCompliance
  import opened Fermat

  // (s - s') (c - c')^-1
  function SchnorrWitness(q: nat, c: int, s: int, c': int, s': int): int
    requires IsPrime(q) && (c - c') % q != 0
  {
    (s - s') * ScalarInverse(c - c', q)
  }

  // h^s = t x^c and h^s' = t x^c' give h^(s-s') = x^(c-c').
  lemma {:induction false} DivideTranscripts(gp: Params, x: int, t: int, c: int, s: int, c': int, s': int)
    requires Sound(gp) && HasOrder(x, gp.q, gp.p)
    requires Exp(gp.h, s, gp.q, gp.p) == Mul(t, Exp(x, c, gp.q, gp.p), gp.p)
    requires Exp(gp.h, s', gp.q, gp.p) == Mul(t, Exp(x, c', gp.q, gp.p), gp.p)
    ensures Exp(gp.h, s - s', gp.q, gp.p) == Exp(x, c - c', gp.q, gp.p)
  {
    hide Mul, Power, Exp;
    var p, q, h := gp.p, gp.q, gp.h;
    // h^s x^c' = t x^(c+c') = h^s' x^c
    MulAssoc(t, Exp(x, c, q, p), Exp(x, c', q, p), p);
    ExpAdd(x, c, c', q, p);
    MulAssoc(t, Exp(x, c', q, p), Exp(x, c, q, p), p);
    ExpAdd(x, c', c, q, p);
    assert Mul(Exp(h, s, q, p), Exp(x, c', q, p), p) == Mul(Exp(h, s', q, p), Exp(x, c, q, p), p);
    // multiply by h^-s' x^-c'
    var d := Mul(Exp(h, -s', q, p), Exp(x, -c', q, p), p);
    MulSwap(Exp(h, s, q, p), Exp(x, c', q, p), Exp(h, -s', q, p), Exp(x, -c', q, p), p);
    MulSwap(Exp(h, s', q, p), Exp(x, c, q, p), Exp(h, -s', q, p), Exp(x, -c', q, p), p);
    ExpAdd(h, s, -s', q, p);
    ExpAdd(x, c', -c', q, p);
    ExpAdd(h, s', -s', q, p);
    ExpAdd(x, c, -c', q, p);
    ExpZero(x, q, p);
    ExpZero(h, q, p);
    MulOne(Exp(h, s - s', q, p), p);
    MulOne(Exp(x, c - c', q, p), p);
  }

  lemma {:induction false} ExpZero(x: int, q: nat, m: nat)
    requires m > 0 && q > 0
    ensures Exp(x, 0, q, m) == 1 % m
  {
    ModUnique(0, 0, 0, q);
  }

  // y^e = x^d and d invertible give x = y^(e d^-1).
  lemma {:induction false} TakeRoot(x: int, y: int, d: int, e: int, q: nat, m: nat)
    requires m > 0 && IsPrime(q) && HasOrder(x, q, m) && HasOrder(y, q, m)
    requires d % q != 0 && Exp(y, e, q, m) == Exp(x, d, q, m)
    ensures x % m == Exp(y, e * ScalarInverse(d, q), q, m)
  {
    hide Mul, Power;
    var i := ScalarInverse(d, q);
    ExpMul(y, e, i, q, m);
    ExpMul(x, d, i, q, m);
    ModUnique(1, 0, 1, q);
    assert Exp(x, d * i, q, m) == Exp(x, 1, q, m);
    PowerIsExp(x, 1, q, m);
    PowerOne(x, m);
  }

  lemma {:induction false} SchnorrExtraction(gp: Params, x: int, t: int, c: int, s: int, c': int, s': int)
    requires Sound(gp) && HasOrder(x, gp.q, gp.p) && (c - c') % gp.q != 0
    requires Exp(gp.h, s, gp.q, gp.p) == Mul(t, Exp(x, c, gp.q, gp.p), gp.p)
    requires Exp(gp.h, s', gp.q, gp.p) == Mul(t, Exp(x, c', gp.q, gp.p), gp.p)
    ensures x % gp.p == Exp(gp.h, SchnorrWitness(gp.q, c, s, c', s'), gp.q, gp.p)
  {
    DivideTranscripts(gp, x, t, c, s, c', s');
    TakeRoot(x, gp.h, c - c', s - s', gp.q, gp.p);
  }

  // ----- One bit -----

  datatype Opening = Opening(bit: int, blind: int)

  // Same announcements, different challenges.
  ghost predicate Fork(q: nat, pf: BitProof, pf': BitProof)
    requires q > 0
  {
    pf.t0 == pf'.t0 && pf.t1 == pf'.t1 && (pf.c0 + pf.c1) % q != (pf'.c0 + pf'.c1) % q
  }

  lemma {:induction false} SomeBranchDiffers(q: nat, pf: BitProof, pf': BitProof)
    requires q > 0 && Fork(q, pf, pf')
    ensures (pf.c0 - pf'.c0) % q != 0 || (pf.c1 - pf'.c1) % q != 0
  {
    ModDiff(pf.c0, pf'.c0, q);
    ModDiff(pf.c1, pf'.c1, q);
    if pf.c0 % q == pf'.c0 % q && pf.c1 % q == pf'.c1 % q {
      ModAddCong(pf.c0, pf'.c0, pf.c1, q);
      ModAddCong(pf.c1, pf'.c1, pf'.c0, q);
      assert false;
    }
  }

  // Opens through a branch whose challenges differ.
  ghost function ExtractBit(q: nat, pf: BitProof, pf': BitProof): Opening
    requires IsPrime(q) && Fork(q, pf, pf')
  {
    SomeBranchDiffers(q, pf, pf');
    if (pf.c0 - pf'.c0) % q != 0
    then Opening(0, SchnorrWitness(q, pf.c0, pf.s0, pf'.c0, pf'.s0))
    else Opening(1, SchnorrWitness(q, pf.c1, pf.s1, pf'.c1, pf'.s1))
  }

  // ----- Outside the subgroup -----

  ghost predicate SafePrime(gp: Params) {
    IsPrime(gp.p) && gp.p == 2 * gp.q + 1
  }

  /** The source's generators, 4 and a power of it, satisfy the hypotheses once p and q are prime. */
  lemma {:induction false} SourceGroupIsSound(p: nat, q: nat, e: nat)
    requires IsPrime(p) && IsPrime(q) && p == 2 * q + 1 && q > 2
    ensures Sound(Group(p, q, 4, Power(4, e, p))) && SafePrime(Group(p, q, 4, Power(4, e, p)))
  {
    ModUnique(2, 0, 2, p);
    FermatLittle(p, 2);
    SquareOrder(2, q, p);
    ModUnique(4, 0, 4, p);
    assert Mul(2, 2, p) == 4;
    PowerMul(4, e, q, p);
    PowerMul(4, q, e, p);
    assert e * q == q * e;
    PowerUnit(e, p);
  }

  lemma {:induction false} SquareOrder(x: int, q: nat, m: nat)
    requires m > 0 && HasOrder(x, 2 * q, m)
    ensures HasOrder(Mul(x, x, m), q, m)
  {
    PowerProduct(x, x, q, m);
    PowerAdd(x, q, q, m);
  }

  lemma {:induction false} SquareExp(x: int, e: int, q: nat, m: nat)
    requires m > 0 && HasOrder(x, 2 * q, m)
    ensures HasOrder(Mul(x, x, m), q, m)
    ensures Mul(Exp(x, e, 2 * q, m), Exp(x, e, 2 * q, m), m) == Exp(Mul(x, x, m), e, q, m)
  {
    hide Mul, Power;
    var f := e % (2 * q);
    SquareOrder(x, q, m);
    PowerProduct(x, x, f, m);
    PowerIsExp(Mul(x, x, m), f, q, m);
    assert e == f + (2 * (e / (2 * q))) * q by {
      assert e == (e / (2 * q)) * (2 * q) + f;
    }
    ModShift(f, 2 * (e / (2 * q)), q);
  }

  // pow(h, s) = t pow(x, c), as the verifier checks it
  ghost predicate Equation(gp: Params, x: int, t: int, c: int, s: int) {
    && ModPow(gp.h, s, gp.p).Some? && ModPow(x, c, gp.p).Some?
    && ModPow(gp.h, s, gp.p).value == Mul(t, ModPow(x, c, gp.p).value, gp.p)
  }

  // An equation squared is one in the subgroup.
  lemma {:induction false} SquaredEquation(gp: Params, x: int, t: int, c: int, s: int)
    requires Sound(gp) && HasOrder(x, 2 * gp.q, gp.p) && Equation(gp, x, t, c, s)
    ensures HasOrder(Mul(x, x, gp.p), gp.q, gp.p)
    ensures Exp(gp.h, 2 * s, gp.q, gp.p) == Mul(Mul(t, t, gp.p), Exp(Mul(x, x, gp.p), c, gp.q, gp.p), gp.p)
  {
    hide Mul, Power, Exp, ModPow;
    var p, q := gp.p, gp.q;
    ModPowIsExp(gp.h, s, q, p);
    ModPowIsExp(x, c, 2 * q, p);
    ExpAdd(gp.h, s, s, q, p);
    SquareExp(x, c, q, p);
    MulSwap(t, Exp(x, c, 2 * q, p), t, Exp(x, c, 2 * q, p), p);
  }

  lemma {:induction false} MulZero(x: int, y: int, m: nat)
    requires m > 0 && x % m == 0
    ensures Mul(x, y, m) == 0 && Mul(y, x, m) == 0
  {
    MulReduce(x, y, m);
    MulComm(x, y, m);
    ModUnique(0, 0, 0, m);
    assert 0 * y == 0;
  }

  // Only the challenge 0 satisfies an equation for a multiple of p.
  lemma {:induction false} ZeroBase(gp: Params, x: int, t: int, c: int, s: int)
    requires Sound(gp) && x % gp.p == 0 && Equation(gp, x, t, c, s)
    ensures c == 0
  {
    hide Mul, Exp;
    var p, q := gp.p, gp.q;
    ModUnique(1, 0, 1, p);
    ModPowIsExp(gp.h, s, q, p);
    ExpAdd(gp.h, s, -s, q, p);
    ExpZero(gp.h, q, p);
    ModUnique(0, 0, 0, p);
    if c < 0 {
      MulZero(x, Inverse(x, p).value, p);
    } else if c > 0 {
      MulZero(x, Power(x, c - 1, p), p);
      MulZero(0, t, p);
      MulZero(0, Exp(gp.h, -s, q, p), p);
    }
  }

  // The two equations behind an accepting _verify_bit.
  lemma {:induction false} AcceptedEquations(gp: Params, hash: Hash, c: int, pf: BitProof, ctx: Context, i: nat)
    requires Sound(gp) && VerifyBit(gp, hash, c, pf, ctx, i) == Some(true)
    ensures Equation(gp, c, pf.t0, pf.c0, pf.s0)
    ensures Equation(gp, Mul(c, Rep(gp, -1, 0), gp.p), pf.t1, pf.c1, pf.s1)
  {
    hide Mul, Power, ModPow, Rep;
    RepInverseG(gp);
  }

  /** A commitment that p divides is accepted with zero challenges alone, so it never forks. */
  lemma {:induction false} ForkedIsNonZero(gp: Params, hash: Hash, hash': Hash, c: int,
                                           pf: BitProof, pf': BitProof, ctx: Context, i: nat)
    requires Sound(gp) && Fork(gp.q, pf, pf')
    requires VerifyBit(gp, hash, c, pf, ctx, i) == Some(true)
    requires VerifyBit(gp, hash', c, pf', ctx, i) == Some(true)
    ensures c % gp.p != 0
  {
    hide Mul, Rep, Equation, VerifyBit;
    AcceptedEquations(gp, hash, c, pf, ctx, i);
    AcceptedEquations(gp, hash', c, pf', ctx, i);
    if c % gp.p == 0 {
      var x := Mul(c, Rep(gp, -1, 0), gp.p);
      MulZero(c, Rep(gp, -1, 0), gp.p);
      ModUnique(0, 0, 0, gp.p);
      ZeroBase(gp, c, pf.t0, pf.c0, pf.s0);
      ZeroBase(gp, c, pf'.t0, pf'.c0, pf'.s0);
      ZeroBase(gp, x, pf.t1, pf.c1, pf.s1);
      ZeroBase(gp, x, pf'.t1, pf'.c1, pf'.s1);
    }
  }

  // c is g^a h^b or its negation modulo p, and the former if it lies in the subgroup.
  ghost predicate Opens(gp: Params, c: int, a: int, b: int) {
    && (c % gp.p == Rep(gp, a, b) || c % gp.p == gp.p - Rep(gp, a, b))
    && (HasOrder(c, gp.q, gp.p) ==> c % gp.p == Rep(gp, a, b))
  }

  // x^2 to the power (q+1)/2 is x, in the subgroup.
  lemma {:induction false} HalfOfSquare(gp: Params, x: int)
    requires Sound(gp) && HasOrder(x, gp.q, gp.p)
    ensures Power(Mul(x, x, gp.p), (gp.q + 1) / 2, gp.p) == x % gp.p
  {
    hide Mul, Power;
    var p, q := gp.p, gp.q;
    var n := (q + 1) / 2;
    assert !Divides(2, q);
    PowerProduct(x, x, n, p);
    PowerAdd(x, n, n, p);
    PowerAdd(x, q, 1, p);
    PowerOne(x, p);
    MulOne(x % p, p);
  }

  /** In the subgroup a commitment is determined by its square. */
  lemma {:induction false} Halve(gp: Params, a: int, b: int, a': int, b': int)
    requires Sound(gp) && Rep(gp, 2 * a, 2 * b) == Rep(gp, 2 * a', 2 * b')
    ensures Rep(gp, a, b) == Rep(gp, a', b')
  {
    hide Mul, Power, Rep;
    var x, x' := Rep(gp, a, b), Rep(gp, a', b');
    RepMul(gp, a, b, a, b);
    RepMul(gp, a', b', a', b');
    RepExp(gp, a, b, 0);
    RepExp(gp, a', b', 0);
    HalfOfSquare(gp, x);
    HalfOfSquare(gp, x');
    ModUnique(x, 0, x, gp.p);
    ModUnique(x', 0, x', gp.p);
  }

  lemma {:induction false} RepNonZero(gp: Params, a: int, b: int)
    requires Sound(gp)
    ensures Rep(gp, a, b) > 0
  {
    hide Mul, Power, Rep;
    RepMul(gp, a, b, -a, -b);
    RepG(gp, 0);
    PowerZero(gp.g, gp.p);
    ModUnique(1, 0, 1, gp.p);
    if Rep(gp, a, b) == 0 {
      ModUnique(0, 0, 0, gp.p);
      MulZero(0, Rep(gp, -a, -b), gp.p);
    }
  }

  lemma {:induction false} NegatedSquare(c: int, r: nat, m: nat)
    requires 0 < r < m && c % m == m - r
    ensures Mul(c, c, m) == Mul(r, r, m)
  {
    MulReduce(c, c, m);
    MulReduce(c % m, c, m);
    ComplementSquare(r, m);
    ModShift(r * r, m - 2 * r, m);
  }

  lemma {:induction false} ComplementSquare(r: int, m: int)
    ensures (m - r) * (m - r) == r * r + (m - 2 * r) * m
  {
  }

  /** Opening a commitment is opening its square. */
  lemma {:induction false} OpensBySquare(gp: Params, c: int, a: int, b: int)
    requires Sound(gp) && SafePrime(gp)
    ensures Opens(gp, c, a, b) <==> Mul(c, c, gp.p) == Rep(gp, 2 * a, 2 * b)
  {
    hide Power, Rep, Mul;
    var p: int, r: int := gp.p, Rep(gp, a, b);
    RepMul(gp, a, b, a, b);
    RepNonZero(gp, a, b);
    ModUnique(r, 0, r, p);
    ModUnique(0 - r, -1, p - r, p);
    if Mul(c, c, p) == Mul(r, r, p) {
      RootsUpToSign(p, c, r);
      if HasOrder(c, gp.q, p) {
        RepExp(gp, a, b, 0);
        HalfOfSquare(gp, c);
        HalfOfSquare(gp, r);
      }
    } else {
      if c % p == r {
        MulReduce(c, c, p);
        MulReduce(c % p, c, p);
      }
      if c % p == p - r {
        NegatedSquare(c, r, p);
      }
    }
  }

  lemma {:induction false} OrderDoubles(x: int, q: nat, m: nat)
    requires m > 0 && HasOrder(x, q, m)
    ensures HasOrder(x, 2 * q, m)
  {
    PowerAdd(x, q, q, m);
    MulOne(1 % m, m);
  }

  lemma {:induction false} DoubledWitness(q: nat, c: int, s: int, c': int, s': int)
    requires IsPrime(q) && (c - c') % q != 0
    ensures SchnorrWitness(q, c, 2 * s, c', 2 * s') == 2 * SchnorrWitness(q, c, s, c', s')
  {
    var x := ScalarInverse(c - c', q);
    assert (2 * s - 2 * s') * x == 2 * ((s - s') * x);
  }

  // Two equations with different challenges open the square of x.
  lemma {:induction false} SquareExtraction(gp: Params, x: int, t: int, c: int, s: int, c': int, s': int)
    requires Sound(gp) && HasOrder(x, 2 * gp.q, gp.p) && (c - c') % gp.q != 0
    requires Equation(gp, x, t, c, s) && Equation(gp, x, t, c', s')
    ensures Mul(x, x, gp.p) == Rep(gp, 0, 2 * SchnorrWitness(gp.q, c, s, c', s'))
  {
    hide Mul, Power, Exp, Equation, SchnorrWitness;
    var p, q := gp.p, gp.q;
    var y := Mul(x, x, p);
    SquaredEquation(gp, x, t, c, s);
    SquaredEquation(gp, x, t, c', s');
    SchnorrExtraction(gp, y, Mul(t, t, p), c, 2 * s, c', 2 * s');
    DoubledWitness(q, c, s, c', s');
    ModUnique(y, 0, y, p);
    var w := 2 * SchnorrWitness(q, c, s, c', s');
    ExpZero(gp.g, q, p);
    MulOne(Exp(gp.h, w, q, p), p);
  }

  lemma {:induction false} ShiftedOrder(gp: Params, c: int)
    requires Sound(gp) && HasOrder(c, 2 * gp.q, gp.p)
    ensures HasOrder(Mul(c, Rep(gp, -1, 0), gp.p), 2 * gp.q, gp.p)
  {
    hide Mul, Power, Rep;
    RepExp(gp, -1, 0, 0);
    OrderDoubles(Rep(gp, -1, 0), gp.q, gp.p);
    PowerProduct(c, Rep(gp, -1, 0), 2 * gp.q, gp.p);
    MulOne(1 % gp.p, gp.p);
  }

  /** A fork of the OR proof opens the commitment as h^r or g h^r, with the extracted r. */
  lemma {:induction false} BitExtraction(gp: Params, hash: Hash, hash': Hash, c: int,
                                         pf: BitProof, pf': BitProof, ctx: Context, i: nat)
    requires Sound(gp) && SafePrime(gp)
    requires VerifyBit(gp, hash, c, pf, ctx, i) == Some(true)
    requires VerifyBit(gp, hash', c, pf', ctx, i) == Some(true)
    requires Fork(gp.q, pf, pf')
    ensures var o := ExtractBit(gp.q, pf, pf');
      (o.bit == 0 || o.bit == 1) && Opens(gp, c, o.bit, o.blind)
  {
    hide Mul, Power, Exp, VerifyBit, Rep, Equation, Opens, SchnorrWitness;
    var p, q := gp.p, gp.q;
    AcceptedEquations(gp, hash, c, pf, ctx, i);
    AcceptedEquations(gp, hash', c, pf', ctx, i);
    ForkedIsNonZero(gp, hash, hash', c, pf, pf', ctx, i);
    FermatLittle(p, c);
    SomeBranchDiffers(q, pf, pf');
    var o := ExtractBit(q, pf, pf');
    OpensBySquare(gp, c, o.bit, o.blind);
    if (pf.c0 - pf'.c0) % q != 0 {
      SquareExtraction(gp, c, pf.t0, pf.c0, pf.s0, pf'.c0, pf'.s0);
    } else {
      var x := Mul(c, Rep(gp, -1, 0), p);
      ShiftedOrder(gp, c);
      SquareExtraction(gp, x, pf.t1, pf.c1, pf.s1, pf'.c1, pf'.s1);
      MulSwap(c, Rep(gp, -1, 0), c, Rep(gp, -1, 0), p);
      RepMul(gp, -1, 0, -1, 0);
      UndoDivision(gp, Mul(c, c, p), 2, 2 * o.blind);
      ModUnique(Mul(c, c, p), 0, Mul(c, c, p), p);
    }
  }

  lemma {:induction false} UndoDivision(gp: Params, c: int, a: int, w: int)
    requires Sound(gp) && Mul(c, Rep(gp, -a, 0), gp.p) == Rep(gp, 0, w)
    ensures c % gp.p == Rep(gp, a, w)
  {
    hide Mul, Power, Exp, Rep;
    RepMul(gp, 0, w, a, 0);
    MulAssoc(c, Rep(gp, -a, 0), Rep(gp, a, 0), gp.p);
    RepMul(gp, -a, 0, a, 0);
    RepG(gp, 0);
    PowerZero(gp.g, gp.p);
    MulReduce(c, 1 % gp.p, gp.p);
    MulOne(c % gp.p, gp.p);
  }

  lemma {:induction false} PowerZero(b: int, m: nat)
    requires m > 0
    ensures Power(b, 0, m) == 1 % m
  {
  }

  /** An opened commitment equals its opening, sign included, if and only if it lies in the subgroup. */
  lemma {:induction false} ExactIffInSubgroup(gp: Params, c: int, a: int, b: int)
    requires Sound(gp) && Opens(gp, c, a, b)
    ensures c % gp.p == Rep(gp, a, b) <==> HasOrder(c, gp.q, gp.p)
  {
    hide Power, Rep;
    RepExp(gp, a, b, 0);
    PowerReduce(c, gp.q, gp.p);
  }

  // (p - x)^n = x^n for even n
  lemma {:induction false} EvenPowerOfNegation(x: nat, n: nat, p: nat)
    requires 0 < x < p && n % 2 == 0
    ensures Power(p - x, n, p) == Power(x, n, p)
  {
    hide Power, Mul;
    var k := n / 2;
    assert n == k + k;
    ModUnique(p - x, 0, p - x, p);
    NegatedSquare(p - x, x, p);
    PowerAdd(p - x, k, k, p);
    PowerAdd(x, k, k, p);
    PowerProduct(p - x, p - x, k, p);
    PowerProduct(x, x, k, p);
  }

  // The challenge, made even by adding the odd q.
  function EvenChallenge(n: nat, q: nat): nat {
    if n % 2 == 0 then n else n + q
  }

  // An accepted proof for the negation of h^r, from any w and s1.
  ghost function NegatedProof(gp: Params, hash: Hash, r: int, w: nat, s1: nat, ctx: Context, i: nat): BitProof {
    var t0, t1 := Power(gp.h, w, gp.p), Power(gp.h, s1, gp.p);
    var c0 := EvenChallenge(Challenge(gp, hash, ctx, i, Negated(gp, r), t0, t1), gp.q);
    BitProof(t0, t1, c0, 0, w + c0 * r, s1)
  }

  ghost function Negated(gp: Params, r: int): nat {
    gp.p - Rep(gp, 0, r)
  }

  /**
    The sign alternative is not empty: for every hash and every r the verifier accepts the
    negation of h^r, which opens as h^r up to sign and lies outside the subgroup.
  */
  lemma {:induction false} NegationIsAccepted(gp: Params, hash: Hash, r: int, w: nat, s1: nat, ctx: Context, i: nat)
    requires Sound(gp) && SafePrime(gp)
    ensures VerifyBit(gp, hash, Negated(gp, r), NegatedProof(gp, hash, r, w, s1, ctx, i), ctx, i) == Some(true)
    ensures Opens(gp, Negated(gp, r), 0, r) && !HasOrder(Negated(gp, r), gp.q, gp.p)
  {
    hide Mul, Power, Exp, Rep, Challenge, ModPow, Opens, VerifyBit;
    var p, q, c, x := gp.p, gp.q, Negated(gp, r), Rep(gp, 0, r);
    RepNonZero(gp, 0, r);
    ModUnique(c, 0, c, p);
    NegatedSquare(c, x, p);
    RepMul(gp, 0, r, 0, r);
    OpensBySquare(gp, c, 0, r);
    assert c != x;
    assert !HasOrder(c, q, p) by { ExactIffInSubgroup(gp, c, 0, r); }
    NegatedEquations(gp, hash, r, w, s1, ctx, i);
    RepInverseG(gp);
    assert VerifyBit(gp, hash, c, NegatedProof(gp, hash, r, w, s1, ctx, i), ctx, i) == Some(true) by {
      VerifyFromEquations(gp, hash, c, NegatedProof(gp, hash, r, w, s1, ctx, i), ctx, i);
    }
  }

  lemma {:induction false} VerifyFromEquations(gp: Params, hash: Hash, c: int, pf: BitProof, ctx: Context, i: nat)
    requires Sound(gp) && c >= 0 && pf.t0 >= 0 && pf.t1 >= 0
    requires (pf.c0 + pf.c1) % gp.q == Challenge(gp, hash, ctx, i, c, pf.t0, pf.t1)
    requires Equation(gp, c, pf.t0, pf.c0, pf.s0)
    requires Equation(gp, Mul(c, Rep(gp, -1, 0), gp.p), pf.t1, pf.c1, pf.s1)
    ensures VerifyBit(gp, hash, c, pf, ctx, i) == Some(true)
  {
    hide Mul, Power, ModPow, Rep;
    RepInverseG(gp);
  }

  /** Acceptance of a bit proof, in full: the challenges add up to the hash, and both equations hold. */
  lemma {:induction false} VerifyBitIff(gp: Params, hash: Hash, c: int, pf: BitProof, ctx: Context, i: nat)
    requires Sound(gp)
    ensures VerifyBit(gp, hash, c, pf, ctx, i) == Some(true) <==>
      && c >= 0 && pf.t0 >= 0 && pf.t1 >= 0
      && (pf.c0 + pf.c1) % gp.q == Challenge(gp, hash, ctx, i, c, pf.t0, pf.t1)
      && Equation(gp, c, pf.t0, pf.c0, pf.s0)
      && Equation(gp, Mul(c, Rep(gp, -1, 0), gp.p), pf.t1, pf.c1, pf.s1)
  {
    hide Mul, Power, ModPow, Rep;
    RepInverseG(gp);
  }

  lemma {:induction false} NegatedEquations(gp: Params, hash: Hash, r: int, w: nat, s1: nat, ctx: Context, i: nat)
    requires Sound(gp)
    ensures var pf := NegatedProof(gp, hash, r, w, s1, ctx, i);
      && (pf.c0 + pf.c1) % gp.q == Challenge(gp, hash, ctx, i, Negated(gp, r), pf.t0, pf.t1)
      && Equation(gp, Negated(gp, r), pf.t0, pf.c0, pf.s0)
      && Equation(gp, Mul(Negated(gp, r), Rep(gp, -1, 0), gp.p), pf.t1, pf.c1, pf.s1)
  {
    hide Mul, Power, Exp, Rep, Equation, Challenge, Negated;
    var pf := NegatedProof(gp, hash, r, w, s1, ctx, i);
    EvenChallengeFits(gp, Challenge(gp, hash, ctx, i, Negated(gp, r), pf.t0, pf.t1));
    EvenEquation(gp, r, w, pf.c0);
    ZeroEquation(gp, Mul(Negated(gp, r), Rep(gp, -1, 0), gp.p), s1);
  }

  lemma {:induction false} EvenChallengeFits(gp: Params, n: nat)
    requires IsPrime(gp.q) && n < gp.q
    ensures var c0 := EvenChallenge(n, gp.q); c0 % 2 == 0 && c0 % gp.q == n
  {
    assert !Divides(2, gp.q);
    ModUnique(n, 0, n, gp.q);
    ModShift(n, 1, gp.q);
  }

  // h^(w + c r) = h^w (-h^r)^c for even c
  lemma {:induction false} EvenEquation(gp: Params, r: int, w: nat, c: nat)
    requires Sound(gp) && c % 2 == 0
    ensures Equation(gp, Negated(gp, r), Power(gp.h, w, gp.p), c, w + c * r)
  {
    hide Mul, Power, Exp, Rep;
    RepNonZero(gp, 0, r);
    EvenPowerOfNegation(Rep(gp, 0, r), c, gp.p);
    RepPow(gp, 0, r, c);
    RepH(gp, w);
    RepMul(gp, 0, w, 0, r * c);
    assert w + c * r == w + r * c;
    ModPowOfH(gp, w + r * c);
  }

  // h^s = h^s y^0
  lemma {:induction false} ZeroEquation(gp: Params, y: int, s: nat)
    ensures Equation(gp, y, Power(gp.h, s, gp.p), 0, s)
  {
    hide Mul;
    PowerZero(y, gp.p);
    MulOne(Power(gp.h, s, gp.p), gp.p);
  }

  lemma {:induction false} ModPowOfH(gp: Params, s: int)
    requires Sound(gp)
    ensures ModPow(gp.h, s, gp.p) == Some(Rep(gp, 0, s))
  {
    ModPowIsExp(gp.h, s, gp.q, gp.p);
    ExpZero(gp.g, gp.q, gp.p);
    MulOne(Exp(gp.h, s, gp.q, gp.p), gp.p);
  }

  /**
    Rewinding an honest prover: the same draws under two hashes give a fork, and the
    extractor returns the prover's own bit and its blinding modulo q.
  */
  lemma {:induction false} ExtractionRecoversWitness(gp: Params, hash: Hash, hash': Hash, bit: int, r: nat,
                                                     ctx: Context, i: nat, coins: Coins)
    requires Sound(gp) && (bit == 0 || bit == 1)
    requires var c_b := Pedersen(gp, bit, r);
      var t := Announcements(gp, c_b, bit, coins);
      t.Some? ==>
        var (t0, t1) := t.value;
        Challenge(gp, hash, ctx, i, c_b, t0, t1) != Challenge(gp, hash', ctx, i, c_b, t0, t1)
    ensures ProveBit(gp, hash, bit, r, ctx, i, coins).Some? && ProveBit(gp, hash', bit, r, ctx, i, coins).Some?
    ensures var pf := ProveBit(gp, hash, bit, r, ctx, i, coins).value;
      var pf' := ProveBit(gp, hash', bit, r, ctx, i, coins).value;
      && Fork(gp.q, pf, pf')
      && ExtractBit(gp.q, pf, pf').bit == bit
      && ExtractBit(gp.q, pf, pf').blind % gp.q == r % gp.q
  {
    hide Mul, Power, Rep, Pedersen, Announcements, Challenge, ScalarInverse;
    AnnouncementsFit(gp, hash, bit, r, ctx, i, coins);
    AnnouncementsFit(gp, hash', bit, r, ctx, i, coins);
    var pf := ProveBit(gp, hash, bit, r, ctx, i, coins).value;
    var pf' := ProveBit(gp, hash', bit, r, ctx, i, coins).value;
    assert pf.t0 == pf'.t0 && pf.t1 == pf'.t1;
    assert Fork(gp.q, pf, pf');
    SomeBranchDiffers(gp.q, pf, pf');
    ModUnique(0, 0, 0, gp.q);
    if bit == 0 {
      assert pf.c1 == pf'.c1;
      ResponsesRecover(gp.q, coins.w, r, pf.c0, pf'.c0);
    } else {
      assert pf.c0 == pf'.c0;
      ResponsesRecover(gp.q, coins.w, r, pf.c1, pf'.c1);
    }
  }

  lemma {:induction false} ResponsesRecover(q: nat, w: nat, r: nat, c: int, c': int)
    requires IsPrime(q) && (c - c') % q != 0
    ensures SchnorrWitness(q, c, (w + c * r) % q, c', (w + c' * r) % q) % q == r % q
  {
    var s, s' := (w + c * r) % q, (w + c' * r) % q;
    var x := ScalarInverse(c - c', q);
    RemaindersDiffer(w + c * r, w + c' * r, q);
    DifferenceTimes(w, r, c, c');
    ModMulCong(s - s', (c - c') * r, x, q);
    Reorder(c - c', r, x);
    ModUnique(1, 0, 1, q);
    ModMulCong((c - c') * x, 1, r, q);
  }

  lemma {:induction false} RemaindersDiffer(a: int, b: int, q: nat)
    requires q > 0
    ensures (a % q - b % q) % q == (a - b) % q
  {
    ModOfMod(a, q);
    ModOfMod(b, q);
    ModAddCong(a % q, a, -(b % q), q);
    ModDiff(b, b % q, q);
    ModDiff(a - b % q, a - b, q);
  }

  lemma {:induction false} DifferenceTimes(w: int, r: int, c: int, c': int)
    ensures (w + c * r) - (w + c' * r) == (c - c') * r
  {
  }

  lemma {:induction false} Reorder(d: int, r: int, x: int)
    ensures d * r * x == (d * x) * r
  {
  }

  /** The hypotheses on the group are met, for instance, by the squares modulo 7. */
  lemma {:induction false} SmallGroupIsSound()
    ensures Sound(Group(7, 3, 2, 4)) && SafePrime(Group(7, 3, 2, 4))
  {
    assert IsPrime(3) by { assert 3 % 2 == 1; }
    assert IsPrime(7) by { assert 7 % 2 == 1 && 7 % 3 == 1 && 7 % 4 == 3 && 7 % 5 == 2 && 7 % 6 == 1; }
    assert Power(2, 1, 7) == 2 && Power(2, 2, 7) == 4 && Power(2, 3, 7) == 1;
    assert Power(4, 1, 7) == 4 && Power(4, 2, 7) == 2 && Power(4, 3, 7) == 1;
  }

  // ----- Range proofs -----

  // The same commitments, with bit proofs that fork at every bit.
  ghost predicate RangeFork(gp: Params, rp: RangeProof, rp': RangeProof) {
    && |rp.bitProofs| == |rp'.bitProofs|
    && rp.bitCommitments == rp'.bitCommitments
    && (forall i :: 0 <= i < |rp.bitProofs| ==> Fork(gp.q, rp.bitProofs[i], rp'.bitProofs[i]))
  }

  ghost function ExtractBits(gp: Params, rp: RangeProof, rp': RangeProof): seq<Opening>
    requires IsPrime(gp.q) && RangeFork(gp, rp, rp')
  {
    seq(|rp.bitProofs|, i requires 0 <= i < |rp.bitProofs| => ExtractBit(gp.q, rp.bitProofs[i], rp'.bitProofs[i]))
  }

  ghost function BitsOf(os: seq<Opening>): seq<int> { seq(|os|, i requires 0 <= i < |os| => os[i].bit) }

  ghost function BlindsOf(os: seq<Opening>): seq<int> { seq(|os|, i requires 0 <= i < |os| => os[i].blind) }

  // The value and the blinding that the extractor reads off a forked range proof.
  ghost function ExtractRange(gp: Params, rp: RangeProof, rp': RangeProof): (int, int)
    requires IsPrime(gp.q) && RangeFork(gp, rp, rp')
  {
    var os := ExtractBits(gp, rp, rp');
    (WeightedSum(BitsOf(os), |os|), WeightedSum(BlindsOf(os), |os|))
  }

  ghost function Squares(gp: Params, cs: seq<int>): seq<int> {
    seq(|cs|, i requires 0 <= i < |cs| => Mul(cs[i], cs[i], gp.p))
  }

  ghost function Doubled(xs: seq<int>): seq<int> { seq(|xs|, i requires 0 <= i < |xs| => 2 * xs[i]) }

  lemma {:induction false} ReconstructSquares(gp: Params, cs: seq<int>, n: nat)
    requires n <= |cs|
    ensures Reconstruct(gp, Squares(gp, cs), n) == Mul(Reconstruct(gp, cs, n), Reconstruct(gp, cs, n), gp.p)
  {
    hide Mul, Power, Pow2;
    if n == 0 {
      ModUnique(1, 0, 1, gp.p);
      MulOne(1, gp.p);
    } else {
      ReconstructSquares(gp, cs, n - 1);
      var e := Pow2(n - 1);
      PowerProduct(cs[n - 1], cs[n - 1], e, gp.p);
      var r, x := Reconstruct(gp, cs, n - 1), Power(cs[n - 1], e, gp.p);
      MulSwap(r, r, x, x, gp.p);
    }
  }

  lemma {:induction false} DoubledSum(xs: seq<int>, n: nat)
    requires n <= |xs|
    ensures WeightedSum(Doubled(xs), n) == 2 * WeightedSum(xs, n)
  {
    hide Pow2;
    if n > 0 {
      DoubledSum(xs, n - 1);
      assert (2 * xs[n - 1]) * Pow2(n - 1) == 2 * (xs[n - 1] * Pow2(n - 1));
    }
  }

  // Bit commitments opened up to sign reconstruct to one opened up to sign.
  lemma {:induction false} ReconstructOpens(gp: Params, cs: seq<int>, bits: seq<int>, blinds: seq<int>)
    requires Sound(gp) && SafePrime(gp) && |cs| == |bits| == |blinds|
    requires forall i :: 0 <= i < |cs| ==> Opens(gp, cs[i], bits[i], blinds[i])
    ensures Opens(gp, Reconstruct(gp, cs, |cs|), WeightedSum(bits, |cs|), WeightedSum(blinds, |cs|))
  {
    hide Mul, Power, Rep, Opens, Pow2, Reconstruct, WeightedSum;
    var k := |cs|;
    var squares := Squares(gp, cs);
    forall i | 0 <= i < k ensures squares[i] % gp.p == Rep(gp, Doubled(bits)[i], Doubled(blinds)[i]) {
      OpensBySquare(gp, cs[i], bits[i], blinds[i]);
      ModUnique(squares[i], 0, squares[i], gp.p);
    }
    ReconstructOpening(gp, squares, Doubled(bits), Doubled(blinds), k);
    ReconstructSquares(gp, cs, k);
    DoubledSum(bits, k);
    DoubledSum(blinds, k);
    OpensBySquare(gp, Reconstruct(gp, cs, k), WeightedSum(bits, k), WeightedSum(blinds, k));
  }

  lemma {:induction false} OpensCongruent(gp: Params, c: int, c': int, a: int, b: int)
    requires Sound(gp) && SafePrime(gp) && c % gp.p == c' % gp.p && Opens(gp, c, a, b)
    ensures Opens(gp, c', a, b)
  {
    hide Mul, Power, Rep, Opens;
    OpensBySquare(gp, c, a, b);
    OpensBySquare(gp, c', a, b);
    MulReduce(c, c, gp.p);
    MulReduce(c % gp.p, c, gp.p);
    MulReduce(c', c', gp.p);
    MulReduce(c' % gp.p, c', gp.p);
  }

  /** A forked range proof opens the commitment to a value below 2^k. */
  lemma {:induction false} RangeExtraction(gp: Params, hash: Hash, hash': Hash, c: int,
                                           rp: RangeProof, rp': RangeProof, k: nat, ctx: Context)
    requires Sound(gp) && SafePrime(gp) && RangeFork(gp, rp, rp')
    requires LtPow2Accepts(gp, hash, c, rp, k, ctx) == Some(true)
    requires LtPow2Accepts(gp, hash', c, rp', k, ctx) == Some(true)
    ensures var (v, r) := ExtractRange(gp, rp, rp');
      0 <= v < Pow2(k) && Opens(gp, c, v, r)
  {
    hide VerifyBit, ExtractBit, Rep, Power, Mul, Opens, Reconstruct, SafePrime;
    assert |rp.bitProofs| == |rp.bitCommitments| == k;
    var os := ExtractBits(gp, rp, rp');
    var bits, blinds := BitsOf(os), BlindsOf(os);
    AllBitsVerify(gp, hash, rp, ctx, 0);
    AllBitsVerify(gp, hash', rp', ctx, 0);
    forall i | 0 <= i < k
      ensures (bits[i] == 0 || bits[i] == 1) && Opens(gp, rp.bitCommitments[i], bits[i], blinds[i])
    {
      assert Fork(gp.q, rp.bitProofs[i], rp'.bitProofs[i]);
      BitExtraction(gp, hash, hash', rp.bitCommitments[i], rp.bitProofs[i], rp'.bitProofs[i], ctx, i);
    }
    WeightedBitsBound(bits, k);
    ReconstructOpens(gp, rp.bitCommitments, bits, blinds);
    var product := Reconstruct(gp, rp.bitCommitments, k);
    ModOfMod(c, gp.p);
    OpensCongruent(gp, product, c, WeightedSum(bits, k), WeightedSum(blinds, k));
  }

  // ----- The compliance proof -----

  // 2^k - 1 - limit for the bit length k of the limit
  function Shift(maxLimit: nat): nat {
    if maxLimit == 0 then 0 else BitLengthBounds(maxLimit); Pow2(BitLength(maxLimit)) - 1 - maxLimit
  }

  // (r' - r) (v + shift - u)^-1
  ghost function LogOfG(q: nat, r: int, r': int, difference: int): int
    requires IsPrime(q) && difference % q != 0
  {
    (r' - r) * ScalarInverse(difference, q)
  }

  // Two openings of one commitment with different values reveal the logarithm of g to base h.
  lemma {:induction false} DoubleOpening(gp: Params, v: int, r: int, v': int, r': int)
    requires Sound(gp) && Rep(gp, v, r) == Rep(gp, v', r') && (v - v') % gp.q != 0
    ensures gp.g % gp.p == Exp(gp.h, LogOfG(gp.q, r, r', v - v'), gp.q, gp.p)
  {
    hide Mul, Power, Exp;
    var p, q := gp.p, gp.q;
    RepMul(gp, v, r, -v', -r);
    RepMul(gp, v', r', -v', -r);
    assert Rep(gp, v - v', 0) == Rep(gp, 0, r' - r);
    ExpZero(gp.h, q, p);
    ExpZero(gp.g, q, p);
    MulOne(Exp(gp.g, v - v', q, p), p);
    MulOne(Exp(gp.h, r' - r, q, p), p);
    TakeRoot(gp.g, gp.h, v - v', r' - r, q, p);
  }

  // Two openings, of c and of c g^shift, made comparable.
  lemma {:induction false} ShiftedOpenings(gp: Params, c: int, shift: nat, v: int, r: int, u: int, r': int)
    requires Sound(gp) && SafePrime(gp)
    requires Opens(gp, c, v, r) && Opens(gp, Mul(c, Power(gp.g, shift, gp.p), gp.p), u, r')
    ensures Rep(gp, v + shift, r) == Rep(gp, u, r')
  {
    hide Mul, Power, Rep, Opens;
    var x := Power(gp.g, shift, gp.p);
    var cu := Mul(c, x, gp.p);
    OpensBySquare(gp, c, v, r);
    OpensBySquare(gp, cu, u, r');
    MulSwap(c, x, c, x, gp.p);
    RepG(gp, shift);
    RepMul(gp, shift, 0, shift, 0);
    RepMul(gp, 2 * v, 2 * r, shift + shift, 0);
    assert 2 * v + (shift + shift) == 2 * (v + shift);
    Halve(gp, v + shift, r, u, r');
  }

  /**
    Extraction for the whole proof. The amount opened is within the limit, or the
    extractor has computed the discrete logarithm of g to the base h. Where that logarithm
    is hard to find the limit holds; the source's h is a public power of g, and then the
    second alternative is there for the taking (`ZkpBinding.LogIsPublic`).
  */
  lemma {:induction false} ComplianceExtraction(gp: Params, hash: Hash, hash': Hash, c: int, maxLimit: int,
                                                pf: ComplianceProof, pf': ComplianceProof)
    requires Sound(gp) && SafePrime(gp)
    requires VerifyCompliance(gp, hash, c, maxLimit, pf) == Some(true)
    requires VerifyCompliance(gp, hash', c, maxLimit, pf') == Some(true)
    requires RangeFork(gp, pf.amountRange, pf'.amountRange) && RangeFork(gp, pf.upperRange, pf'.upperRange)
    requires maxLimit > 0 && Pow2(BitLength(maxLimit) + 1) <= gp.q
    ensures var (v, r) := ExtractRange(gp, pf.amountRange, pf'.amountRange);
      var (u, r') := ExtractRange(gp, pf.upperRange, pf'.upperRange);
      var difference := v + Shift(maxLimit) - u;
      && Opens(gp, c, v, r)
      && 0 <= v
      && (if difference % gp.q == 0 then v <= maxLimit
          else gp.g % gp.p == Exp(gp.h, LogOfG(gp.q, r, r', difference), gp.q, gp.p))
  {
    hide Mul, Power, Exp, Rep, LtPow2Accepts, RangeFork, ExtractRange, ScalarInverse, Pow2, Opens, SafePrime;
    var k, shift := BitLength(maxLimit), Shift(maxLimit);
    BitLengthBounds(maxLimit);
    var cu := Mul(c, Power(gp.g, shift, gp.p), gp.p);
    RangeExtraction(gp, hash, hash', c, pf.amountRange, pf'.amountRange, k, AmountContext);
    RangeExtraction(gp, hash, hash', cu, pf.upperRange, pf'.upperRange, k, UpperContext);
    var (v, r) := ExtractRange(gp, pf.amountRange, pf'.amountRange);
    var (u, r') := ExtractRange(gp, pf.upperRange, pf'.upperRange);
    ShiftedOpenings(gp, c, shift, v, r, u, r');
    if (v + shift - u) % gp.q == 0 {
      LimitArithmetic(gp.q, k, maxLimit, v, u);
    } else {
      DoubleOpening(gp, v + shift, r, u, r');
    }
  }

  /** The borrow-free subtraction: u = v + (2^k - 1 - limit) modulo q with both below 2^k bounds v by the limit. */
  lemma {:induction false} LimitArithmetic(q: nat, k: nat, maxLimit: int, v: int, u: int)
    requires Pow2(k + 1) <= q && 0 <= v < Pow2(k) && 0 <= u < Pow2(k) && 0 <= maxLimit < Pow2(k)
    requires (v + (Pow2(k) - 1 - maxLimit) - u) % q == 0
    ensures u == v + (Pow2(k) - 1 - maxLimit) && v <= maxLimit
  {
    var d := v + (Pow2(k) - 1 - maxLimit) - u;
    assert Pow2(k + 1) == 2 * Pow2(k);
    assert d == (d / q) * q;
    SmallMultiple(d / q, q);
  }
}
