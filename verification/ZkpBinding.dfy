/**
  Whether commitments are binding when h is a known power of g.

  services/python-analytics/app/zkp_compliance.py:65-69 computes h = g^e from a public e. The
  logarithm that the second alternative of `ComplianceExtraction` speaks of is then the
  inverse of e modulo q, which anyone can compute. This module says what that means: the
  exact condition on e for binding, and what an accepted proof then says about the amount.
*/
module ZkpBinding {
  import opened Wrappers
  import opened Arithmetic
  import opened ModularGroup
  import opened Transcript
  import opened ZkpCompliance
  import opened ZkpSoundness

  // h is the e-th power of g.
  ghost predicate PowerOfG(gp: Params, e: nat) {
    gp.h == Power(gp.g, e, gp.p)
  }

  lemma {:induction false} RepInG(gp: Params, e: nat, a: int, b: int)
    requires Sound(gp) && PowerOfG(gp, e)
    ensures Rep(gp, a, b) == Exp(gp.g, a + e * b, gp.q, gp.p)
  {
    hide Mul, Power, Exp;
    PowerIsExp(gp.g, e, gp.q, gp.p);
    ExpMul(gp.g, e, b, gp.q, gp.p);
    ExpAdd(gp.g, a, e * b, gp.q, gp.p);
  }

  lemma {:induction false} ExpCong(x: int, e: int, f: int, q: nat, m: nat)
    requires m > 0 && q > 0 && e % q == f % q
    ensures Exp(x, e, q, m) == Exp(x, f, q, m)
  {
  }

  /** The logarithm of g to the base h is the inverse of e. */
  lemma {:induction false} LogIsPublic(gp: Params, e: nat)
    requires Sound(gp) && PowerOfG(gp, e) && e % gp.q != 0
    ensures gp.g % gp.p == Exp(gp.h, ScalarInverse(e, gp.q), gp.q, gp.p)
  {
    hide Mul, Power;
    PowerIsExp(gp.g, e, gp.q, gp.p);
    PowerReduce(gp.h, gp.q, gp.p);
    ModUnique(1, 0, 1, gp.q);
    PowerIsExp(gp.h, 1, gp.q, gp.p);
    PowerOne(gp.h, gp.p);
    ModUnique(gp.h, 0, gp.h, gp.p);
    TakeRoot(gp.g, gp.h, e, 1, gp.q, gp.p);
    assert 1 * ScalarInverse(e, gp.q) == ScalarInverse(e, gp.q);
  }

  // The blinding under which a commitment to a with blinding b is one to a'.
  function Reblinded(q: nat, e: nat, a: int, b: int, a': int): int
    requires IsPrime(q) && e % q != 0
  {
    b + (a - a') * ScalarInverse(e, q)
  }

  /** Unless q divides e, every commitment opens to every amount. */
  lemma {:induction false} OpensToEverything(gp: Params, e: nat, a: int, b: int, a': int)
    requires Sound(gp) && PowerOfG(gp, e) && e % gp.q != 0
    ensures Rep(gp, a, b) == Rep(gp, a', Reblinded(gp.q, e, a, b, a'))
  {
    hide Exp, Rep, ScalarInverse;
    var i := ScalarInverse(e, gp.q);
    var b' := Reblinded(gp.q, e, a, b, a');
    RepInG(gp, e, a, b);
    RepInG(gp, e, a', b');
    // a' + e b' = a + e b + (a - a') (e i - 1)
    ModUnique(1, 0, 1, gp.q);
    ModDiff(e * i, 1, gp.q);
    ModUnique(0, 0, 0, gp.q);
    ModMulCong(e * i - 1, 0, a - a', gp.q);
    ReblindedSum(e, a, b, a', i);
    ModDiff(a' + e * b', a + e * b, gp.q);
    ExpCong(gp.g, a' + e * b', a + e * b, gp.q, gp.p);
  }

  lemma {:induction false} ReblindedSum(e: int, a: int, b: int, a': int, i: int)
    ensures (a' + e * (b + (a - a') * i)) - (a + e * b) == (e * i - 1) * (a - a')
  {
    assert e * (b + (a - a') * i) == e * b + (e * i) * (a - a');
    assert (e * i - 1) * (a - a') == (e * i) * (a - a') - (a - a');
  }

  // Equal commitments have equal amounts modulo q.
  ghost predicate Binding(gp: Params) {
    forall a, b, a', b' :: Rep(gp, a, b) == Rep(gp, a', b') ==> a % gp.q == a' % gp.q
  }

  // The blinding has no effect.
  ghost predicate Unblinded(gp: Params) {
    forall a, b :: Rep(gp, a, b) == Rep(gp, a, 0)
  }

  // g^d = 1 only for multiples of q.
  lemma {:induction false} OrderIsQ(gp: Params, d: int)
    requires Sound(gp) && gp.g % gp.p != 1 && Exp(gp.g, d, gp.q, gp.p) == 1
    ensures d % gp.q == 0
  {
    hide Mul, Power, Exp;
    if d % gp.q != 0 {
      ModUnique(1, 0, 1, gp.p);
      PowerUnit(gp.q, gp.p);
      assert HasOrder(1, gp.q, gp.p);
      ExpZero(1, gp.q, gp.p);
      assert 0 * ScalarInverse(d, gp.q) == 0;
      TakeRoot(gp.g, 1, d, 0, gp.q, gp.p);
    }
  }

  lemma {:induction false} MultipleOfQ(gp: Params, e: nat, a: int, b: int)
    requires Sound(gp) && PowerOfG(gp, e) && e % gp.q == 0
    ensures Rep(gp, a, b) == Exp(gp.g, a, gp.q, gp.p)
  {
    hide Exp, Rep;
    RepInG(gp, e, a, b);
    ModUnique(0, 0, 0, gp.q);
    ModMulCong(e, 0, b, gp.q);
    ModAddCong(e * b, 0, a, gp.q);
    ExpCong(gp.g, a + e * b, a, gp.q, gp.p);
  }

  lemma {:induction false} EqualPowers(gp: Params, a: int, a': int)
    requires Sound(gp) && gp.g % gp.p != 1 && Exp(gp.g, a, gp.q, gp.p) == Exp(gp.g, a', gp.q, gp.p)
    ensures a % gp.q == a' % gp.q
  {
    hide Mul, Power, Exp;
    ExpAdd(gp.g, a, -a', gp.q, gp.p);
    ExpAdd(gp.g, a', -a', gp.q, gp.p);
    ExpZero(gp.g, gp.q, gp.p);
    ModUnique(1, 0, 1, gp.p);
    OrderIsQ(gp, a - a');
    ModDiff(a, a', gp.q);
  }

  /**
    The exact condition: with h = g^e commitments are binding if and only if q divides e,
    and that is if and only if the blinding has no effect. They never both bind and hide.
  */
  lemma {:induction false} BindingIff(gp: Params, e: nat)
    requires Sound(gp) && PowerOfG(gp, e) && gp.g % gp.p != 1
    ensures Binding(gp) <==> e % gp.q == 0
    ensures Unblinded(gp) <==> e % gp.q == 0
  {
    hide Rep, Exp, Power;
    if e % gp.q == 0 {
      forall a, b, a', b' | Rep(gp, a, b) == Rep(gp, a', b') ensures a % gp.q == a' % gp.q {
        MultipleOfQ(gp, e, a, b);
        MultipleOfQ(gp, e, a', b');
        EqualPowers(gp, a, a');
      }
      forall a, b ensures Rep(gp, a, b) == Rep(gp, a, 0) {
        MultipleOfQ(gp, e, a, b);
        MultipleOfQ(gp, e, a, 0);
      }
    } else {
      OpensToEverything(gp, e, 0, 0, 1);
      ModUnique(0, 0, 0, gp.q);
      ModUnique(1, 0, 1, gp.q);
      assert !Binding(gp) by {
        assert Rep(gp, 0, 0) == Rep(gp, 1, Reblinded(gp.q, e, 0, 0, 1));
      }
      if Rep(gp, 0, 1) == Rep(gp, 0, 0) {
        RepInG(gp, e, 0, 1);
        RepInG(gp, e, 0, 0);
        EqualPowers(gp, e, 0);
      }
    }
  }

  // The salt under which an amount within the limit has the same commitment.
  function MatchingSalt(q: nat, e: nat, amount: int, salt: int, other: int): nat
    requires IsPrime(q) && e % q != 0
  {
    Reblinded(q, e, amount, salt, other) % q
  }

  lemma {:induction false} CommitIsRep(gp: Params, amount: nat, salt: nat)
    requires Sound(gp)
    ensures Commit(gp, amount, salt) == Some(Rep(gp, amount, salt))
  {
    PedersenIsRep(gp, amount, salt % gp.q);
    ModOfMod(salt, gp.q);
  }

  /**
    What an accepted proof says about the amount, unless q divides e: nothing. The commitment
    to any amount, also one above the limit, is that to any amount within it, and the honest
    proof of the latter is accepted for the former.
  */
  lemma {:induction false} AcceptanceBoundsNothing(gp: Params, e: nat, hash: Hash, amount: nat, salt: nat, other: nat,
                                                   maxLimit: nat, draws: Draws)
    requires Sound(gp) && PowerOfG(gp, e) && e % gp.q != 0
    requires 0 <= other <= maxLimit && maxLimit > 0 && DrawsFor(draws, BitLength(maxLimit))
    ensures var proof := ProveCompliance(gp, hash, other, MatchingSalt(gp.q, e, amount, salt, other), maxLimit, draws);
      && Commit(gp, amount, salt).Some? && proof.Some?
      && VerifyCompliance(gp, hash, Commit(gp, amount, salt).value, maxLimit, proof.value) == Some(true)
  {
    hide Rep, VerifyCompliance, ProveCompliance, Commit, Reblinded;
    var blind := Reblinded(gp.q, e, amount, salt, other);
    var salt' := MatchingSalt(gp.q, e, amount, salt, other);
    OpensToEverything(gp, e, amount, salt, other);
    ModOfMod(blind, gp.q);
    assert Rep(gp, other, salt') == Rep(gp, other, blind) by { RepCong(gp, other, salt', blind); }
    CommitIsRep(gp, amount, salt);
    CommitIsRep(gp, other, salt');
    ComplianceCompleteness(gp, hash, other, salt', maxLimit, draws);
  }

  lemma {:induction false} RepCong(gp: Params, a: int, b: int, b': int)
    requires b % gp.q == b' % gp.q
    ensures Rep(gp, a, b) == Rep(gp, a, b')
  {
  }

  /** The source's group: g is 4, h is 4^e, and the digest e lies strictly between 0 and q. */
  lemma {:induction false} SourceIsNotBinding(p: nat, q: nat, e: nat)
    requires IsPrime(p) && IsPrime(q) && p == 2 * q + 1 && q > 2 && 0 < e < q
    ensures e % q == e
    ensures Sound(Group(p, q, 4, Power(4, e, p))) && SafePrime(Group(p, q, 4, Power(4, e, p)))
    ensures !Binding(Group(p, q, 4, Power(4, e, p)))
    ensures 4 == Exp(Power(4, e, p), ScalarInverse(e, q), q, p)
  {
    hide Power, Exp, Rep, Sound, Binding;
    var gp := Group(p, q, 4, Power(4, e, p));
    SourceGroupIsSound(p, q, e);
    ModUnique(e, 0, e, q);
    ModUnique(4, 0, 4, p);
    BindingIff(gp, e);
    LogIsPublic(gp, e);
  }
}
