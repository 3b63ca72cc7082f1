/**
  The range proof of services/python-analytics/app/zkp_compliance.py.

  The group is any (p, q, g, h) with q an odd prime and g^q = h^q = 1 modulo p; the hash is
  an arbitrary function on byte strings; random draws are parameters. `None` stands for a
  Python exception (ValueError of a refused input or of a base that is not invertible,
  OverflowError of encoding a negative integer).
*/
module ZkpCompliance {
  import opened Wrappers
  import opened Arithmetic
  import opened ModularGroup
  import opened Transcript

  datatype Group = Group(p: nat, q: nat, g: int, h: int)

  type Params = gp: Group | gp.p > 1 && gp.q > 2 witness Group(7, 3, 2, 4)

  ghost predicate Sound(gp: Params) {
    IsPrime(gp.q) && HasOrder(gp.g, gp.q, gp.p) && HasOrder(gp.h, gp.q, gp.p)
  }

  type Hash = seq<byte> -> nat

  // ----- Weighted sums -----

  function BitLength(n: nat): nat {
    if n == 0 then 0 else 1 + BitLength(n / 2)
  }

  lemma {:induction false} BitLengthBounds(n: nat)
    requires n > 0
    ensures BitLength(n) >= 1 && Pow2(BitLength(n) - 1) <= n < Pow2(BitLength(n))
  {
    if n == 1 {
      assert BitLength(1) == 1 + BitLength(0);
      assert Pow2(1) == 2 * Pow2(0);
    } else {
      BitLengthBounds(n / 2);
    }
  }

  // sum of xs[i] * 2^i over i < n
  function WeightedSum(xs: seq<int>, n: nat): int
    requires n <= |xs|
  {
    if n == 0 then 0 else WeightedSum(xs, n - 1) + xs[n - 1] * Pow2(n - 1)
  }

  lemma {:induction false} WeightedSumPrefix(xs: seq<int>, x: int, n: nat)
    requires n <= |xs|
    ensures WeightedSum(xs + [x], n) == WeightedSum(xs, n)
  {
    if n > 0 {
      WeightedSumPrefix(xs, x, n - 1);
    }
  }

  ghost predicate Bits(xs: seq<int>) {
    forall i :: 0 <= i < |xs| ==> xs[i] == 0 || xs[i] == 1
  }

  lemma {:induction false} WeightedBitsBound(xs: seq<int>, n: nat)
    requires n <= |xs| && Bits(xs)
    ensures 0 <= WeightedSum(xs, n) < Pow2(n)
  {
    if n > 0 {
      WeightedBitsBound(xs, n - 1);
    }
  }

  // ----- Decomposition and salt splitting -----

  function DecomposeBits(value: int, k: nat): (r: Option<seq<int>>)
    ensures r.Some? <==> 0 <= value < Pow2(k)
    ensures r.Some? ==> |r.value| == k && Bits(r.value)
  {
    if value < 0 || value >= Pow2(k) then None
    else Some(seq(k, i requires 0 <= i < k => (value / Pow2(i)) % 2))
  }

  lemma {:induction false} DecomposeStep(v: nat, n: nat)
    ensures v % Pow2(n + 1) == v % Pow2(n) + ((v / Pow2(n)) % 2) * Pow2(n)
  {
    var w := Pow2(n);
    var d, r := v / w, v % w;
    var b, e := d % 2, d / 2;
    assert Pow2(n + 1) == 2 * w;
    assert v == d * w + r;
    HalfDigit(d, w);
    ModUnique(v, e, b * w + r, 2 * w);
  }

  lemma {:induction false} HalfDigit(d: int, w: nat)
    ensures d * w == (d / 2) * (2 * w) + (d % 2) * w && 0 <= (d % 2) * w <= w
  {
    assert d == 2 * (d / 2) + d % 2;
    assert (2 * (d / 2)) * w == (d / 2) * (2 * w);
  }

  lemma {:induction false} DecomposeSum(v: nat, k: nat, n: nat)
    requires v < Pow2(k) && n <= k
    ensures WeightedSum(DecomposeBits(v, k).value, n) == v % Pow2(n)
  {
    if n > 0 {
      DecomposeSum(v, k, n - 1);
      DecomposeStep(v, n - 1);
    }
  }

  /** The bits of a value reconstruct it. */
  lemma {:induction false} DecomposeReconstructs(v: nat, k: nat)
    requires v < Pow2(k)
    ensures WeightedSum(DecomposeBits(v, k).value, k) == v
  {
    DecomposeSum(v, k, k);
    ModUnique(v, 0, v, Pow2(k));
  }

  function SplitSalt(gp: Params, salt: int, k: nat, random: seq<nat>): (r: Option<seq<nat>>)
    requires k >= 1 && |random| == k - 1
    ensures r.Some? ==> |r.value| == k
  {
    var partial := WeightedSum(random, k - 1) % gp.q;
    var inv :- Inverse(Pow2(k - 1), gp.q);
    var last := ((salt - partial) % gp.q * inv) % gp.q;
    Some(random + [last])
  }

  lemma {:induction false} Pow2Invertible(n: nat, q: nat) returns (x: nat)
    requires IsPrime(q) && q > 2
    ensures x < q && Mul(Pow2(n), x, q) == 1 % q
  {
    if n == 0 {
      x := 1;
    } else {
      var y := Pow2Invertible(n - 1, q);
      assert !Divides(2, q);
      var half := (q + 1) / 2;
      assert Mul(2, half, q) == 1 % q by {
        ModShift(1, 1, q);
      }
      x := Mul(half, y, q);
      calc {
        Mul(Pow2(n), x, q);
        { MulReduce(2 * Pow2(n - 1), x, q); }
        Mul(Mul(2, Pow2(n - 1), q), Mul(half, y, q), q);
        { MulSwap(2, Pow2(n - 1), half, y, q); }
        Mul(1 % q, 1 % q, q);
        { MulOne(1 % q, q); }
        1 % q;
      }
    }
  }

  /** The shares always exist and their weighted sum is the salt modulo q. */
  lemma {:induction false} SplitSaltReconstructs(gp: Params, salt: int, k: nat, random: seq<nat>)
    requires Sound(gp) && k >= 1 && |random| == k - 1
    ensures SplitSalt(gp, salt, k, random).Some?
    ensures WeightedSum(SplitSalt(gp, salt, k, random).value, k) % gp.q == salt % gp.q
  {
    var q := gp.q;
    var x := Pow2Invertible(k - 1, q);
    InverseIs(Pow2(k - 1), x, q);
    var sum := WeightedSum(random, k - 1);
    var rest := (salt - sum % q) % q;
    var shares := SplitSalt(gp, salt, k, random).value;
    var last := (rest * x) % q;
    assert shares == random + [last];
    WeightedSumPrefix(random, last, k - 1);
    assert WeightedSum(shares, k) == sum + last * Pow2(k - 1);
    calc {
      (last * Pow2(k - 1)) % q;
      Mul(Mul(rest, x, q), Pow2(k - 1), q);
      { MulAssoc(rest, x, Pow2(k - 1), q); MulComm(x, Pow2(k - 1), q); }
      Mul(rest, 1 % q, q);
      { MulOne(rest, q); }
      rest;
    }
    ModOfMod(salt - sum % q, q);
    ModAddCong(last * Pow2(k - 1), salt - sum % q, sum, q);
    ModOfMod(sum, q);
    ModAddCong(sum, sum % q, salt - sum % q, q);
  }

  // ----- Commitments in terms of exponents -----

  // g^a h^b modulo p, for exponents of either sign
  function Rep(gp: Params, a: int, b: int): (r: nat)
    ensures r < gp.p
  {
    Mul(Exp(gp.g, a, gp.q, gp.p), Exp(gp.h, b, gp.q, gp.p), gp.p)
  }

  lemma {:induction false} RepMul(gp: Params, a: int, b: int, c: int, d: int)
    requires Sound(gp)
    ensures Mul(Rep(gp, a, b), Rep(gp, c, d), gp.p) == Rep(gp, a + c, b + d)
  {
    MulSwap(Exp(gp.g, a, gp.q, gp.p), Exp(gp.h, b, gp.q, gp.p),
            Exp(gp.g, c, gp.q, gp.p), Exp(gp.h, d, gp.q, gp.p), gp.p);
    ExpAdd(gp.g, a, c, gp.q, gp.p);
    ExpAdd(gp.h, b, d, gp.q, gp.p);
  }

  lemma {:induction false} RepExp(gp: Params, a: int, b: int, e: int)
    requires Sound(gp)
    ensures HasOrder(Rep(gp, a, b), gp.q, gp.p)
    ensures Exp(Rep(gp, a, b), e, gp.q, gp.p) == Rep(gp, a * e, b * e)
  {
    var x, y := Exp(gp.g, a, gp.q, gp.p), Exp(gp.h, b, gp.q, gp.p);
    ExpMul(gp.g, a, e, gp.q, gp.p);
    ExpMul(gp.h, b, e, gp.q, gp.p);
    PowerProduct(x, y, gp.q, gp.p);
    MulOne(1 % gp.p, gp.p);
    PowerProduct(x, y, e % gp.q, gp.p);
  }

  /** pow on a commitment scales both exponents, negative exponents included. */
  lemma {:induction false} RepPow(gp: Params, a: int, b: int, e: int)
    requires Sound(gp)
    ensures ModPow(Rep(gp, a, b), e, gp.p) == Some(Rep(gp, a * e, b * e))
    ensures e == -1 ==> Inverse(Rep(gp, a, b), gp.p) == Some(Rep(gp, -a, -b))
  {
    RepExp(gp, a, b, e);
    ModPowIsExp(Rep(gp, a, b), e, gp.q, gp.p);
  }

  lemma {:induction false} RepG(gp: Params, a: nat)
    requires Sound(gp)
    ensures Power(gp.g, a, gp.p) == Rep(gp, a, 0)
  {
    PowerIsExp(gp.g, a, gp.q, gp.p);
    ModUnique(0, 0, 0, gp.q);
    MulOne(Exp(gp.g, a, gp.q, gp.p), gp.p);
  }

  lemma {:induction false} RepH(gp: Params, b: nat)
    requires Sound(gp)
    ensures Power(gp.h, b, gp.p) == Rep(gp, 0, b)
  {
    PowerIsExp(gp.h, b, gp.q, gp.p);
    ModUnique(0, 0, 0, gp.q);
    MulOne(Exp(gp.h, b, gp.q, gp.p), gp.p);
  }

  lemma {:induction false} RepInverseG(gp: Params)
    requires Sound(gp)
    ensures Inverse(gp.g, gp.p) == Some(Rep(gp, -1, 0))
  {
    ModPowIsExp(gp.g, -1, gp.q, gp.p);
    ModUnique(0, 0, 0, gp.q);
    MulOne(Exp(gp.g, -1, gp.q, gp.p), gp.p);
  }

  // (pow(G, a, P) * pow(H, b, P)) % P
  function Pedersen(gp: Params, a: nat, b: nat): (r: nat)
    ensures r < gp.p
  {
    Mul(Power(gp.g, a, gp.p), Power(gp.h, b, gp.p), gp.p)
  }

  lemma {:induction false} PedersenIsRep(gp: Params, a: nat, b: nat)
    requires Sound(gp)
    ensures Pedersen(gp, a, b) == Rep(gp, a, b)
  {
    PowerIsExp(gp.g, a, gp.q, gp.p);
    PowerIsExp(gp.h, b, gp.q, gp.p);
  }

  function Commit(gp: Params, amount: int, salt: int): Option<nat> {
    if amount < 0 || salt < 0 then None else Some(Pedersen(gp, amount, salt % gp.q))
  }

  // ----- One bit -----

  datatype BitProof = BitProof(t0: int, t1: int, c0: int, c1: int, s0: int, s1: int)

  // The random draws of one _prove_bit call.
  datatype Coins = Coins(w: nat, cFake: int, sFake: nat)

  function Challenge(gp: Params, hash: Hash, ctx: Context, i: nat, c: nat, t0: nat, t1: nat): (n: nat)
    ensures n < gp.q
  {
    hash(BitPreimage(ctx, i, c, t0, t1)) % gp.q
  }

  // The four parts hashed behind the domain tag.
  ghost predicate SizedInput(ctx: Context, i: nat, c: nat, t0: nat, t1: nat) {
    Sized([Ascii(ctx.Label()) + IntBytes(i), IntBytes(c), IntBytes(t0), IntBytes(t1)])
  }

  /**
    The challenge depends on each of its inputs: at two different ones a hash can give any two
    challenges, so nothing about one determines the other.
  */
  lemma {:induction false} ChallengesAreIndependent(
      gp: Params, ctx: Context, i: nat, c: nat, t0: nat, t1: nat,
      ctx': Context, i': nat, c': nat, t0': nat, t1': nat, n: nat, n': nat) returns (hash: Hash)
    requires SizedInput(ctx, i, c, t0, t1) && SizedInput(ctx', i', c', t0', t1')
    requires (ctx, i, c, t0, t1) != (ctx', i', c', t0', t1') && n < gp.q && n' < gp.q
    ensures Challenge(gp, hash, ctx, i, c, t0, t1) == n && Challenge(gp, hash, ctx', i', c', t0', t1') == n'
  {
    hide BitPreimage, Sized;
    var pre, pre' := BitPreimage(ctx, i, c, t0, t1), BitPreimage(ctx', i', c', t0', t1');
    if pre == pre' {
      BitPreimageInjective(ctx, i, c, t0, t1, ctx', i', c', t0', t1');
      assert false;
    }
    hash := (x: seq<byte>) => if x == pre then n else n';
    ModUnique(n, 0, n, gp.q);
    ModUnique(n', 0, n', gp.q);
  }

  // A part behind its length in eight bytes.
  function Framed(part: seq<byte>): seq<byte> { FixedBytes(|part|, 8) + part }

  // The challenges add up to the hash of tag, label, index, commitment and both announcements.
  ghost predicate BoundTo(gp: Params, hash: Hash, context: string, i: nat, c: int, proof: BitProof) {
    && c >= 0 && proof.t0 >= 0 && proof.t1 >= 0
    && (proof.c0 + proof.c1) % gp.q ==
         hash(Ascii("AfroPay-ZKP-Compliance-v1") + Framed(Ascii(context) + IntBytes(i)) + Framed(IntBytes(c))
              + Framed(IntBytes(proof.t0)) + Framed(IntBytes(proof.t1))) % gp.q
  }

  /** An accepted bit proof is bound to all of these. */
  lemma {:induction false} AcceptedChallenge(gp: Params, hash: Hash, c: int, proof: BitProof, ctx: Context, i: nat)
    requires VerifyBit(gp, hash, c, proof, ctx, i) == Some(true)
    ensures BoundTo(gp, hash, if ctx == AmountContext then "amount" else "upper", i, c, proof)
  {
    hide Mul, Power, ModPow, Inverse, FixedBytes, IntBytes, Ascii;
    FrameOfFour(Ascii(ctx.Label()) + IntBytes(i), IntBytes(c), IntBytes(proof.t0), IntBytes(proof.t1));
    var tag := Ascii(DOMAIN_TAG);
    var a, b := Framed(Ascii(ctx.Label()) + IntBytes(i)), Framed(IntBytes(c));
    var d, e := Framed(IntBytes(proof.t0)), Framed(IntBytes(proof.t1));
    assert tag + (a + b + d + e) == tag + a + b + d + e;
  }

  lemma {:induction false} FrameOfFour(a: seq<byte>, b: seq<byte>, c: seq<byte>, d: seq<byte>)
    ensures Frame([a, b, c, d]) == Framed(a) + Framed(b) + Framed(c) + Framed(d)
  {
    hide FixedBytes;
    assert [a, b, c, d][1..] == [b, c, d] && [b, c, d][1..] == [c, d] && [c, d][1..] == [d] && [d][1..] == [];
    assert Frame([d]) == Framed(d) + [];
    assert Frame([c, d]) == Framed(c) + Frame([d]);
    assert Frame([b, c, d]) == Framed(b) + Frame([c, d]);
    assert Frame([a, b, c, d]) == Framed(a) + Frame([b, c, d]);
  }

  // t_fake, derived from a challenge and a response chosen in advance
  function FakeAnnouncement(gp: Params, c_b: int, bit: int, cFake: int, sFake: nat): Option<nat>
    requires bit == 0 || bit == 1
  {
    var gInv :- Inverse(Power(gp.g, 1 - bit, gp.p), gp.p);
    var xFake := Mul(c_b, gInv, gp.p);
    var xPow :- ModPow(xFake, -cFake, gp.p);
    Some(Mul(Power(gp.h, sFake, gp.p), xPow, gp.p))
  }

  // (t0, t1), fixed before the hash is asked
  function Announcements(gp: Params, c_b: int, bit: int, coins: Coins): Option<(nat, nat)>
    requires bit == 0 || bit == 1
  {
    var tReal := Power(gp.h, coins.w, gp.p);
    var tFake :- FakeAnnouncement(gp, c_b, bit, coins.cFake, coins.sFake);
    Some(if bit == 0 then (tReal, tFake) else (tFake, tReal))
  }

  function ProveBit(gp: Params, hash: Hash, bit: int, r: nat, ctx: Context, i: nat, coins: Coins): Option<BitProof>
    requires bit == 0 || bit == 1
  {
    var c_b := Pedersen(gp, bit, r);
    var (t0, t1) :- Announcements(gp, c_b, bit, coins);
    var c := Challenge(gp, hash, ctx, i, c_b, t0, t1);
    var cReal := (c - coins.cFake) % gp.q;
    var sReal := (coins.w + cReal * r) % gp.q;
    if bit == 0
    then Some(BitProof(t0, t1, cReal, coins.cFake, sReal, coins.sFake))
    else Some(BitProof(t0, t1, coins.cFake, cReal, coins.sFake, sReal))
  }

  function VerifyBit(gp: Params, hash: Hash, c_b: int, proof: BitProof, ctx: Context, i: nat): Option<bool> {
    if c_b < 0 || proof.t0 < 0 || proof.t1 < 0 then None
    else if (proof.c0 + proof.c1) % gp.q != Challenge(gp, hash, ctx, i, c_b, proof.t0, proof.t1) then Some(false)
    else
      var h0 :- ModPow(gp.h, proof.s0, gp.p);
      var y0 :- ModPow(c_b, proof.c0, gp.p);
      if h0 != Mul(proof.t0, y0, gp.p) then Some(false)
      else
        var gInv :- Inverse(gp.g, gp.p);
        var x1 := Mul(c_b, gInv, gp.p);
        var h1 :- ModPow(gp.h, proof.s1, gp.p);
        var y1 :- ModPow(x1, proof.c1, gp.p);
        Some(h1 == Mul(proof.t1, y1, gp.p))
  }

  // One Schnorr equation h^s = t x^c holds for x = g^a h^b exactly when t has this form.
  lemma {:induction false} BranchHolds(gp: Params, a: int, b: int, c: int, s: int, t: int)
    requires Sound(gp) && t == Rep(gp, -a * c, s - b * c)
    ensures ModPow(gp.h, s, gp.p) == Some(Rep(gp, 0, s))
    ensures ModPow(Rep(gp, a, b), c, gp.p) == Some(Rep(gp, a * c, b * c))
    ensures Rep(gp, 0, s) == Mul(t, Rep(gp, a * c, b * c), gp.p)
  {
    ModPowIsExp(gp.h, s, gp.q, gp.p);
    ModUnique(0, 0, 0, gp.q);
    MulOne(Exp(gp.h, s, gp.q, gp.p), gp.p);
    RepPow(gp, a, b, c);
    RepMul(gp, -a * c, s - b * c, a * c, b * c);
    assert -a * c + a * c == 0;
  }

  lemma {:induction false} FakeStatement(gp: Params, bit: int, r: nat)
    requires Sound(gp) && (bit == 0 || bit == 1)
    ensures Inverse(Power(gp.g, 1 - bit, gp.p), gp.p) == Some(Rep(gp, bit - 1, 0))
    ensures Mul(Pedersen(gp, bit, r), Rep(gp, bit - 1, 0), gp.p) == Rep(gp, 2 * bit - 1, r)
  {
    RepG(gp, 1 - bit);
    RepPow(gp, 1 - bit, 0, -1);
    PedersenIsRep(gp, bit, r);
    RepMul(gp, bit, r, bit - 1, 0);
  }

  lemma {:induction false} FakeAnnouncementIs(gp: Params, bit: int, r: nat, c: int, s: nat)
    requires Sound(gp) && (bit == 0 || bit == 1)
    ensures FakeAnnouncement(gp, Pedersen(gp, bit, r), bit, c, s) == Some(Rep(gp, -(2 * bit - 1) * c, s - r * c))
  {
    hide Mul, Power;
    FakeStatement(gp, bit, r);
    var a := 2 * bit - 1;
    RepPow(gp, a, r, -c);
    RepH(gp, s);
    RepMul(gp, 0, s, a * -c, r * -c);
    assert a * -c == -a * c && r * -c == -(r * c);
  }

  lemma {:induction false} RealResponse(gp: Params, r: nat, w: nat, c: int, s: int)
    requires s == (w + c * r) % gp.q
    ensures Rep(gp, 0, w) == Rep(gp, 0, s - r * c)
  {
    ModOfMod(w + c * r, gp.q);
    ModAddCong(s, w + c * r, -(r * c), gp.q);
    assert c * r == r * c;
  }

  /** Both announcements have the form their verification equation asks for. */
  lemma {:induction false} AnnouncementsFit(gp: Params, hash: Hash, bit: int, r: nat, ctx: Context, i: nat,
                                            coins: Coins)
    requires Sound(gp) && (bit == 0 || bit == 1)
    ensures ProveBit(gp, hash, bit, r, ctx, i, coins).Some?
    ensures var pf := ProveBit(gp, hash, bit, r, ctx, i, coins).value;
      && pf.t0 == Rep(gp, -bit * pf.c0, pf.s0 - r * pf.c0)
      && pf.t1 == Rep(gp, -(bit - 1) * pf.c1, pf.s1 - r * pf.c1)
      && (pf.c0 + pf.c1) % gp.q == Challenge(gp, hash, ctx, i, Pedersen(gp, bit, r), pf.t0, pf.t1)
  {
    hide Mul, Power, Rep, FakeAnnouncement, Pedersen, BitPreimage;
    FakeAnnouncementIs(gp, bit, r, coins.cFake, coins.sFake);
    RepH(gp, coins.w);
    var pf := ProveBit(gp, hash, bit, r, ctx, i, coins).value;
    var n := hash(BitPreimage(ctx, i, Pedersen(gp, bit, r), pf.t0, pf.t1));
    var cReal := (n % gp.q - coins.cFake) % gp.q;
    RealResponse(gp, r, coins.w, cReal, (coins.w + cReal * r) % gp.q);
    ChallengeSplit(n, coins.cFake, gp.q);
    if bit == 0 {
      assert -(2 * bit - 1) * coins.cFake == -(bit - 1) * pf.c1 && -bit * pf.c0 == 0;
    } else {
      assert -(2 * bit - 1) * coins.cFake == -bit * pf.c0 && -(bit - 1) * pf.c1 == 0;
    }
  }

  lemma {:induction false} ChallengeSplit(n: nat, c: int, q: nat)
    requires q > 0
    ensures ((n % q - c) % q + c) % q == n % q
  {
    ModOfMod(n % q - c, q);
    ModAddCong((n % q - c) % q, n % q - c, c, q);
    ModOfMod(n, q);
  }

  /** Completeness of the OR proof, for both bits, every draw and every hash. */
  lemma {:induction false} BitCompleteness(gp: Params, hash: Hash, bit: int, r: nat, ctx: Context, i: nat, coins: Coins)
    requires Sound(gp) && (bit == 0 || bit == 1)
    ensures ProveBit(gp, hash, bit, r, ctx, i, coins).Some?
    ensures VerifyBit(gp, hash, Pedersen(gp, bit, r), ProveBit(gp, hash, bit, r, ctx, i, coins).value, ctx, i) ==
      Some(true)
  {
    hide ProveBit, Mul, Power;
    AnnouncementsFit(gp, hash, bit, r, ctx, i, coins);
    var pf := ProveBit(gp, hash, bit, r, ctx, i, coins).value;
    PedersenIsRep(gp, bit, r);
    BranchHolds(gp, bit, r, pf.c0, pf.s0, pf.t0);
    RepInverseG(gp);
    RepMul(gp, bit, r, -1, 0);
    BranchHolds(gp, bit - 1, r, pf.c1, pf.s1, pf.t1);
  }

  // ----- Range proofs -----

  datatype RangeProof = RangeProof(bitCommitments: seq<int>, bitProofs: seq<BitProof>)

  // The proof of the first n bits.
  function ProveBits(gp: Params, hash: Hash, bits: seq<int>, shares: seq<nat>, ctx: Context,
                     coins: nat -> Coins, n: nat): (r: Option<RangeProof>)
    requires n <= |bits| == |shares| && Bits(bits)
    ensures r.Some? ==> |r.value.bitCommitments| == |r.value.bitProofs| == n
  {
    if n == 0 then Some(RangeProof([], []))
    else
      var init :- ProveBits(gp, hash, bits, shares, ctx, coins, n - 1);
      var proof :- ProveBit(gp, hash, bits[n - 1], shares[n - 1], ctx, n - 1, coins(n - 1));
      Some(RangeProof(init.bitCommitments + [Pedersen(gp, bits[n - 1], shares[n - 1])], init.bitProofs + [proof]))
  }

  function LtPow2Proof(gp: Params, hash: Hash, value: int, salt: int, k: nat, ctx: Context,
                       random: seq<nat>, coins: nat -> Coins): Option<RangeProof>
    requires k >= 1 && |random| == k - 1
  {
    var bits :- DecomposeBits(value, k);
    var shares :- SplitSalt(gp, salt, k, random);
    ProveBits(gp, hash, bits, shares, ctx, coins, k)
  }

  method ProveLtPow2(gp: Params, hash: Hash, value: int, salt: int, k: nat, ctx: Context,
                     random: seq<nat>, coins: nat -> Coins) returns (r: Option<RangeProof>)
    requires k >= 1 && |random| == k - 1
    ensures r == LtPow2Proof(gp, hash, value, salt, k, ctx, random, coins)
  {
    hide ProveBit, Pedersen;
    var bits :- DecomposeBits(value, k);
    var shares :- SplitSalt(gp, salt, k, random);
    var bitCommitments, bitProofs := [], [];
    for i := 0 to k
      invariant ProveBits(gp, hash, bits, shares, ctx, coins, i) == Some(RangeProof(bitCommitments, bitProofs))
    {
      var proof := ProveBit(gp, hash, bits[i], shares[i], ctx, i, coins(i));
      if proof.None? {
        ProveBitsFails(gp, hash, bits, shares, ctx, coins, i + 1, k);
        return None;
      }
      bitCommitments := bitCommitments + [Pedersen(gp, bits[i], shares[i])];
      bitProofs := bitProofs + [proof.value];
    }
    return Some(RangeProof(bitCommitments, bitProofs));
  }

  lemma {:induction false} ProveBitsFails(gp: Params, hash: Hash, bits: seq<int>, shares: seq<nat>, ctx: Context,
                                          coins: nat -> Coins, n: nat, k: nat)
    requires n <= k <= |bits| == |shares| && Bits(bits)
    requires ProveBits(gp, hash, bits, shares, ctx, coins, n).None?
    ensures ProveBits(gp, hash, bits, shares, ctx, coins, k).None?
    decreases k
  {
    hide ProveBit, Mul, Power;
    if n < k {
      ProveBitsFails(gp, hash, bits, shares, ctx, coins, n, k - 1);
    }
  }

  function VerifyBitsFrom(gp: Params, hash: Hash, proof: RangeProof, ctx: Context, i: nat): Option<bool>
    requires i <= |proof.bitCommitments| == |proof.bitProofs|
    decreases |proof.bitProofs| - i
  {
    if i == |proof.bitCommitments| then Some(true)
    else
      var ok :- VerifyBit(gp, hash, proof.bitCommitments[i], proof.bitProofs[i], ctx, i);
      if !ok then Some(false) else VerifyBitsFrom(gp, hash, proof, ctx, i + 1)
  }

  // product of cs[i]^(2^i) over i < n
  function Reconstruct(gp: Params, cs: seq<int>, n: nat): nat
    requires n <= |cs|
  {
    if n == 0 then 1
    else Mul(Reconstruct(gp, cs, n - 1), Power(cs[n - 1], Pow2(n - 1), gp.p), gp.p)
  }

  function LtPow2Accepts(gp: Params, hash: Hash, c: int, proof: RangeProof, k: int, ctx: Context): Option<bool> {
    if |proof.bitCommitments| != k || |proof.bitProofs| != k then Some(false)
    else
      var ok :- VerifyBitsFrom(gp, hash, proof, ctx, 0);
      Some(ok && Reconstruct(gp, proof.bitCommitments, k) == c % gp.p)
  }

  method VerifyLtPow2(gp: Params, hash: Hash, c: int, proof: RangeProof, k: int, ctx: Context)
      returns (r: Option<bool>)
    ensures r == LtPow2Accepts(gp, hash, c, proof, k, ctx)
  {
    hide VerifyBit;
    if |proof.bitCommitments| != k || |proof.bitProofs| != k {
      return Some(false);
    }
    for i := 0 to k
      invariant VerifyBitsFrom(gp, hash, proof, ctx, i) == VerifyBitsFrom(gp, hash, proof, ctx, 0)
    {
      var ok :- VerifyBit(gp, hash, proof.bitCommitments[i], proof.bitProofs[i], ctx, i);
      if !ok {
        return Some(false);
      }
    }
    var reconstructed := 1;
    for i := 0 to k
      invariant reconstructed == Reconstruct(gp, proof.bitCommitments, i)
    {
      reconstructed := Mul(reconstructed, Power(proof.bitCommitments[i], Pow2(i), gp.p), gp.p);
    }
    return Some(reconstructed == c % gp.p);
  }

  // ----- Completeness of range proofs -----

  /** What the prover's loop leaves behind: each commitment opens to its bit, each proof is accepted. */
  lemma {:induction false} ProveBitsAccepted(gp: Params, hash: Hash, bits: seq<int>, shares: seq<nat>, ctx: Context,
                                             coins: nat -> Coins, n: nat)
    requires Sound(gp) && n <= |bits| == |shares| && Bits(bits)
    ensures ProveBits(gp, hash, bits, shares, ctx, coins, n).Some?
    ensures var pf := ProveBits(gp, hash, bits, shares, ctx, coins, n).value;
      forall i :: 0 <= i < n ==>
        && pf.bitCommitments[i] == Rep(gp, bits[i], shares[i])
        && VerifyBit(gp, hash, pf.bitCommitments[i], pf.bitProofs[i], ctx, i) == Some(true)
  {
    hide VerifyBit, ProveBit, Mul, Power;
    if n > 0 {
      ProveBitsAccepted(gp, hash, bits, shares, ctx, coins, n - 1);
      BitCompleteness(gp, hash, bits[n - 1], shares[n - 1], ctx, n - 1, coins(n - 1));
      PedersenIsRep(gp, bits[n - 1], shares[n - 1]);
    }
  }

  lemma {:induction false} AllBitsVerify(gp: Params, hash: Hash, proof: RangeProof, ctx: Context, i: nat)
    requires i <= |proof.bitCommitments| == |proof.bitProofs|
    ensures VerifyBitsFrom(gp, hash, proof, ctx, i) == Some(true) <==>
      forall j :: i <= j < |proof.bitProofs| ==>
        VerifyBit(gp, hash, proof.bitCommitments[j], proof.bitProofs[j], ctx, j) == Some(true)
    decreases |proof.bitProofs| - i
  {
    hide VerifyBit;
    if i < |proof.bitProofs| {
      AllBitsVerify(gp, hash, proof, ctx, i + 1);
    }
  }

  // Each commitment opens to (bits[i], blinds[i]).
  ghost predicate OpensTo(gp: Params, cs: seq<int>, bits: seq<int>, blinds: seq<int>) {
    |cs| == |bits| == |blinds| && forall i :: 0 <= i < |cs| ==> cs[i] % gp.p == Rep(gp, bits[i], blinds[i])
  }

  /** The product of the bit commitments opens to the weighted sums of the openings. */
  lemma {:induction false} ReconstructOpening(gp: Params, cs: seq<int>, bits: seq<int>, blinds: seq<int>, n: nat)
    requires Sound(gp) && OpensTo(gp, cs, bits, blinds) && n <= |cs|
    ensures Reconstruct(gp, cs, n) == Rep(gp, WeightedSum(bits, n), WeightedSum(blinds, n))
  {
    if n == 0 {
      RepG(gp, 0);
      ModUnique(1, 0, 1, gp.p);
    } else {
      ReconstructOpening(gp, cs, bits, blinds, n - 1);
      var e := Pow2(n - 1);
      PowerReduce(cs[n - 1], e, gp.p);
      RepExp(gp, bits[n - 1], blinds[n - 1], e);
      PowerIsExp(Rep(gp, bits[n - 1], blinds[n - 1]), e, gp.q, gp.p);
      RepMul(gp, WeightedSum(bits, n - 1), WeightedSum(blinds, n - 1), bits[n - 1] * e, blinds[n - 1] * e);
    }
  }

  lemma {:induction false} RangeCompleteness(gp: Params, hash: Hash, value: nat, salt: int, k: nat, ctx: Context,
                                             random: seq<nat>, coins: nat -> Coins, c: int)
    requires Sound(gp) && k >= 1 && |random| == k - 1
    requires value < Pow2(k) && c % gp.p == Rep(gp, value, salt)
    ensures LtPow2Proof(gp, hash, value, salt, k, ctx, random, coins).Some?
    ensures LtPow2Accepts(gp, hash, c, LtPow2Proof(gp, hash, value, salt, k, ctx, random, coins).value, k, ctx) ==
      Some(true)
  {
    SplitSaltReconstructs(gp, salt, k, random);
    var bits := DecomposeBits(value, k).value;
    var shares := SplitSalt(gp, salt, k, random).value;
    ProveBitsAccepted(gp, hash, bits, shares, ctx, coins, k);
    var pf := ProveBits(gp, hash, bits, shares, ctx, coins, k).value;
    AllBitsVerify(gp, hash, pf, ctx, 0);
    forall i | 0 <= i < k ensures pf.bitCommitments[i] % gp.p == Rep(gp, bits[i], shares[i]) {
      ModUnique(pf.bitCommitments[i], 0, pf.bitCommitments[i], gp.p);
    }
    ReconstructOpening(gp, pf.bitCommitments, bits, shares, k);
    DecomposeReconstructs(value, k);
  }

  // ----- The compliance proof -----

  datatype ComplianceProof = ComplianceProof(
    commitment: int, maxLimit: int, k: int, amountRange: RangeProof, upperRange: RangeProof)

  // The random draws of one prove_compliance call.
  datatype Draws = Draws(amountShares: seq<nat>, amountCoins: nat -> Coins,
                         upperShares: seq<nat>, upperCoins: nat -> Coins)

  ghost predicate DrawsFor(draws: Draws, k: nat) {
    k >= 1 ==> |draws.amountShares| == |draws.upperShares| == k - 1
  }

  function ProveCompliance(gp: Params, hash: Hash, amount: int, salt: int, maxLimit: int,
                           draws: Draws): Option<ComplianceProof>
    requires maxLimit > 0 ==> DrawsFor(draws, BitLength(maxLimit))
  {
    if amount < 0 || salt < 0 || maxLimit <= 0 || amount > maxLimit then None
    else
      var k := BitLength(maxLimit);
      assert k >= 1;
      var c :- Commit(gp, amount, salt);
      var amountRange :- LtPow2Proof(gp, hash, amount, salt, k, AmountContext, draws.amountShares, draws.amountCoins);
      var u := amount + Pow2(k) - 1 - maxLimit;
      var upperRange :- LtPow2Proof(gp, hash, u, salt, k, UpperContext, draws.upperShares, draws.upperCoins);
      Some(ComplianceProof(c, maxLimit, k, amountRange, upperRange))
  }

  function VerifyCompliance(gp: Params, hash: Hash, c: int, maxLimit: int, proof: ComplianceProof): Option<bool> {
    if maxLimit <= 0 || proof.maxLimit != maxLimit then Some(false)
    else if proof.k != BitLength(maxLimit) then Some(false)
    else if proof.commitment % gp.p != c % gp.p then Some(false)
    else
      var amountOk :- LtPow2Accepts(gp, hash, c, proof.amountRange, proof.k, AmountContext);
      if !amountOk then Some(false)
      else
        var gPow :- ModPow(gp.g, Pow2(proof.k) - 1 - maxLimit, gp.p);
        LtPow2Accepts(gp, hash, Mul(c, gPow, gp.p), proof.upperRange, proof.k, UpperContext)
  }

  /**
    Completeness: for every amount up to the limit, every salt, every random draw and every
    hash, an honest proof exists and the verifier accepts it.
  */
  lemma {:induction false} ComplianceCompleteness(gp: Params, hash: Hash, amount: int, salt: int, maxLimit: int,
                                                  draws: Draws)
    requires Sound(gp) && 0 <= amount <= maxLimit && maxLimit > 0 && salt >= 0
    requires DrawsFor(draws, BitLength(maxLimit))
    ensures Commit(gp, amount, salt).Some? && ProveCompliance(gp, hash, amount, salt, maxLimit, draws).Some?
    ensures VerifyCompliance(gp, hash, Commit(gp, amount, salt).value, maxLimit,
              ProveCompliance(gp, hash, amount, salt, maxLimit, draws).value) == Some(true)
  {
    hide LtPow2Proof, LtPow2Accepts, Mul, Power, Pow2, BitLength, Pedersen;
    BitLengthBounds(maxLimit);
    var k := BitLength(maxLimit);
    var c := Commit(gp, amount, salt).value;
    PedersenIsRep(gp, amount, salt % gp.q);
    ModOfMod(salt, gp.q);
    ModUnique(c, 0, c, gp.p);
    RangeCompleteness(gp, hash, amount, salt, k, AmountContext, draws.amountShares, draws.amountCoins, c);
    var shift := Pow2(k) - 1 - maxLimit;
    RepG(gp, shift);
    RepMul(gp, amount, salt, shift, 0);
    var cu := Mul(c, Power(gp.g, shift, gp.p), gp.p);
    ModUnique(cu, 0, cu, gp.p);
    RangeCompleteness(gp, hash, amount + shift, salt, k, UpperContext, draws.upperShares, draws.upperCoins, cu);
  }

  /** What an accepted compliance proof is bound to: this limit, this commitment, and the limit's bit length. */
  lemma {:induction false} AcceptedIsBound(gp: Params, hash: Hash, c: int, maxLimit: int, proof: ComplianceProof)
    requires VerifyCompliance(gp, hash, c, maxLimit, proof) == Some(true)
    ensures maxLimit > 0 && proof.maxLimit == maxLimit && proof.commitment % gp.p == c % gp.p
    ensures var k := BitLength(maxLimit);
      && proof.k == k
      && |proof.amountRange.bitCommitments| == |proof.amountRange.bitProofs| == k
      && |proof.upperRange.bitCommitments| == |proof.upperRange.bitProofs| == k
      && Reconstruct(gp, proof.amountRange.bitCommitments, k) == c % gp.p
  {
    hide VerifyBitsFrom, Reconstruct, ModPow, Mul;
  }

  /** ... and so is every bit of both its ranges: to its index, and to "amount" or "upper". */
  lemma {:induction false} AcceptedBitsAreBound(gp: Params, hash: Hash, c: int, maxLimit: int, proof: ComplianceProof,
                                                i: nat)
    requires VerifyCompliance(gp, hash, c, maxLimit, proof) == Some(true)
    requires i < |proof.amountRange.bitProofs| && i < |proof.upperRange.bitProofs|
    requires i < |proof.amountRange.bitCommitments| && i < |proof.upperRange.bitCommitments|
    ensures BoundTo(gp, hash, "amount", i, proof.amountRange.bitCommitments[i], proof.amountRange.bitProofs[i])
    ensures BoundTo(gp, hash, "upper", i, proof.upperRange.bitCommitments[i], proof.upperRange.bitProofs[i])
  {
    hide VerifyBit, Reconstruct, ModPow, Mul, BoundTo;
    AllBitsVerify(gp, hash, proof.amountRange, AmountContext, 0);
    AllBitsVerify(gp, hash, proof.upperRange, UpperContext, 0);
    AcceptedChallenge(gp, hash, proof.amountRange.bitCommitments[i], proof.amountRange.bitProofs[i], AmountContext, i);
    AcceptedChallenge(gp, hash, proof.upperRange.bitCommitments[i], proof.upperRange.bitProofs[i], UpperContext, i);
  }

  /** The prover refuses exactly the inputs outside 0 <= amount <= limit. */
  lemma {:induction false} ProverRefusal(gp: Params, hash: Hash, amount: int, salt: int, maxLimit: int, draws: Draws)
    requires Sound(gp) && (maxLimit > 0 ==> DrawsFor(draws, BitLength(maxLimit)))
    ensures ProveCompliance(gp, hash, amount, salt, maxLimit, draws).Some?
      <==> 0 <= amount <= maxLimit && maxLimit > 0 && salt >= 0
  {
    if 0 <= amount <= maxLimit && maxLimit > 0 && salt >= 0 {
      ComplianceCompleteness(gp, hash, amount, salt, maxLimit, draws);
    }
  }
}
