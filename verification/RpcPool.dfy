/**
  The endpoint pool of services/rust-worker/src/rpc_pool.rs: routing, health and failover.

  Balances and weights are exact reals, instants are milliseconds. `ranked_healthy`,
  `mark_success` and `mark_failure` each hold the write lock throughout, so they are the
  atomic steps of the pool; `Apply` gives their effect on the endpoint vector.
*/
module RpcPool {
  import opened Wrappers
  import opened StableSort
  import opened RoundRobin

  datatype Kind = Horizon | Soroban

  datatype Status = Healthy | Degraded | Unhealthy | RateLimited

  datatype Config = Config(id: string, url: string, kind: Kind, weight: real)

  datatype Endpoint = Endpoint(
    config: Config,
    status: Status,
    latencyMs: Option<nat>,
    blockHeight: Option<nat>,
    consecutiveFailures: nat,
    lastError: Option<string>,
    rateLimitedUntil: Option<nat>,
    routingBalance: real)

  const MAX_BLOCK_LAG: nat := 3
  const RATE_LIMIT_COOLDOWN_MS: nat := 60_000

  // ----- Candidates -----

  // The greatest known height among the first n endpoints of a kind.
  function Highest(es: seq<Endpoint>, kind: Kind, n: nat): (r: Option<nat>)
    requires n <= |es|
    ensures forall i :: 0 <= i < n && es[i].config.kind == kind && es[i].blockHeight.Some? ==>
      r.Some? && es[i].blockHeight.value <= r.value
  {
    if n == 0 then None
    else
      var rest := Highest(es, kind, n - 1);
      var e := es[n - 1];
      if e.config.kind != kind || e.blockHeight.None? then rest
      else if rest.Some? && rest.value > e.blockHeight.value then rest
      else e.blockHeight
  }

  predicate IsRoutable(e: Endpoint, highest: Option<nat>, maxBlockLag: nat, now: nat) {
    if e.status == Unhealthy then false
    else if e.status == RateLimited && (e.rateLimitedUntil.None? || e.rateLimitedUntil.value > now) then false
    else if highest.Some? && e.blockHeight.Some? && highest.value - e.blockHeight.value > maxBlockLag then false
    else e.status == Healthy || e.status == Degraded
  }

  function EffectiveWeight(e: Endpoint): real {
    var latency := if e.latencyMs.None? then 1_000 else if e.latencyMs.value < 1 then 1 else e.latencyMs.value;
    e.config.weight * (1000.0 / latency as real)
  }

  /** The weight is inversely proportional to the latency, which counts as 1000 ms when unknown. */
  lemma {:induction false} WeightLaw(e: Endpoint)
    ensures e.latencyMs.None? ==> EffectiveWeight(e) == e.config.weight
    ensures e.latencyMs.Some? && e.latencyMs.value >= 1 ==>
      EffectiveWeight(e) * e.latencyMs.value as real == e.config.weight * 1000.0
    ensures e.latencyMs == Some(0) ==> EffectiveWeight(e) == e.config.weight * 1000.0
    ensures e.config.weight > 0.0 ==> EffectiveWeight(e) > 0.0
  {
    if e.latencyMs.Some? && e.latencyMs.value >= 1 {
      var l := e.latencyMs.value as real;
      assert 1000.0 / l * l == 1000.0;
      assert EffectiveWeight(e) * l == e.config.weight * (1000.0 / l * l);
    }
  }

  // The routable ones among the first n endpoints, in vector order.
  function CandidatesUpTo(es: seq<Endpoint>, kind: Kind, now: nat, n: nat): (c: seq<nat>)
    requires n <= |es|
    ensures forall i :: 0 <= i < |c| ==> c[i] < n
  {
    if n == 0 then []
    else
      var rest := CandidatesUpTo(es, kind, now, n - 1);
      if es[n - 1].config.kind == kind && IsRoutable(es[n - 1], Highest(es, kind, |es|), MAX_BLOCK_LAG, now)
      then rest + [n - 1] else rest
  }

  function Candidates(es: seq<Endpoint>, kind: Kind, now: nat): (c: seq<nat>)
    ensures forall i :: 0 <= i < |c| ==> c[i] < |es|
  {
    CandidatesUpTo(es, kind, now, |es|)
  }

  ghost predicate Ascending(c: seq<nat>) {
    forall i, j :: 0 <= i < j < |c| ==> c[i] < c[j]
  }

  lemma {:induction false} CandidatesMembers(es: seq<Endpoint>, kind: Kind, now: nat, n: nat)
    requires n <= |es|
    ensures Ascending(CandidatesUpTo(es, kind, now, n))
    ensures forall i :: i in CandidatesUpTo(es, kind, now, n) <==>
      0 <= i < n && es[i].config.kind == kind && IsRoutable(es[i], Highest(es, kind, |es|), MAX_BLOCK_LAG, now)
  {
    hide IsRoutable, Highest;
    if n > 0 {
      CandidatesMembers(es, kind, now, n - 1);
      var rest, all := CandidatesUpTo(es, kind, now, n - 1), CandidatesUpTo(es, kind, now, n);
      var h := Highest(es, kind, |es|);
      assert all == rest || all == rest + [n - 1];
      assert n - 1 in all <==> es[n - 1].config.kind == kind && IsRoutable(es[n - 1], h, MAX_BLOCK_LAG, now);
      forall i ensures i in all <==>
        0 <= i < n && es[i].config.kind == kind && IsRoutable(es[i], h, MAX_BLOCK_LAG, now)
      {
        assert i != n - 1 ==> (i in all <==> i in rest);
      }
    }
  }

  lemma {:induction false} HighestAttained(es: seq<Endpoint>, kind: Kind, n: nat)
    requires n <= |es|
    ensures var h := Highest(es, kind, n);
      h.Some? ==> exists i :: 0 <= i < n && es[i].config.kind == kind && es[i].blockHeight == h
  {
    if n > 0 {
      HighestAttained(es, kind, n - 1);
      assert Highest(es, kind, n) == es[n - 1].blockHeight || Highest(es, kind, n) == Highest(es, kind, n - 1);
    }
  }

  // No known height of the kind is more than three blocks ahead.
  ghost predicate KeepsUp(es: seq<Endpoint>, kind: Kind, j: nat)
    requires j < |es|
  {
    es[j].blockHeight.Some? ==>
      forall i :: 0 <= i < |es| && es[i].config.kind == kind && es[i].blockHeight.Some? ==>
        es[i].blockHeight.value - es[j].blockHeight.value <= 3
  }

  /** Who is a candidate, read off the vector: by kind, status and height alone. */
  lemma {:induction false} CandidateIff(es: seq<Endpoint>, kind: Kind, now: nat, j: nat)
    ensures j in Candidates(es, kind, now) <==>
      && j < |es| && es[j].config.kind == kind
      && (es[j].status == Healthy || es[j].status == Degraded)
      && KeepsUp(es, kind, j)
  {
    hide Highest, IsRoutable;
    CandidatesMembers(es, kind, now, |es|);
    HighestAttained(es, kind, |es|);
    if j < |es| {
      RoutableIgnoresClock(es[j], Highest(es, kind, |es|), MAX_BLOCK_LAG, now);
    }
  }

  /** The endpoint at the greatest known height is never excluded for lag, nor is one of unknown height. */
  lemma {:induction false} TopKeepsUp(es: seq<Endpoint>, kind: Kind, now: nat, j: nat)
    requires j < |es| && es[j].config.kind == kind && (es[j].status == Healthy || es[j].status == Degraded)
    requires es[j].blockHeight.Some? ==>
      forall i :: 0 <= i < |es| && es[i].config.kind == kind && es[i].blockHeight.Some? ==>
        es[i].blockHeight.value <= es[j].blockHeight.value
    ensures j in Candidates(es, kind, now)
  {
    CandidateIff(es, kind, now, j);
  }

  // ----- Rebalancing -----

  function Credit(es: seq<Endpoint>, c: seq<nat>, n: nat): (r: seq<Endpoint>)
    requires n <= |c| && forall i :: 0 <= i < |c| ==> c[i] < |es|
    ensures |r| == |es|
  {
    if n == 0 then es
    else
      var rest := Credit(es, c, n - 1);
      var e := rest[c[n - 1]];
      rest[c[n - 1] := e.(routingBalance := e.routingBalance + EffectiveWeight(e))]
  }

  function WeightsOf(es: seq<Endpoint>, c: seq<nat>): (w: seq<real>)
    requires forall i :: 0 <= i < |c| ==> c[i] < |es|
    ensures |w| == |c|
  {
    seq(|c|, i requires 0 <= i < |c| => EffectiveWeight(es[c[i]]))
  }

  function BalancesOf(es: seq<Endpoint>, c: seq<nat>): (b: seq<real>)
    requires forall i :: 0 <= i < |c| ==> c[i] < |es|
    ensures |b| == |c|
  {
    seq(|c|, i requires 0 <= i < |c| => es[c[i]].routingBalance)
  }

  function Selected(es: seq<Endpoint>, c: seq<nat>): (s: nat)
    requires c != [] && forall i :: 0 <= i < |c| ==> c[i] < |es|
    ensures s < |es| && s in c
  {
    c[LastMax(BalancesOf(Credit(es, c, |c|), c))]
  }

  // The vector after one ranked_healthy call; with at most one candidate nothing moves.
  function RankEffect(es: seq<Endpoint>, kind: Kind, now: nat): (r: seq<Endpoint>)
    ensures |r| == |es|
  {
    var c := Candidates(es, kind, now);
    if |c| <= 1 then es
    else
      var credited := Credit(es, c, |c|);
      var s := Selected(es, c);
      var e := credited[s];
      credited[s := e.(routingBalance := e.routingBalance - Sum(WeightsOf(es, c)))]
  }

  // The leader first, then the others by descending weight, ties in vector order.
  function RankKey(es: seq<Endpoint>, selected: nat): nat -> Key {
    (i: nat) => if i == selected then NegInf else if i < |es| then Fin(-EffectiveWeight(es[i])) else PosInf
  }

  ghost predicate IsRanking(es: seq<Endpoint>, kind: Kind, now: nat, order: seq<nat>) {
    var c := Candidates(es, kind, now);
    if |c| <= 1 then order == c else StablySorted(c, RankKey(es, Selected(es, c)), order)
  }

  // Everything but the balance.
  ghost predicate SameButBalance(a: Endpoint, b: Endpoint) {
    a == b.(routingBalance := a.routingBalance)
  }

  lemma {:induction false} CreditElement(es: seq<Endpoint>, c: seq<nat>, n: nat, j: nat)
    requires n <= |c| && Ascending(c) && j < |es| && forall i :: 0 <= i < |c| ==> c[i] < |es|
    ensures SameButBalance(Credit(es, c, n)[j], es[j])
    ensures Credit(es, c, n)[j].routingBalance ==
      es[j].routingBalance + (if j in c[..n] then EffectiveWeight(es[j]) else 0.0)
  {
    hide EffectiveWeight;
    if n > 0 {
      CreditElement(es, c, n - 1, j);
      assert c[..n] == c[..n - 1] + [c[n - 1]];
      assert c[n - 1] !in c[..n - 1];
      WeightIgnoresBalance(Credit(es, c, n - 1)[j], es[j]);
    }
  }

  lemma {:induction false} WeightIgnoresBalance(a: Endpoint, b: Endpoint)
    requires SameButBalance(a, b)
    ensures EffectiveWeight(a) == EffectiveWeight(b)
  {
  }

  lemma {:induction false} CreditBalances(es: seq<Endpoint>, c: seq<nat>)
    requires Ascending(c) && forall i :: 0 <= i < |c| ==> c[i] < |es|
    ensures BalancesOf(Credit(es, c, |c|), c) == AddAll(BalancesOf(es, c), WeightsOf(es, c))
  {
    hide EffectiveWeight;
    assert c[..|c|] == c;
    forall i | 0 <= i < |c|
      ensures BalancesOf(Credit(es, c, |c|), c)[i] == AddAll(BalancesOf(es, c), WeightsOf(es, c))[i]
    {
      CreditElement(es, c, |c|, c[i]);
    }
  }

  lemma {:induction false} BalancesUpdate(es: seq<Endpoint>, c: seq<nat>, k: nat, e: Endpoint)
    requires Ascending(c) && k < |c| && forall i :: 0 <= i < |c| ==> c[i] < |es|
    ensures BalancesOf(es[c[k] := e], c) == BalancesOf(es, c)[k := e.routingBalance]
  {
    var updated := BalancesOf(es[c[k] := e], c);
    forall i | 0 <= i < |c| ensures updated[i] == BalancesOf(es, c)[k := e.routingBalance][i] {
      assert i != k ==> c[i] != c[k];
    }
  }

  /** The balances of the candidates move exactly as in smooth weighted round robin. */
  lemma {:induction false} RankIsRoundRobin(es: seq<Endpoint>, kind: Kind, now: nat)
    requires |Candidates(es, kind, now)| >= 2
    ensures var c := Candidates(es, kind, now);
      && BalancesOf(RankEffect(es, kind, now), c) == Step(BalancesOf(es, c), WeightsOf(es, c))
      && Selected(es, c) == c[Leader(BalancesOf(es, c), WeightsOf(es, c))]
  {
    hide EffectiveWeight, Sum, LastMax, Candidates, AddAll;
    var c := Candidates(es, kind, now);
    CandidatesDistinct(es, kind, now);
    CreditBalances(es, c);
    var k := Leader(BalancesOf(es, c), WeightsOf(es, c));
    BalancesUpdate(Credit(es, c, |c|), c, k, RankEffect(es, kind, now)[c[k]]);
  }

  lemma {:induction false} RankElement(es: seq<Endpoint>, kind: Kind, now: nat, j: nat)
    requires j < |es|
    ensures SameButBalance(RankEffect(es, kind, now)[j], es[j])
    ensures j !in Candidates(es, kind, now) ==> RankEffect(es, kind, now)[j] == es[j]
  {
    hide EffectiveWeight, IsRoutable, Highest, Sum, LastMax;
    var c := Candidates(es, kind, now);
    CandidatesMembers(es, kind, now, |es|);
    CreditElement(es, c, |c|, j);
    assert c[..|c|] == c;
  }

  // ----- Independence of the clock -----

  /** The clock never decides: an expired cooldown does not make a rate-limited endpoint routable. */
  lemma {:induction false} RoutableIgnoresClock(e: Endpoint, highest: Option<nat>, lag: nat, now: nat)
    ensures IsRoutable(e, highest, lag, now) <==>
      && (e.status == Healthy || e.status == Degraded)
      && (highest.Some? && e.blockHeight.Some? ==> highest.value - e.blockHeight.value <= lag)
  {
  }

  lemma {:induction false} HighestIgnoresBalances(es: seq<Endpoint>, fs: seq<Endpoint>, kind: Kind, n: nat)
    requires |es| == |fs| && n <= |es| && forall j :: 0 <= j < |es| ==> SameButBalance(fs[j], es[j])
    ensures Highest(fs, kind, n) == Highest(es, kind, n)
  {
    if n > 0 {
      HighestIgnoresBalances(es, fs, kind, n - 1);
      assert SameButBalance(fs[n - 1], es[n - 1]);
    }
  }

  lemma {:induction false} CandidatesIgnoreBalances(es: seq<Endpoint>, fs: seq<Endpoint>, kind: Kind, now: nat,
                                                    now': nat, n: nat)
    requires |es| == |fs| && n <= |es| && forall j :: 0 <= j < |es| ==> SameButBalance(fs[j], es[j])
    ensures CandidatesUpTo(fs, kind, now', n) == CandidatesUpTo(es, kind, now, n)
  {
    if n > 0 {
      CandidatesIgnoreBalances(es, fs, kind, now, now', n - 1);
      HighestIgnoresBalances(es, fs, kind, |es|);
      assert SameButBalance(fs[n - 1], es[n - 1]);
      var h := Highest(es, kind, |es|);
      RoutableIgnoresClock(es[n - 1], h, MAX_BLOCK_LAG, now);
      RoutableIgnoresClock(fs[n - 1], h, MAX_BLOCK_LAG, now');
    }
  }

  lemma {:induction false} RankKeepsCandidates(es: seq<Endpoint>, kind: Kind, kind': Kind, now: nat, now': nat)
    ensures Candidates(RankEffect(es, kind, now), kind', now') == Candidates(es, kind', now)
    ensures WeightsOf(RankEffect(es, kind, now), Candidates(es, kind', now)) ==
      WeightsOf(es, Candidates(es, kind', now))
  {
    hide EffectiveWeight, RankEffect, Candidates;
    var fs := RankEffect(es, kind, now);
    forall j | 0 <= j < |es| ensures SameButBalance(fs[j], es[j]) && EffectiveWeight(fs[j]) == EffectiveWeight(es[j]) {
      RankElement(es, kind, now, j);
      WeightIgnoresBalance(fs[j], es[j]);
    }
    CandidatesAreAll(es, kind', now);
    CandidatesAreAll(fs, kind', now');
    CandidatesIgnoreBalances(es, fs, kind', now, now', |es|);
    var c := Candidates(es, kind', now);
    assert forall i :: 0 <= i < |c| ==> WeightsOf(fs, c)[i] == WeightsOf(es, c)[i];
  }

  lemma {:induction false} CandidatesAreAll(es: seq<Endpoint>, kind: Kind, now: nat)
    ensures Candidates(es, kind, now) == CandidatesUpTo(es, kind, now, |es|)
  {
  }

  // ----- Fairness of the pool -----

  // The vector after n ranked_healthy calls of one kind, at any instants.
  function RankMany(es: seq<Endpoint>, kind: Kind, clock: nat -> nat, n: nat): (r: seq<Endpoint>)
    ensures |r| == |es|
  {
    if n == 0 then es else RankEffect(RankMany(es, kind, clock, n - 1), kind, clock(n - 1))
  }

  // How many of the first n calls endpoint j led.
  function Leads(es: seq<Endpoint>, kind: Kind, clock: nat -> nat, n: nat, j: nat): nat {
    if n == 0 then 0
    else
      var before := RankMany(es, kind, clock, n - 1);
      var c := Candidates(before, kind, clock(n - 1));
      Leads(es, kind, clock, n - 1, j) + if c != [] && Selected(before, c) == j then 1 else 0
  }

  /** Repeated routing of an unchanged pool is smooth weighted round robin over its candidates. */
  lemma {:induction false} PoolRun(es: seq<Endpoint>, kind: Kind, clock: nat -> nat, n: nat)
    requires |Candidates(es, kind, 0)| >= 2
    requires BalancesOf(es, Candidates(es, kind, 0)) == Zeros(|Candidates(es, kind, 0)|)
    ensures var c := Candidates(es, kind, 0);
      var s := Run(WeightsOf(es, c), n);
      && Candidates(RankMany(es, kind, clock, n), kind, clock(n)) == c
      && WeightsOf(RankMany(es, kind, clock, n), c) == WeightsOf(es, c)
      && BalancesOf(RankMany(es, kind, clock, n), c) == s.balance
      && forall i :: 0 <= i < |c| ==> Leads(es, kind, clock, n, c[i]) == s.led[i]
  {
    hide Candidates, RankEffect, Selected, Step, Leader, WeightsOf, BalancesOf, SameButBalance;
    var c := Candidates(es, kind, 0);
    if n == 0 {
      CandidatesAreAll(es, kind, 0);
      CandidatesAreAll(es, kind, clock(0));
      SameAsItself(es);
      CandidatesIgnoreBalances(es, es, kind, 0, clock(0), |es|);
    } else {
      PoolRun(es, kind, clock, n - 1);
      var before := RankMany(es, kind, clock, n - 1);
      var now := clock(n - 1);
      RankIsRoundRobin(before, kind, now);
      RankKeepsCandidates(before, kind, kind, now, clock(n));
      CandidatesDistinct(es, kind, 0);
      var s := Run(WeightsOf(es, c), n - 1);
      var k := Leader(s.balance, WeightsOf(es, c));
      forall i | 0 <= i < |c| ensures Leads(es, kind, clock, n, c[i]) == s.led[k := s.led[k] + 1][i] {
        assert c[i] == c[k] <==> i == k;
      }
    }
  }

  lemma {:induction false} SameAsItself(es: seq<Endpoint>)
    ensures forall j :: 0 <= j < |es| ==> SameButBalance(es[j], es[j])
  {
  }

  lemma {:induction false} CandidatesDistinct(es: seq<Endpoint>, kind: Kind, now: nat)
    ensures Ascending(Candidates(es, kind, now))
  {
    CandidatesMembers(es, kind, now, |es|);
  }

  /** Each candidate leads its share of the calls, within one above and |c|-1 below. */
  lemma {:induction false} PoolFairness(es: seq<Endpoint>, kind: Kind, clock: nat -> nat, n: nat, i: nat)
    requires |Candidates(es, kind, 0)| >= 2 && i < |Candidates(es, kind, 0)|
    requires BalancesOf(es, Candidates(es, kind, 0)) == Zeros(|Candidates(es, kind, 0)|)
    requires Positive(WeightsOf(es, Candidates(es, kind, 0)))
    ensures var c := Candidates(es, kind, 0);
      var w := WeightsOf(es, c);
      && Sum(w) > 0.0
      && Share(n, w[i], Sum(w)) - (|c| - 1) as real < Leads(es, kind, clock, n, c[i]) as real
      && Leads(es, kind, clock, n, c[i]) as real < Share(n, w[i], Sum(w)) + 1.0
      && RankMany(es, kind, clock, n)[c[i]].routingBalance == Account(n, w[i], Sum(w), Leads(es, kind, clock, n, c[i]))
  {
    hide Candidates, WeightsOf, Share, Account, Sum, Run, Leads;
    var c := Candidates(es, kind, 0);
    var w := WeightsOf(es, c);
    PoolRun(es, kind, clock, n);
    FairShare(w, n, i);
    RunAccount(w, n);
    assert BalancesOf(RankMany(es, kind, clock, n), c)[i] == RankMany(es, kind, clock, n)[c[i]].routingBalance;
  }

  /** Weights that are multiples m_i of a unit: in sum m_i calls, each leads exactly m_i times. */
  lemma {:induction false} PoolPeriod(es: seq<Endpoint>, kind: Kind, clock: nat -> nat, m: seq<nat>, u: real)
    requires |Candidates(es, kind, 0)| >= 2 && |m| == |Candidates(es, kind, 0)| && u > 0.0
    requires BalancesOf(es, Candidates(es, kind, 0)) == Zeros(|Candidates(es, kind, 0)|)
    requires Positive(WeightsOf(es, Candidates(es, kind, 0)))
    requires forall i :: 0 <= i < |m| ==> WeightsOf(es, Candidates(es, kind, 0))[i] == m[i] as real * u
    ensures var c := Candidates(es, kind, 0);
      && (forall i :: 0 <= i < |c| ==> Leads(es, kind, clock, Total(m), c[i]) == m[i])
      && BalancesOf(RankMany(es, kind, clock, Total(m)), c) == Zeros(|c|)
  {
    hide Candidates, WeightsOf, BalancesOf, Run, Leads, Total, RankMany;
    PoolRun(es, kind, clock, Total(m));
    ExactPeriod(WeightsOf(es, Candidates(es, kind, 0)), m, u);
  }

  // ----- Steps -----

  datatype Event =
    | MarkSuccess(id: string, latencyMs: nat, height: Option<nat>)
    | MarkFailure(id: string, error: string, rateLimited: bool, now: nat)
    | Rank(kind: Kind, now: nat)

  // The first endpoint with the id among es[from..].
  function FindId(es: seq<Endpoint>, id: string, from: nat): (r: Option<nat>)
    requires from <= |es|
    ensures r.Some? ==> from <= r.value < |es| && es[r.value].config.id == id
    ensures r.Some? ==> forall j :: from <= j < r.value ==> es[j].config.id != id
    ensures r.None? ==> forall j :: from <= j < |es| ==> es[j].config.id != id
    decreases |es| - from
  {
    if from == |es| then None
    else if es[from].config.id == id then Some(from)
    else FindId(es, id, from + 1)
  }

  function Succeeded(e: Endpoint, latencyMs: nat, height: Option<nat>): Endpoint {
    e.(status := Healthy,
       latencyMs := Some(latencyMs),
       blockHeight := if height.Some? then height else e.blockHeight,
       consecutiveFailures := 0,
       lastError := None,
       rateLimitedUntil := None)
  }

  function Failed(e: Endpoint, error: string, rateLimited: bool, now: nat): Endpoint {
    var failures := e.consecutiveFailures + 1;
    if rateLimited then
      e.(consecutiveFailures := failures, lastError := Some(error),
         status := RateLimited, rateLimitedUntil := Some(now + RATE_LIMIT_COOLDOWN_MS))
    else
      e.(consecutiveFailures := failures, lastError := Some(error),
         status := if failures >= 2 then Unhealthy else Degraded)
  }

  function Apply(es: seq<Endpoint>, ev: Event): (r: seq<Endpoint>)
    ensures |r| == |es|
  {
    match ev
    case MarkSuccess(id, latencyMs, height) =>
      var k := FindId(es, id, 0);
      if k.None? then es else es[k.value := Succeeded(es[k.value], latencyMs, height)]
    case MarkFailure(id, error, rateLimited, now) =>
      var k := FindId(es, id, 0);
      if k.None? then es else es[k.value := Failed(es[k.value], error, rateLimited, now)]
    case Rank(kind, now) => RankEffect(es, kind, now)
  }

  function ApplyAll(es: seq<Endpoint>, log: seq<Event>): (r: seq<Endpoint>)
    ensures |r| == |es|
  {
    if log == [] then es else Apply(ApplyAll(es, log[..|log| - 1]), log[|log| - 1])
  }

  function Initial(configs: seq<Config>): (es: seq<Endpoint>)
    ensures |es| == |configs|
  {
    seq(|configs|, i requires 0 <= i < |configs| =>
      Endpoint(configs[i], Degraded, None, None, 0, None, None, 0.0))
  }

  // ----- Conservation -----

  // The balances of one kind, with zeros elsewhere.
  function KindBalances(es: seq<Endpoint>, kind: Kind): (b: seq<real>)
    ensures |b| == |es|
  {
    seq(|es|, i requires 0 <= i < |es| => if es[i].config.kind == kind then es[i].routingBalance else 0.0)
  }

  lemma {:induction false} KindBalancesUpdate(es: seq<Endpoint>, kind: Kind, j: nat, e: Endpoint)
    requires j < |es| && e.config.kind == es[j].config.kind
    ensures Sum(KindBalances(es[j := e], kind)) ==
      Sum(KindBalances(es, kind)) + if e.config.kind == kind then e.routingBalance - es[j].routingBalance else 0.0
  {
    hide Sum;
    var b := KindBalances(es, kind);
    var x := if e.config.kind == kind then e.routingBalance else 0.0;
    assert KindBalances(es[j := e], kind) == b[j := x];
    SumUpdate(b, j, x);
  }

  lemma {:induction false} CreditSum(es: seq<Endpoint>, c: seq<nat>, n: nat, kind: Kind, kind': Kind)
    requires n <= |c| && Ascending(c)
    requires forall i :: 0 <= i < |c| ==> c[i] < |es| && es[c[i]].config.kind == kind
    ensures Sum(KindBalances(Credit(es, c, n), kind')) ==
      Sum(KindBalances(es, kind')) + if kind' == kind then Sum(WeightsOf(es, c)[..n]) else 0.0
  {
    hide EffectiveWeight, KindBalances;
    if n > 0 {
      CreditSum(es, c, n - 1, kind, kind');
      var rest := Credit(es, c, n - 1);
      var j := c[n - 1];
      CreditElement(es, c, n - 1, j);
      WeightIgnoresBalance(rest[j], es[j]);
      KindBalancesUpdate(rest, kind', j, Credit(es, c, n)[j]);
      assert WeightsOf(es, c)[..n][..n - 1] == WeightsOf(es, c)[..n - 1];
    }
  }

  lemma {:induction false} RankConserves(es: seq<Endpoint>, kind: Kind, now: nat, kind': Kind)
    ensures Sum(KindBalances(RankEffect(es, kind, now), kind')) == Sum(KindBalances(es, kind'))
  {
    hide EffectiveWeight, KindBalances, IsRoutable, Highest, LastMax, Sum;
    var c := Candidates(es, kind, now);
    if |c| >= 2 {
      CandidatesMembers(es, kind, now, |es|);
      forall i | 0 <= i < |c| ensures es[c[i]].config.kind == kind {
        assert c[i] in c;
      }
      CreditSum(es, c, |c|, kind, kind');
      assert WeightsOf(es, c)[..|c|] == WeightsOf(es, c);
      var s := Selected(es, c);
      CreditElement(es, c, |c|, s);
      KindBalancesUpdate(Credit(es, c, |c|), kind', s, RankEffect(es, kind, now)[s]);
    }
  }

  /** Under any interleaving of routing and health marks, the balances of each kind sum to zero. */
  lemma {:induction false} BalancesSumToZero(configs: seq<Config>, log: seq<Event>, kind: Kind)
    ensures Sum(KindBalances(ApplyAll(Initial(configs), log), kind)) == 0.0
  {
    hide KindBalances, RankEffect, Sum;
    if log == [] {
      InitialSum(configs, kind);
    } else {
      BalancesSumToZero(configs, log[..|log| - 1], kind);
      var es := ApplyAll(Initial(configs), log[..|log| - 1]);
      match log[|log| - 1]
      case MarkSuccess(id, latencyMs, height) =>
        var k := FindId(es, id, 0);
        if k.Some? {
          KindBalancesUpdate(es, kind, k.value, Succeeded(es[k.value], latencyMs, height));
        }
      case MarkFailure(id, error, rateLimited, now) =>
        var k := FindId(es, id, 0);
        if k.Some? {
          KindBalancesUpdate(es, kind, k.value, Failed(es[k.value], error, rateLimited, now));
        }
      case Rank(kind', now) => RankConserves(es, kind', now, kind);
    }
  }

  lemma {:induction false} InitialSum(configs: seq<Config>, kind: Kind)
    ensures Sum(KindBalances(Initial(configs), kind)) == 0.0
  {
    SumZeros(|configs|);
    assert KindBalances(Initial(configs), kind) == Zeros(|configs|);
  }

  // ----- Health -----

  // Failure marks of the id since its last success mark.
  function FailuresSince(log: seq<Event>, id: string): nat {
    if log == [] then 0
    else
      var init := log[..|log| - 1];
      match log[|log| - 1]
      case MarkSuccess(id', _, _) => if id' == id then 0 else FailuresSince(init, id)
      case MarkFailure(id', _, _, _) => FailuresSince(init, id) + if id' == id then 1 else 0
      case Rank(_, _) => FailuresSince(init, id)
  }

  predicate StatusFits(status: Status, failures: nat) {
    match status
    case Healthy => failures == 0
    case Degraded => failures <= 1
    case RateLimited => failures >= 1
    case Unhealthy => failures >= 2
  }

  ghost predicate DistinctIds(configs: seq<Config>) {
    forall i, j :: 0 <= i < j < |configs| ==> configs[i].id != configs[j].id
  }

  // Marks go to the first endpoint with an id; a later copy of the id gets none.
  ghost predicate IsFirst(configs: seq<Config>, j: nat)
    requires j < |configs|
  {
    forall i :: 0 <= i < j ==> configs[i].id != configs[j].id
  }

  ghost predicate HealthOf(configs: seq<Config>, e: Endpoint, log: seq<Event>, j: nat)
    requires j < |configs|
  {
    && e.config == configs[j]
    && (if IsFirst(configs, j)
        then e.consecutiveFailures == FailuresSince(log, configs[j].id) && StatusFits(e.status, e.consecutiveFailures)
        else SameButBalance(e, Initial(configs)[j]))
  }

  ghost predicate HealthAgrees(configs: seq<Config>, es: seq<Endpoint>, log: seq<Event>) {
    |es| == |configs| && forall j :: 0 <= j < |es| ==> HealthOf(configs, es[j], log, j)
  }

  /**
    In every reachable state the status reflects the failures since the last success; a
    later copy of an id keeps its initial health for ever.
  */
  lemma {:induction false} HealthInvariant(configs: seq<Config>, log: seq<Event>)
    ensures HealthAgrees(configs, ApplyAll(Initial(configs), log), log)
  {
    hide Apply, SameButBalance, HealthOf;
    if log == [] {
      forall j | 0 <= j < |configs| ensures HealthOf(configs, Initial(configs)[j], [], j) {
        InitialHealth(configs, j);
      }
    } else {
      var init := log[..|log| - 1];
      HealthInvariant(configs, init);
      var es := ApplyAll(Initial(configs), init);
      var fs := ApplyAll(Initial(configs), log);
      forall j | 0 <= j < |es| ensures HealthOf(configs, fs[j], log, j) {
        StepKeepsHealth(configs, es, log, j);
      }
    }
  }

  lemma {:induction false} InitialHealth(configs: seq<Config>, j: nat)
    requires j < |configs|
    ensures HealthOf(configs, Initial(configs)[j], [], j)
  {
  }

  lemma {:induction false} StepKeepsHealth(configs: seq<Config>, es: seq<Endpoint>, log: seq<Event>, j: nat)
    requires log != [] && HealthAgrees(configs, es, log[..|log| - 1]) && j < |es|
    ensures HealthOf(configs, Apply(es, log[|log| - 1])[j], log, j)
  {
    hide RankEffect, IsFirst;
    assert HealthOf(configs, es[j], log[..|log| - 1], j);
    assert forall i :: 0 <= i < |es| ==> HealthOf(configs, es[i], log[..|log| - 1], i);
    match log[|log| - 1]
    case MarkSuccess(id, latencyMs, height) =>
      OnlyTheNamed(configs, es, id, j);
    case MarkFailure(id, error, rateLimited, now) =>
      OnlyTheNamed(configs, es, id, j);
    case Rank(kind, now) =>
      RankElement(es, kind, now, j);
  }

  lemma {:induction false} BalanceOnly(a: Endpoint, b: Endpoint)
    requires SameButBalance(a, b)
    ensures a.config == b.config && a.consecutiveFailures == b.consecutiveFailures && a.status == b.status
    ensures a.blockHeight == b.blockHeight
  {
  }

  lemma {:induction false} OnlyTheNamed(configs: seq<Config>, es: seq<Endpoint>, id: string, j: nat)
    requires |es| == |configs| && j < |es|
    requires forall i :: 0 <= i < |es| ==> es[i].config == configs[i]
    ensures FindId(es, id, 0) == Some(j) <==> configs[j].id == id && IsFirst(configs, j)
  {
  }

  /**
    Whatever is ranked does not lag, and has failed at most once since its last success if
    it is the first with its id.
  */
  lemma {:induction false} RankedAreSound(configs: seq<Config>, log: seq<Event>, kind: Kind, now: nat, j: nat)
    requires j in Candidates(ApplyAll(Initial(configs), log), kind, now)
    ensures var es := ApplyAll(Initial(configs), log);
      && j < |es| && es[j].config.kind == kind
      && (IsFirst(configs, j) ==> FailuresSince(log, configs[j].id) <= 1)
      && (es[j].blockHeight.Some? ==>
            forall i :: 0 <= i < |es| && es[i].config.kind == kind && es[i].blockHeight.Some? ==>
              es[i].blockHeight.value - es[j].blockHeight.value <= MAX_BLOCK_LAG)
  {
    hide ApplyAll, FailuresSince;
    var es := ApplyAll(Initial(configs), log);
    HealthInvariant(configs, log);
    assert HealthOf(configs, es[j], log, j);
    CandidatesMembers(es, kind, now, |es|);
    RoutableIgnoresClock(es[j], Highest(es, kind, |es|), MAX_BLOCK_LAG, now);
  }

  /** A later copy of an id is a candidate of every ranking, in every state, whatever happens to its endpoint. */
  lemma {:induction false} CopiesAreAlwaysRanked(configs: seq<Config>, log: seq<Event>, now: nat, j: nat)
    requires j < |configs| && !IsFirst(configs, j)
    ensures j in Candidates(ApplyAll(Initial(configs), log), configs[j].kind, now)
  {
    hide ApplyAll, FailuresSince, IsFirst;
    var es := ApplyAll(Initial(configs), log);
    HealthInvariant(configs, log);
    assert HealthOf(configs, es[j], log, j);
    CandidatesMembers(es, configs[j].kind, now, |es|);
    RoutableIgnoresClock(es[j], Highest(es, configs[j].kind, |es|), MAX_BLOCK_LAG, now);
  }

  // In every run, whatever is ranked has failed at most once since its last success.
  ghost predicate AlwaysSound(configs: seq<Config>) {
    forall log: seq<Event>, kind: Kind, now: nat, j: nat | j < |configs| ::
      j in Candidates(ApplyAll(Initial(configs), log), kind, now) ==> FailuresSince(log, configs[j].id) <= 1
  }

  /** So this holds for a configuration if and only if it lists no id twice. */
  lemma {:induction false} AlwaysSoundIff(configs: seq<Config>)
    ensures AlwaysSound(configs) <==> DistinctIds(configs)
  {
    hide ApplyAll, Candidates;
    if DistinctIds(configs) {
      forall log: seq<Event>, kind: Kind, now: nat, j: nat |
        j < |configs| && j in Candidates(ApplyAll(Initial(configs), log), kind, now)
        ensures FailuresSince(log, configs[j].id) <= 1
      {
        RankedAreSound(configs, log, kind, now, j);
      }
    } else {
      var i, j :| 0 <= i < j < |configs| && configs[i].id == configs[j].id;
      var failure := MarkFailure(configs[j].id, "", false, 0);
      var log := [failure, failure];
      assert log[..1] == [failure] && [failure][..0] == [];
      assert FailuresSince([], configs[j].id) == 0;
      assert FailuresSince([failure], configs[j].id) == 1;
      assert FailuresSince(log, configs[j].id) == 2;
      CopiesAreAlwaysRanked(configs, log, 0, j);
    }
  }

  // ----- What an endpoint remembers -----

  predicate IsMarkOf(ev: Event, id: string) {
    !ev.Rank? && ev.id == id
  }

  function LastMark(log: seq<Event>, id: string): Option<Event> {
    if log == [] then None
    else if IsMarkOf(log[|log| - 1], id) then Some(log[|log| - 1]) else LastMark(log[..|log| - 1], id)
  }

  // The latency of the last success.
  function LastLatency(log: seq<Event>, id: string): Option<nat> {
    if log == [] then None
    else
      var ev := log[|log| - 1];
      if ev.MarkSuccess? && ev.id == id then Some(ev.latencyMs) else LastLatency(log[..|log| - 1], id)
  }

  // The height of the last success that carried one.
  function LastHeight(log: seq<Event>, id: string): Option<nat> {
    if log == [] then None
    else
      var ev := log[|log| - 1];
      if ev.MarkSuccess? && ev.id == id && ev.height.Some? then ev.height else LastHeight(log[..|log| - 1], id)
  }

  // When the last rate limit since the last success ends.
  function LastCooldown(log: seq<Event>, id: string): Option<nat> {
    if log == [] then None
    else
      var ev := log[|log| - 1];
      if ev.MarkSuccess? && ev.id == id then None
      else if ev.MarkFailure? && ev.id == id && ev.rateLimited then Some(ev.now + 60_000)
      else LastCooldown(log[..|log| - 1], id)
  }

  // An unmarked endpoint is Degraded; otherwise the last mark and the failures since the last success decide.
  ghost predicate StatusAfter(status: Status, last: Option<Event>, failures: nat) {
    match status
    case Healthy => last.Some? && last.value.MarkSuccess?
    case RateLimited => last.Some? && last.value.MarkFailure? && last.value.rateLimited
    case Unhealthy => last.Some? && last.value.MarkFailure? && !last.value.rateLimited && failures >= 2
    case Degraded => last.None? || (last.value.MarkFailure? && !last.value.rateLimited && failures == 1)
  }

  ghost predicate Remembers(e: Endpoint, log: seq<Event>, id: string) {
    && e.latencyMs == LastLatency(log, id)
    && e.blockHeight == LastHeight(log, id)
    && e.consecutiveFailures == FailuresSince(log, id)
    && e.rateLimitedUntil == LastCooldown(log, id)
    && StatusAfter(e.status, LastMark(log, id), FailuresSince(log, id))
    && (e.lastError.Some? <==> LastMark(log, id).Some? && LastMark(log, id).value.MarkFailure?)
    && (e.lastError.Some? ==> e.lastError.value == LastMark(log, id).value.error)
  }

  lemma {:induction false} StepKeepsMemory(e: Endpoint, init: seq<Event>, ev: Event, id: string)
    requires Remembers(e, init, id)
    ensures ev.MarkSuccess? && ev.id == id ==> Remembers(Succeeded(e, ev.latencyMs, ev.height), init + [ev], id)
    ensures ev.MarkFailure? && ev.id == id ==>
      Remembers(Failed(e, ev.error, ev.rateLimited, ev.now), init + [ev], id)
    ensures !IsMarkOf(ev, id) ==> Remembers(e, init + [ev], id)
  {
    assert (init + [ev])[..|init|] == init;
  }

  lemma {:induction false} MemoryIgnoresBalance(a: Endpoint, b: Endpoint, log: seq<Event>, id: string)
    requires SameButBalance(a, b) && Remembers(b, log, id)
    ensures Remembers(a, log, id)
  {
  }

  /** In every reachable state the first endpoint with an id has the exact health that the marks of the id say. */
  lemma {:induction false} HealthIsRemembered(configs: seq<Config>, log: seq<Event>, j: nat)
    requires j < |configs| && IsFirst(configs, j)
    ensures Remembers(ApplyAll(Initial(configs), log)[j], log, configs[j].id)
  {
    hide Remembers, RankEffect, IsFirst;
    var id := configs[j].id;
    if log == [] {
      NothingRemembered(configs, j);
    } else {
      var n := |log| - 1;
      var es, ev := ApplyAll(Initial(configs), log[..n]), log[n];
      HealthIsRemembered(configs, log[..n], j);
      HealthInvariant(configs, log[..n]);
      assert forall i :: 0 <= i < |es| ==> HealthOf(configs, es[i], log[..n], i);
      StepKeepsMemory(es[j], log[..n], ev, id);
      assert log == log[..n] + [ev];
      match ev
      case MarkSuccess(id', _, _) => OnlyTheNamed(configs, es, id', j);
      case MarkFailure(id', _, _, _) => OnlyTheNamed(configs, es, id', j);
      case Rank(kind, now) =>
        RankElement(es, kind, now, j);
        MemoryIgnoresBalance(RankEffect(es, kind, now)[j], es[j], log, id);
    }
  }

  lemma {:induction false} NothingRemembered(configs: seq<Config>, j: nat)
    requires j < |configs|
    ensures Remembers(Initial(configs)[j], [], configs[j].id)
  {
  }

  ghost predicate SucceedsIn(evs: seq<Event>, id: string) {
    exists i :: 0 <= i < |evs| && evs[i].MarkSuccess? && evs[i].id == id
  }

  predicate Excluded(status: Status) { status == Unhealthy || status == RateLimited }

  lemma {:induction false} StepKeepsExcluded(configs: seq<Config>, log: seq<Event>, es: seq<Endpoint>, ev: Event,
                                             j: nat)
    requires HealthAgrees(configs, es, log) && j < |es|
    requires Excluded(es[j].status) && !(ev.MarkSuccess? && ev.id == configs[j].id)
    ensures Excluded(Apply(es, ev)[j].status)
  {
    hide RankEffect, FailuresSince;
    assert forall i :: 0 <= i < |es| ==> HealthOf(configs, es[i], log, i);
    match ev
    case MarkSuccess(id, _, _) => OnlyTheNamed(configs, es, id, j);
    case MarkFailure(id, _, _, _) => OnlyTheNamed(configs, es, id, j);
    case Rank(kind, now) =>
      RankElement(es, kind, now, j);
      BalanceOnly(RankEffect(es, kind, now)[j], es[j]);
  }

  lemma {:induction false} ExcludedIsUnranked(es: seq<Endpoint>, j: nat, kind: Kind, now: nat)
    requires j < |es| && Excluded(es[j].status)
    ensures j !in Candidates(es, kind, now)
  {
    CandidatesMembers(es, kind, now, |es|);
  }

  /**
    An excluded endpoint stays out of every ranking, at every instant, until a success mark
    of that endpoint.
  */
  lemma {:induction false} NoReadmissionWithoutSuccess(configs: seq<Config>, log: seq<Event>, evs: seq<Event>, j: nat)
    requires j < |configs|
    requires Excluded(ApplyAll(Initial(configs), log)[j].status)
    requires !SucceedsIn(evs, configs[j].id)
    ensures Excluded(ApplyAll(Initial(configs), log + evs)[j].status)
    ensures forall kind, now :: j !in Candidates(ApplyAll(Initial(configs), log + evs), kind, now)
  {
    hide Apply, Candidates, Excluded;
    if evs == [] {
      assert log + evs == log;
    } else {
      var n := |evs| - 1;
      assert (log + evs)[..|log + evs| - 1] == log + evs[..n];
      assert forall i :: 0 <= i < n ==> evs[..n][i] == evs[i];
      NoReadmissionWithoutSuccess(configs, log, evs[..n], j);
      HealthInvariant(configs, log + evs[..n]);
      StepKeepsExcluded(configs, log + evs[..n], ApplyAll(Initial(configs), log + evs[..n]), evs[n], j);
    }
    forall kind, now ensures j !in Candidates(ApplyAll(Initial(configs), log + evs), kind, now) {
      ExcludedIsUnranked(ApplyAll(Initial(configs), log + evs), j, kind, now);
    }
  }

  // ----- The pool object -----

  predicate OccursAt(s: string, p: string, i: nat) {
    i + |p| <= |s| && s[i..i + |p|] == p
  }

  predicate Contains(s: string, p: string) {
    exists i :: 0 <= i <= |s| && OccursAt(s, p, i)
  }

  datatype Outcome<T> = Ok(value: T) | Err(message: string)

  datatype CallResult<T> =
    | Value(value: T)
    | NoHealthyEndpoints(kind: Kind)
    | AllEndpointsFailed(kind: Kind, errors: seq<string>)

  // What trying endpoint e with this outcome writes back.
  function AttemptEvent<T>(e: Endpoint, o: Outcome<T>, latencyMs: nat, now: nat): Event {
    if o.Ok? then MarkSuccess(e.config.id, latencyMs, None)
    else MarkFailure(e.config.id, o.message, Contains(o.message, "rate limited"), now)
  }

  /**
    What an attempt does to the endpoint it names: a success makes it Healthy with the measured
    latency; a failure whose text holds "rate limited" makes it RateLimited, any other one
    Degraded, or Unhealthy from the second in a row.
  */
  lemma {:induction false} AttemptOutcome<T>(es: seq<Endpoint>, e: Endpoint, o: Outcome<T>, latencyMs: nat, now: nat,
                                             j: nat)
    requires FindId(es, e.config.id, 0) == Some(j)
    ensures var e' := Apply(es, AttemptEvent(e, o, latencyMs, now))[j];
      match o
      case Ok(_) => e'.status == Healthy && e'.latencyMs == Some(latencyMs) && e'.consecutiveFailures == 0
      case Err(message) =>
        && e'.lastError == Some(message) && e'.consecutiveFailures == es[j].consecutiveFailures + 1
        && (e'.status == RateLimited <==> exists a, b :: message == a + "rate limited" + b)
        && (e'.status == Unhealthy <==> e'.status != RateLimited && es[j].consecutiveFailures >= 1)
        && (e'.status == Degraded <==> e'.status != RateLimited && es[j].consecutiveFailures == 0)
  {
    if o.Err? {
      ContainsIff(o.message, "rate limited");
    }
  }

  lemma {:induction false} ContainsIff(s: string, p: string)
    ensures Contains(s, p) <==> exists a, b :: s == a + p + b
  {
    if Contains(s, p) {
      var i :| 0 <= i <= |s| && OccursAt(s, p, i);
      assert s == s[..i] + p + s[i + |p|..];
    }
    if a, b :| s == a + p + b {
      assert OccursAt(s, p, |a|);
    }
  }

  // The first n attempts; others(i) are the steps of other callers while attempt i is in flight.
  function AttemptEvents<T>(ranked: seq<Endpoint>, outcome: nat -> Outcome<T>, latencyMs: nat -> nat,
                            clock: nat -> nat, others: nat -> seq<Event>, n: nat): seq<Event>
    requires n <= |ranked|
  {
    if n == 0 then []
    else
      var last := AttemptEvent(ranked[n - 1], outcome(n - 1), latencyMs(n - 1), clock(n - 1));
      AttemptEvents(ranked, outcome, latencyMs, clock, others, n - 1) + others(n - 1) + [last]
  }

  function ErrorLine(e: Endpoint, message: string): string {
    e.config.id + ": " + message
  }

  function Pick(es: seq<Endpoint>, order: seq<nat>): (r: seq<Endpoint>)
    requires forall i :: 0 <= i < |order| ==> order[i] < |es|
    ensures |r| == |order| && forall i :: 0 <= i < |order| ==> r[i] == es[order[i]]
  {
    seq(|order|, i requires 0 <= i < |order| => es[order[i]])
  }

  lemma {:induction false} RankingInRange(c: seq<nat>, order: seq<nat>, n: nat)
    requires multiset(order) == multiset(c) && forall i :: 0 <= i < |c| ==> c[i] < n
    ensures |order| == |c| && forall i :: 0 <= i < |order| ==> order[i] < n
  {
    assert |order| == |multiset(order)| == |multiset(c)| == |c|;
    forall i | 0 <= i < |order| ensures order[i] < n {
      assert order[i] in multiset(order);
      assert order[i] in c;
    }
  }

  class Pool {
    var endpoints: seq<Endpoint>

    constructor (configs: seq<Config>)
      ensures endpoints == Initial(configs)
    {
      endpoints := Initial(configs);
    }

    method RankedHealthy(kind: Kind, now: nat) returns (ranked: seq<Endpoint>, order: seq<nat>)
      modifies this
      ensures endpoints == Apply(old(endpoints), Rank(kind, now))
      ensures IsRanking(old(endpoints), kind, now, order)
      ensures multiset(order) == multiset(Candidates(old(endpoints), kind, now))
      ensures forall i :: 0 <= i < |order| ==> order[i] < |endpoints|
      ensures ranked == Pick(endpoints, order)
    {
      hide Candidates, WeightsOf, BalancesOf, LastMax, Sum, StablySorted, RankKey;
      var c := Candidates(endpoints, kind, now);
      if |c| <= 1 {
        order := c;
      } else {
        var before := endpoints;
        var s := Rebalance(c);
        order := SortBy(c, RankKey(before, s));
      }
      RankingInRange(c, order, |endpoints|);
      ranked := Pick(endpoints, order);
    }

    // Credits every candidate, then charges the one with the largest balance.
    method Rebalance(c: seq<nat>) returns (s: nat)
      requires c != [] && forall i :: 0 <= i < |c| ==> c[i] < |endpoints|
      modifies this
      ensures s == Selected(old(endpoints), c)
      ensures var credited := Credit(old(endpoints), c, |c|);
        endpoints == credited[s := credited[s].(routingBalance :=
          credited[s].routingBalance - Sum(WeightsOf(old(endpoints), c)))]
    {
      hide EffectiveWeight, LastMax, Sum;
      ghost var es := endpoints;
      var totalWeight := Sum(WeightsOf(endpoints, c));
      for i := 0 to |c|
        invariant endpoints == Credit(es, c, i)
      {
        var e := endpoints[c[i]];
        endpoints := endpoints[c[i] := e.(routingBalance := e.routingBalance + EffectiveWeight(e))];
      }
      s := MaxBalance(c);
      endpoints := endpoints[s := endpoints[s].(routingBalance := endpoints[s].routingBalance - totalWeight)];
    }

    // max_by over the candidates: the last of the largest balances.
    method MaxBalance(c: seq<nat>) returns (s: nat)
      requires c != [] && forall i :: 0 <= i < |c| ==> c[i] < |endpoints|
      ensures s == c[LastMax(BalancesOf(endpoints, c))]
    {
      var b := BalancesOf(endpoints, c);
      var k := 0;
      for i := 1 to |c|
        invariant k < i
        invariant forall j :: 0 <= j < i ==> b[j] <= b[k]
        invariant forall j :: k < j < i ==> b[j] < b[k]
      {
        if endpoints[c[k]].routingBalance <= endpoints[c[i]].routingBalance {
          k := i;
        }
      }
      s := c[k];
    }

    method MarkSuccess(id: string, latencyMs: nat, height: Option<nat>)
      modifies this
      ensures endpoints == Apply(old(endpoints), Event.MarkSuccess(id, latencyMs, height))
    {
      var k := Find(id);
      if k.Some? {
        endpoints := endpoints[k.value := Succeeded(endpoints[k.value], latencyMs, height)];
      }
    }

    method MarkFailure(id: string, error: string, rateLimited: bool, now: nat)
      modifies this
      ensures endpoints == Apply(old(endpoints), Event.MarkFailure(id, error, rateLimited, now))
    {
      var k := Find(id);
      if k.Some? {
        endpoints := endpoints[k.value := Failed(endpoints[k.value], error, rateLimited, now)];
      }
    }

    method Find(id: string) returns (k: Option<nat>)
      ensures k == FindId(endpoints, id, 0)
    {
      for i := 0 to |endpoints|
        invariant FindId(endpoints, id, 0) == FindId(endpoints, id, i)
      {
        if endpoints[i].config.id == id {
          return Some(i);
        }
      }
      return None;
    }

    /**
      Failover. The i-th attempt yields outcome(i), and others(i) happen while it is in flight.
      The endpoints tried are the ranked prefix up to the first success; each is marked
      once; an error is returned only when every candidate failed.
    */
    method WithEndpoint<T>(kind: Kind, outcome: nat -> Outcome<T>, latencyMs: nat -> nat, clock: nat -> nat,
                           others: nat -> seq<Event>)
        returns (r: CallResult<T>, ranked: seq<Endpoint>, order: seq<nat>, tried: nat)
      modifies this
      ensures IsRanking(old(endpoints), kind, clock(0), order)
      ensures forall i :: 0 <= i < |order| ==> order[i] < |old(endpoints)|
      ensures ranked == Pick(RankEffect(old(endpoints), kind, clock(0)), order)
      ensures tried <= |ranked|
      ensures endpoints == ApplyAll(old(endpoints),
                [Rank(kind, clock(0))] + AttemptEvents(ranked, outcome, latencyMs, clock, others, tried)
                + if r.Value? then [] else others(tried) + [Rank(kind, clock(tried))])
      ensures match r
        case Value(v) => 0 < tried && outcome(tried - 1) == Ok(v) && forall i :: 0 <= i < tried - 1 ==> outcome(i).Err?
        case NoHealthyEndpoints(k) => k == kind && ranked == []
        case AllEndpointsFailed(k, errors) =>
          && k == kind && ranked != [] && tried == |ranked| == |errors|
          && forall i :: 0 <= i < tried ==>
               outcome(i).Err? && errors[i] == ranked[i].config.id + ": " + outcome(i).message
    {
      hide Apply, IsRanking, Candidates, AttemptEvents, RankEffect, ApplyAll;
      ghost var start := endpoints;
      RankIsEffect(start, kind, clock(0));
      ranked, order := RankedHealthy(kind, clock(0));
      var found, errors;
      tried, found, errors := TryInOrder(ranked, outcome, latencyMs, clock, others);
      ghost var log := [Rank(kind, clock(0))] + AttemptEvents(ranked, outcome, latencyMs, clock, others, tried);
      ApplyAllOne(start, Rank(kind, clock(0)));
      ApplyAllConcat(start, [Rank(kind, clock(0))], AttemptEvents(ranked, outcome, latencyMs, clock, others, tried));
      if found.Some? {
        assert log + [] == log;
        return Value(found.value), ranked, order, tried;
      }
      endpoints := ApplyAll(endpoints, others(tried));
      ApplyAllConcat(start, log, others(tried));
      ApplyAllSnoc(start, log + others(tried), Rank(kind, clock(tried)));
      assert log + others(tried) + [Rank(kind, clock(tried))] == log + (others(tried) + [Rank(kind, clock(tried))]);
      var _, _ := RankedHealthy(kind, clock(tried));
      r := if ranked == [] then NoHealthyEndpoints(kind) else AllEndpointsFailed(kind, errors);
    }

    // The loop over the candidates, up to the first success.
    method TryInOrder<T>(ranked: seq<Endpoint>, outcome: nat -> Outcome<T>, latencyMs: nat -> nat, clock: nat -> nat,
                         others: nat -> seq<Event>)
        returns (tried: nat, found: Option<T>, errors: seq<string>)
      modifies this
      ensures tried <= |ranked|
      ensures endpoints == ApplyAll(old(endpoints), AttemptEvents(ranked, outcome, latencyMs, clock, others, tried))
      ensures found.Some? ==> 0 < tried && outcome(tried - 1) == Ok(found.value) && |errors| == tried - 1
      ensures found.None? ==> tried == |ranked| == |errors|
      ensures forall i :: 0 <= i < |errors| ==> outcome(i).Err? && errors[i] == ErrorLine(ranked[i], outcome(i).message)
    {
      hide Apply, ApplyAll, AttemptEvent, AttemptEvents, ErrorLine;
      ghost var start := endpoints;
      NoAttempt(start, ranked, outcome, latencyMs, clock, others);
      tried, errors := 0, [];
      while tried < |ranked|
        invariant tried <= |ranked| && |errors| == tried
        invariant forall i :: 0 <= i < tried ==>
          outcome(i).Err? && errors[i] == ErrorLine(ranked[i], outcome(i).message)
        invariant endpoints == ApplyAll(start, AttemptEvents(ranked, outcome, latencyMs, clock, others, tried))
      {
        var e, o := ranked[tried], outcome(tried);
        endpoints := ApplyAll(endpoints, others(tried));
        Attempt(e, o, latencyMs(tried), clock(tried));
        NextAttempt(start, ranked, outcome, latencyMs, clock, others, tried);
        tried := tried + 1;
        if o.Ok? {
          found := Some(o.value);
          return;
        }
        errors := errors + [ErrorLine(e, o.message)];
      }
      found := None;
    }

    // Records the outcome of one attempt.
    method Attempt<T>(e: Endpoint, o: Outcome<T>, latencyMs: nat, now: nat)
      modifies this
      ensures endpoints == Apply(old(endpoints), AttemptEvent(e, o, latencyMs, now))
    {
      match o
      case Ok(_) =>
        MarkSuccess(e.config.id, latencyMs, None);
      case Err(message) =>
        MarkFailure(e.config.id, message, Contains(message, "rate limited"), now);
    }
  }

  lemma {:induction false} RankIsEffect(es: seq<Endpoint>, kind: Kind, now: nat)
    ensures Apply(es, Rank(kind, now)) == RankEffect(es, kind, now)
  {
  }

  lemma {:induction false} ApplyAllNone(es: seq<Endpoint>)
    ensures ApplyAll(es, []) == es
  {
  }

  lemma {:induction false} NoAttempt<T>(es: seq<Endpoint>, ranked: seq<Endpoint>, outcome: nat -> Outcome<T>,
                                        latencyMs: nat -> nat, clock: nat -> nat, others: nat -> seq<Event>)
    ensures ApplyAll(es, AttemptEvents(ranked, outcome, latencyMs, clock, others, 0)) == es
  {
    ApplyAllNone(es);
  }

  lemma {:induction false} NextAttempt<T>(es: seq<Endpoint>, ranked: seq<Endpoint>, outcome: nat -> Outcome<T>,
                                          latencyMs: nat -> nat, clock: nat -> nat, others: nat -> seq<Event>, n: nat)
    requires n < |ranked|
    ensures ApplyAll(es, AttemptEvents(ranked, outcome, latencyMs, clock, others, n + 1)) ==
      Apply(ApplyAll(ApplyAll(es, AttemptEvents(ranked, outcome, latencyMs, clock, others, n)), others(n)),
            AttemptEvent(ranked[n], outcome(n), latencyMs(n), clock(n)))
  {
    hide Apply, ApplyAll, AttemptEvent;
    var evs := AttemptEvents(ranked, outcome, latencyMs, clock, others, n);
    ApplyAllConcat(es, evs, others(n));
    ApplyAllSnoc(es, evs + others(n), AttemptEvent(ranked[n], outcome(n), latencyMs(n), clock(n)));
  }

  lemma {:induction false} ApplyAllOne(es: seq<Endpoint>, ev: Event)
    ensures ApplyAll(es, [ev]) == Apply(es, ev)
  {
    ApplyAllSnoc(es, [], ev);
    assert [] + [ev] == [ev];
  }

  lemma {:induction false} ApplyAllConcat(es: seq<Endpoint>, log: seq<Event>, evs: seq<Event>)
    ensures ApplyAll(es, log + evs) == ApplyAll(ApplyAll(es, log), evs)
  {
    hide Apply;
    if evs == [] {
      assert log + evs == log;
    } else {
      var n := |evs| - 1;
      assert log + evs == (log + evs[..n]) + [evs[n]];
      ApplyAllSnoc(es, log + evs[..n], evs[n]);
      ApplyAllConcat(es, log, evs[..n]);
    }
  }

  lemma {:induction false} ApplyAllSnoc(es: seq<Endpoint>, evs: seq<Event>, ev: Event)
    ensures ApplyAll(es, evs + [ev]) == Apply(ApplyAll(es, evs), ev)
  {
    assert (evs + [ev])[..|evs|] == evs;
  }

  /** The leader of a ranking comes first, and every candidate appears exactly once. */
  lemma {:induction false} RankingLedBySelected(es: seq<Endpoint>, kind: Kind, now: nat, order: seq<nat>)
    requires IsRanking(es, kind, now, order) && |Candidates(es, kind, now)| >= 2
    ensures |order| == |Candidates(es, kind, now)| && order[0] == Selected(es, Candidates(es, kind, now))
    ensures forall i, j :: 0 <= i < j < |order| ==> order[i] != order[j]
    ensures forall i, j :: 0 < i < j < |order| && order[i] < |es| && order[j] < |es| ==>
      EffectiveWeight(es[order[i]]) >= EffectiveWeight(es[order[j]])
  {
    hide EffectiveWeight, CandidatesUpTo, LastMax;
    var c := Candidates(es, kind, now);
    var s := Selected(es, c);
    var key := RankKey(es, s);
    CandidatesMembers(es, kind, now, |es|);
    StablySortedPermutes(c, key, order);
    assert multiset(c)[s] > 0;
    assert s in order;
    var k :| 0 <= k < |order| && order[k] == s;
    assert k > 0 ==> Leq(key(order[0]), key(order[k]));
    forall i, j | 0 <= i < j < |order| ensures order[i] != order[j] {
      DistinctByCount(c, order, i, j);
    }
    forall i, j | 0 < i < j < |order| && order[i] < |es| && order[j] < |es|
      ensures EffectiveWeight(es[order[i]]) >= EffectiveWeight(es[order[j]])
    {
      assert Leq(key(order[i]), key(order[j]));
      assert order[i] != s && order[j] != s;
    }
  }

  lemma {:induction false} DistinctByCount(c: seq<nat>, order: seq<nat>, i: nat, j: nat)
    requires Ascending(c) && multiset(order) == multiset(c) && i < j < |order|
    ensures order[i] != order[j]
  {
    if order[i] == order[j] {
      var x := order[i];
      assert order == order[..i] + [x] + order[i + 1..j] + [x] + order[j + 1..];
      assert multiset(c)[x] >= 2;
      AscendingCount(c, x);
      assert false;
    }
  }

  lemma {:induction false} AscendingCount(c: seq<nat>, x: nat)
    requires Ascending(c)
    ensures multiset(c)[x] <= 1
  {
    if c != [] {
      var n := |c| - 1;
      AscendingCount(c[..n], x);
      assert c == c[..n] + [c[n]];
      if c[n] == x {
        assert x !in c[..n];
      }
    }
  }
}
