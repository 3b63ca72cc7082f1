/**
  Smooth weighted round robin, the selection rule inside `ranked_healthy` of rpc_pool.rs,
  over exact reals: every candidate is credited its weight, the largest balance leads and
  is charged the total weight.
*/
module RoundRobin {

  function Sum(xs: seq<real>): real {
    if xs == [] then 0.0 else Sum(xs[..|xs| - 1]) + xs[|xs| - 1]
  }

  lemma {:induction false} SumConcat(xs: seq<real>, ys: seq<real>)
    ensures Sum(xs + ys) == Sum(xs) + Sum(ys)
  {
    if ys == [] {
      assert xs + ys == xs;
    } else {
      assert (xs + ys)[..|xs + ys| - 1] == xs + ys[..|ys| - 1];
      SumConcat(xs, ys[..|ys| - 1]);
    }
  }

  lemma {:induction false} SumSplit(xs: seq<real>, i: nat)
    requires i < |xs|
    ensures Sum(xs) == Sum(xs[..i]) + xs[i] + Sum(xs[i + 1..])
  {
    assert xs == xs[..i] + [xs[i]] + xs[i + 1..];
    SumConcat(xs[..i] + [xs[i]], xs[i + 1..]);
    SumConcat(xs[..i], [xs[i]]);
    assert [xs[i]][..0] == [];
    assert Sum([xs[i]]) == xs[i];
  }

  lemma {:induction false} SumUpdate(xs: seq<real>, i: nat, x: real)
    requires i < |xs|
    ensures Sum(xs[i := x]) == Sum(xs) - xs[i] + x
  {
    SumSplit(xs, i);
    SumSplit(xs[i := x], i);
    assert xs[i := x][..i] == xs[..i] && xs[i := x][i + 1..] == xs[i + 1..];
  }

  lemma {:induction false} SumAbove(xs: seq<real>, low: real)
    requires forall i :: 0 <= i < |xs| ==> xs[i] >= low
    ensures Sum(xs) >= |xs| as real * low
    ensures xs != [] && (forall i :: 0 <= i < |xs| ==> xs[i] > low) ==> Sum(xs) > |xs| as real * low
  {
    if xs != [] {
      var n := |xs| - 1;
      SumAbove(xs[..n], low);
      assert |xs| as real * low == n as real * low + low;
    }
  }

  lemma {:induction false} SumNonPositive(xs: seq<real>)
    requires forall i :: 0 <= i < |xs| ==> xs[i] <= 0.0
    ensures Sum(xs) <= 0.0
  {
    if xs != [] {
      SumNonPositive(xs[..|xs| - 1]);
    }
  }

  function AddAll(xs: seq<real>, ys: seq<real>): (r: seq<real>)
    requires |xs| == |ys|
    ensures |r| == |xs|
  {
    seq(|xs|, i requires 0 <= i < |xs| => xs[i] + ys[i])
  }

  lemma {:induction false} SumAddAll(xs: seq<real>, ys: seq<real>)
    requires |xs| == |ys|
    ensures Sum(AddAll(xs, ys)) == Sum(xs) + Sum(ys)
  {
    if xs != [] {
      var n := |xs| - 1;
      SumAddAll(xs[..n], ys[..n]);
      assert AddAll(xs, ys)[..n] == AddAll(xs[..n], ys[..n]);
    }
  }

  // Iterator::max_by keeps the last of several maxima.
  function LastMax(xs: seq<real>): (i: nat)
    requires xs != []
    ensures i < |xs|
    ensures forall j :: 0 <= j < |xs| ==> xs[j] <= xs[i]
    ensures forall j :: i < j < |xs| ==> xs[j] < xs[i]
  {
    if |xs| == 1 then 0
    else
      var n := |xs| - 1;
      var i := LastMax(xs[..n]);
      assert forall j :: 0 <= j < n ==> xs[..n][j] == xs[j];
      if xs[i] <= xs[n] then n else i
  }

  // The candidate that leads the next call.
  function Leader(balance: seq<real>, w: seq<real>): (i: nat)
    requires |balance| == |w| > 0
    ensures i < |w|
  {
    LastMax(AddAll(balance, w))
  }

  function Step(balance: seq<real>, w: seq<real>): (r: seq<real>)
    requires |balance| == |w| > 0
    ensures |r| == |w|
  {
    var b := AddAll(balance, w);
    var i := LastMax(b);
    b[i := b[i] - Sum(w)]
  }

  // Balances and how often each candidate has led.
  datatype Schedule = Schedule(balance: seq<real>, led: seq<nat>)

  function Advance(s: Schedule, w: seq<real>): (r: Schedule)
    requires |s.balance| == |s.led| == |w| > 0
    ensures |r.balance| == |r.led| == |w|
  {
    var i := Leader(s.balance, w);
    Schedule(Step(s.balance, w), s.led[i := s.led[i] + 1])
  }

  function Zeros(n: nat): (r: seq<real>)
    ensures |r| == n
  {
    seq(n, i => 0.0)
  }

  function NoLeads(n: nat): (r: seq<nat>)
    ensures |r| == n
    ensures forall i :: 0 <= i < n ==> r[i] == 0
  {
    seq(n, i => 0)
  }

  // n calls from zero balances
  function Run(w: seq<real>, n: nat): (s: Schedule)
    requires w != []
    ensures |s.balance| == |s.led| == |w|
  {
    if n == 0 then Schedule(Zeros(|w|), NoLeads(|w|))
    else Advance(Run(w, n - 1), w)
  }

  function Total(counts: seq<nat>): nat {
    if counts == [] then 0 else Total(counts[..|counts| - 1]) + counts[|counts| - 1]
  }

  lemma {:induction false} TotalIncrement(counts: seq<nat>, i: nat)
    requires i < |counts|
    ensures Total(counts[i := counts[i] + 1]) == Total(counts) + 1
  {
    var n := |counts| - 1;
    var c := counts[i := counts[i] + 1];
    if i == n {
      assert c[..n] == counts[..n];
    } else {
      assert c[..n] == counts[..n][i := counts[..n][i] + 1];
      TotalIncrement(counts[..n], i);
    }
  }

  ghost predicate Positive(w: seq<real>) {
    forall i :: 0 <= i < |w| ==> w[i] > 0.0
  }

  lemma {:induction false} SumZeros(n: nat)
    ensures Sum(Zeros(n)) == 0.0
  {
    if n > 0 {
      SumZeros(n - 1);
      assert Zeros(n)[..n - 1] == Zeros(n - 1);
    }
  }

  lemma {:induction false} SumPositive(w: seq<real>)
    requires w != [] && Positive(w)
    ensures Sum(w) > 0.0
  {
    SumAbove(w, 0.0);
  }

  // Whoever leads was strictly in credit.
  lemma {:induction false} LeaderInCredit(balance: seq<real>, w: seq<real>)
    requires |balance| == |w| > 0 && Positive(w) && Sum(balance) == 0.0
    ensures AddAll(balance, w)[Leader(balance, w)] > 0.0
  {
    var b := AddAll(balance, w);
    SumAddAll(balance, w);
    SumPositive(w);
    if b[LastMax(b)] <= 0.0 {
      SumNonPositive(b);
      assert false;
    }
  }

  /** One call keeps the balances summing to zero. */
  lemma {:induction false} StepConserves(balance: seq<real>, w: seq<real>)
    requires |balance| == |w| > 0
    ensures Sum(Step(balance, w)) == Sum(balance)
  {
    var b := AddAll(balance, w);
    SumAddAll(balance, w);
    SumUpdate(b, LastMax(b), b[LastMax(b)] - Sum(w));
  }

  // n credits of x less one charge of `total` per lead
  function Account(n: nat, x: real, total: real, led: nat): real {
    n as real * x - total * led as real
  }

  lemma {:induction false} AccountStep(n: nat, x: real, total: real, led: nat)
    requires n > 0
    ensures Account(n, x, total, led) == Account(n - 1, x, total, led) + x
    ensures Account(n, x, total, led + 1) == Account(n - 1, x, total, led) + x - total
  {
    assert n as real * x == (n - 1) as real * x + x by { assert n as real == (n - 1) as real + 1.0; }
    assert total * (led + 1) as real == total * led as real + total by {
      assert (led + 1) as real == led as real + 1.0;
    }
  }

  lemma {:induction false} AccountZero(x: real, total: real)
    ensures Account(0, x, total, 0) == 0.0
  {
  }

  // The state of the books after n calls.
  ghost predicate Balanced(s: Schedule, w: seq<real>, n: nat) {
    && |s.balance| == |s.led| == |w|
    && Sum(s.balance) == 0.0
    && Total(s.led) == n
    && (forall i :: 0 <= i < |w| ==> s.balance[i] == Account(n, w[i], Sum(w), s.led[i]))
    && (forall i :: 0 <= i < |w| ==> s.balance[i] > -Sum(w))
  }

  lemma {:induction false} AdvanceKeepsBalanced(s: Schedule, w: seq<real>, n: nat)
    requires w != [] && Positive(w) && Balanced(s, w, n)
    ensures Balanced(Advance(s, w), w, n + 1)
  {
    hide Account, Sum, Total, LastMax;
    SumPositive(w);
    StepConserves(s.balance, w);
    LeaderInCredit(s.balance, w);
    TotalIncrement(s.led, Leader(s.balance, w));
    var r := Advance(s, w);
    forall j | 0 <= j < |w|
      ensures r.balance[j] == Account(n + 1, w[j], Sum(w), r.led[j]) && r.balance[j] > -Sum(w)
    {
      AccountStep(n + 1, w[j], Sum(w), s.led[j]);
      assert s.balance[j] > -Sum(w);
    }
  }

  /** The exact account after n calls, and the lower bound on every balance. */
  lemma {:induction false} RunAccount(w: seq<real>, n: nat)
    requires w != [] && Positive(w)
    ensures Balanced(Run(w, n), w, n)
  {
    hide Account, Sum, Total, Balanced, Advance;
    if n == 0 {
      InitiallyBalanced(w);
    } else {
      RunAccount(w, n - 1);
      AdvanceKeepsBalanced(Run(w, n - 1), w, n - 1);
    }
  }

  lemma {:induction false} InitiallyBalanced(w: seq<real>)
    requires w != [] && Positive(w)
    ensures Balanced(Schedule(Zeros(|w|), NoLeads(|w|)), w, 0)
  {
    hide Account, Sum, Total;
    SumPositive(w);
    SumZeros(|w|);
    TotalZeros(|w|);
    forall i | 0 <= i < |w| ensures Account(0, w[i], Sum(w), 0) == 0.0 {
      AccountZero(w[i], Sum(w));
    }
  }

  lemma {:induction false} TotalZeros(n: nat)
    ensures Total(NoLeads(n)) == 0
  {
    if n > 0 {
      assert NoLeads(n)[..n - 1] == NoLeads(n - 1);
      TotalZeros(n - 1);
    }
  }

  // The exact fraction of n calls owed to weight x out of `total`.
  function Share(n: nat, x: real, total: real): real
    requires total > 0.0
  {
    n as real * x / total
  }

  /**
    Fairness: after n calls candidate i has led within one call above and |w|-1 calls
    below its exact share n w_i / W.
  */
  lemma {:induction false} FairShare(w: seq<real>, n: nat, i: nat)
    requires |w| >= 2 && Positive(w) && i < |w|
    ensures Sum(w) > 0.0
    ensures Share(n, w[i], Sum(w)) - (|w| - 1) as real < Run(w, n).led[i] as real < Share(n, w[i], Sum(w)) + 1.0
  {
    hide Account, Sum, Run, Share;
    RunAccount(w, n);
    SumPositive(w);
    var s := Run(w, n);
    OthersBound(s.balance, i, Sum(w));
    ShareBounds(n, w[i], Sum(w), s.led[i], |w| - 1);
  }

  // Balances above -total that sum to zero are also below (n-1) total.
  lemma {:induction false} OthersBound(b: seq<real>, i: nat, total: real)
    requires |b| >= 2 && i < |b| && Sum(b) == 0.0
    requires forall j :: 0 <= j < |b| ==> b[j] > -total
    ensures b[i] < (|b| - 1) as real * total
  {
    var others := b[..i] + b[i + 1..];
    SumSplit(b, i);
    SumConcat(b[..i], b[i + 1..]);
    SumAbove(others, -total);
    assert (|b| - 1) as real * -total == -((|b| - 1) as real * total);
  }

  lemma {:induction false} CancelFactor(a: real, b: real, t: real)
    requires t > 0.0 && a * t < b * t
    ensures a < b
  {
    assert a >= b ==> a * t >= b * t;
  }

  lemma {:induction false} ShareBounds(n: nat, x: real, total: real, led: nat, slack: nat)
    requires total > 0.0 && -total < Account(n, x, total, led) < slack as real * total
    ensures Share(n, x, total) - slack as real < led as real < Share(n, x, total) + 1.0
  {
    var q := Share(n, x, total);
    assert q * total == n as real * x;
    assert (q - led as real) * total == Account(n, x, total, led);
    CancelFactor(q - led as real, slack as real, total);
    CancelFactor(-1.0, q - led as real, total);
  }

  /**
    Exact periodicity: with weights m_i u, after sum m_i calls candidate i has led
    exactly m_i times and every balance is back to zero.
  */
  lemma {:induction false} ExactPeriod(w: seq<real>, m: seq<nat>, u: real)
    requires w != [] && |w| == |m| && u > 0.0 && Positive(w)
    requires forall i :: 0 <= i < |w| ==> w[i] == m[i] as real * u
    ensures Run(w, Total(m)).led == m
    ensures Run(w, Total(m)).balance == Zeros(|w|)
  {
    hide Account, Sum, Total, Run;
    var n := Total(m);
    var s := Run(w, n);
    RunAccount(w, n);
    SumOfMultiples(w, m, u);
    SumPositive(w);
    forall i | 0 <= i < |w| ensures s.led[i] <= m[i] {
      MultipleAccount(n, u, m[i], s.led[i], w[i], Sum(w));
    }
    EqualTotals(s.led, m);
    forall i | 0 <= i < |w| ensures s.balance[i] == 0.0 {
      MultipleAccount(n, u, m[i], m[i], w[i], Sum(w));
    }
  }

  lemma {:induction false} SumOfMultiples(w: seq<real>, m: seq<nat>, u: real)
    requires |w| == |m| && forall i :: 0 <= i < |w| ==> w[i] == m[i] as real * u
    ensures Sum(w) == Total(m) as real * u
  {
    if w != [] {
      var n := |w| - 1;
      SumOfMultiples(w[..n], m[..n], u);
      assert Total(m) as real == Total(m[..n]) as real + m[n] as real;
    }
  }

  // For weight m u and total n u, the account is (m - led) n u: zero when led = m, too low beyond.
  lemma {:induction false} MultipleAccount(n: nat, u: real, m: nat, led: nat, x: real, total: real)
    requires x == m as real * u && total == n as real * u && total > 0.0
    ensures Account(n, x, total, led) > -total ==> led <= m
    ensures led == m ==> Account(n, x, total, led) == 0.0
  {
    var d := m as real - led as real;
    assert Account(n, x, total, led) == d * total by {
      assert n as real * (m as real * u) == m as real * total;
    }
    if d * total > -total {
      CancelFactor(-1.0, d, total);
    }
  }

  lemma {:induction false} EqualTotals(a: seq<nat>, b: seq<nat>)
    requires |a| == |b| && Total(a) == Total(b)
    requires forall i :: 0 <= i < |a| ==> a[i] <= b[i]
    ensures a == b
  {
    if a != [] {
      var n := |a| - 1;
      TotalMonotone(a[..n], b[..n]);
      EqualTotals(a[..n], b[..n]);
      assert a == a[..n] + [a[n]] && b == b[..n] + [b[n]];
    }
  }

  lemma {:induction false} TotalMonotone(a: seq<nat>, b: seq<nat>)
    requires |a| == |b| && forall i :: 0 <= i < |a| ==> a[i] <= b[i]
    ensures Total(a) <= Total(b)
  {
    if a != [] {
      TotalMonotone(a[..|a| - 1], b[..|b| - 1]);
    }
  }
}
