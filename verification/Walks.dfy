/**
  Walks in the directed multigraph of `path_routing.rs`: weights, splitting at a
  repeated vertex, removal of cycles, and what it means to be a shortest distance.
*/
module Walks {

  // An asset is a code and an issuer; native XLM has an empty issuer.
  datatype Asset = Asset(code: string, issuer: string)

  datatype Edge = Edge(to: Asset, weight: real)

  // HashMap<Asset, Vec<GraphEdge>>: parallel edges are kept, in insertion order.
  type Graph = map<Asset, seq<Edge>>

  datatype Arc = Arc(from: Asset, to: Asset, weight: real)

  datatype Dist = Infinite | Finite(d: real)

  predicate Le(a: Dist, b: Dist) {
    b.Infinite? || (a.Finite? && a.d <= b.d)
  }

  function Plus(a: Dist, w: real): Dist {
    if a.Infinite? then Infinite else Finite(a.d + w)
  }

  predicate HasArc(g: Graph, a: Arc) {
    a.from in g && Edge(a.to, a.weight) in g[a.from]
  }

  ghost predicate Within(g: Graph, assets: set<Asset>) {
    forall a :: HasArc(g, a) ==> a.from in assets && a.to in assets
  }

  // `w` leads from `x` to `y` along arcs of `g`.
  ghost predicate IsWalk(g: Graph, x: Asset, y: Asset, w: seq<Arc>) {
    && (forall i :: 0 <= i < |w| ==> HasArc(g, w[i]))
    && (forall i, j :: 0 <= i && j == i + 1 < |w| ==> w[i].to == w[j].from)
    && if w == [] then x == y else w[0].from == x && w[|w| - 1].to == y
  }

  ghost function Weight(w: seq<Arc>): real {
    if w == [] then 0.0 else Weight(w[..|w| - 1]) + w[|w| - 1].weight
  }

  // The i-th vertex visited by a walk that starts in x.
  ghost function Vertex(x: Asset, w: seq<Arc>, i: nat): Asset
    requires i <= |w|
  {
    if i == 0 then x else w[i - 1].to
  }

  ghost predicate NegativeCycleAt(g: Graph, s: Asset, u: Asset, p: seq<Arc>, c: seq<Arc>) {
    IsWalk(g, s, u, p) && IsWalk(g, u, u, c) && Weight(c) < 0.0
  }

  ghost predicate NegativeCycleReachable(g: Graph, s: Asset) {
    exists u, p, c :: NegativeCycleAt(g, s, u, p, c)
  }

  // `d` is the least weight over all walks from `s` to `v`, infinite when there is none.
  ghost predicate IsShortest(g: Graph, s: Asset, v: Asset, d: Dist) {
    match d
    case Infinite => forall w :: !IsWalk(g, s, v, w)
    case Finite(r) =>
      && (exists w :: IsWalk(g, s, v, w) && Weight(w) == r)
      && (forall w :: IsWalk(g, s, v, w) ==> r <= Weight(w))
  }

  lemma {:induction false} ShortestUnique(g: Graph, s: Asset, v: Asset, d: Dist, e: Dist)
    requires IsShortest(g, s, v, d) && IsShortest(g, s, v, e)
    ensures d == e
  {
    if d.Finite? {
      var w :| IsWalk(g, s, v, w) && Weight(w) == d.d;
      assert e.Finite? && e.d <= d.d;
      var x :| IsWalk(g, s, v, x) && Weight(x) == e.d;
    }
  }

  lemma {:induction false} WeightConcat(p: seq<Arc>, q: seq<Arc>)
    ensures Weight(p + q) == Weight(p) + Weight(q)
  {
    if q == [] {
      assert p + q == p;
    } else {
      assert (p + q)[..|p + q| - 1] == p + q[..|q| - 1];
      WeightConcat(p, q[..|q| - 1]);
    }
  }

  lemma {:induction false} WalkConcat(g: Graph, x: Asset, y: Asset, z: Asset, p: seq<Arc>, q: seq<Arc>)
    requires IsWalk(g, x, y, p) && IsWalk(g, y, z, q)
    ensures IsWalk(g, x, z, p + q) && Weight(p + q) == Weight(p) + Weight(q)
  {
    WeightConcat(p, q);
    var w := p + q;
    forall i, j | 0 <= i && j == i + 1 < |w| ensures w[i].to == w[j].from {
      if j < |p| {
        assert w[i] == p[i] && w[j] == p[j];
      } else if i >= |p| {
        assert w[i] == q[i - |p|] && w[j] == q[j - |p|];
      }
    }
  }

  lemma {:induction false} WalkSplit(g: Graph, x: Asset, z: Asset, w: seq<Arc>, i: nat)
    requires IsWalk(g, x, z, w) && i <= |w|
    ensures IsWalk(g, x, Vertex(x, w, i), w[..i])
    ensures IsWalk(g, Vertex(x, w, i), z, w[i..])
    ensures Weight(w) == Weight(w[..i]) + Weight(w[i..])
  {
    assert w[..i] + w[i..] == w;
    WeightConcat(w[..i], w[i..]);
  }

  lemma {:induction false} WalkStaysWithin(g: Graph, assets: set<Asset>, x: Asset, y: Asset, w: seq<Arc>, i: nat)
    requires Within(g, assets) && x in assets && IsWalk(g, x, y, w) && i <= |w|
    ensures Vertex(x, w, i) in assets
  {
    if i > 0 {
      assert HasArc(g, w[i - 1]);
    }
  }

  // Pigeonhole: more entries than values means that one value repeats.
  lemma {:induction false} Pigeonhole<T>(s: seq<T>, values: set<T>) returns (i: nat, j: nat)
    requires forall k :: 0 <= k < |s| ==> s[k] in values
    requires |s| > |values|
    ensures i < j < |s| && s[i] == s[j]
  {
    var last := s[|s| - 1];
    if k :| 0 <= k < |s| - 1 && s[k] == last {
      i, j := k, |s| - 1;
    } else {
      i, j := Pigeonhole(s[..|s| - 1], values - {last});
    }
  }

  // Cuts one cycle out of a walk that is at least as long as the number of assets.
  lemma {:induction false} CutCycle(g: Graph, assets: set<Asset>, s: Asset, v: Asset, w: seq<Arc>)
      returns (cut: seq<Arc>)
    requires Within(g, assets) && s in assets
    requires !NegativeCycleReachable(g, s)
    requires IsWalk(g, s, v, w) && |w| >= |assets|
    ensures IsWalk(g, s, v, cut) && |cut| < |w| && Weight(cut) <= Weight(w)
  {
    var visited := seq(|w| + 1, i requires 0 <= i <= |w| => Vertex(s, w, i));
    forall i | 0 <= i < |visited| ensures visited[i] in assets {
      WalkStaysWithin(g, assets, s, v, w, i);
    }
    var i, j := Pigeonhole(visited, assets);
    var u := Vertex(s, w, i);
    WalkSplit(g, s, v, w, j);
    WalkSplit(g, s, u, w[..j], i);
    var p, c, q := w[..j][..i], w[..j][i..], w[j..];
    assert IsWalk(g, s, u, p) && IsWalk(g, u, u, c) && IsWalk(g, u, v, q);
    assert !NegativeCycleAt(g, s, u, p, c);
    WalkConcat(g, s, u, v, p, q);
    cut := p + q;
  }

  /** Without negative cycles, some walk of fewer than |assets| arcs is at least as light. */
  lemma {:induction false} SimpleWalk(g: Graph, assets: set<Asset>, s: Asset, v: Asset, w: seq<Arc>)
    returns (short: seq<Arc>)
    requires Within(g, assets) && s in assets
    requires !NegativeCycleReachable(g, s)
    requires IsWalk(g, s, v, w)
    ensures IsWalk(g, s, v, short) && |short| < |assets| && Weight(short) <= Weight(w)
    decreases |w|
  {
    if |w| < |assets| {
      short := w;
    } else {
      var cut := CutCycle(g, assets, s, v, w);
      short := SimpleWalk(g, assets, s, v, cut);
    }
  }

  // No arc can be relaxed any further.
  ghost predicate Settled(g: Graph, dist: map<Asset, Dist>) {
    forall a :: HasArc(g, a) ==>
      a.from in dist && a.to in dist && Le(dist[a.to], Plus(dist[a.from], a.weight))
  }

  /** Summing a settled distance map along a walk. */
  lemma {:induction false} SettledAlongWalk(g: Graph, dist: map<Asset, Dist>, x: Asset, y: Asset, w: seq<Arc>)
    requires Settled(g, dist) && IsWalk(g, x, y, w) && x in dist
    ensures y in dist && Le(dist[y], Plus(dist[x], Weight(w)))
    decreases |w|
  {
    if w != [] {
      var n := |w| - 1;
      WalkSplit(g, x, y, w, n);
      SettledAlongWalk(g, dist, x, Vertex(x, w, n), w[..n]);
      assert HasArc(g, w[n]);
    }
  }

  /** A settled map with a non-positive source distance excludes reachable negative cycles. */
  lemma {:induction false} SettledExcludesNegativeCycles(g: Graph, dist: map<Asset, Dist>, s: Asset)
    requires Settled(g, dist) && s in dist && dist[s].Finite?
    ensures !NegativeCycleReachable(g, s)
  {
    if u, p, c :| NegativeCycleAt(g, s, u, p, c) {
      SettledAlongWalk(g, dist, s, u, p);
      SettledAlongWalk(g, dist, u, u, c);
      assert false;
    }
  }
}
