/**
  `rank_paths_bellman_ford` of services/rust-worker/src/path_routing.rs.

  Weights are exact reals and `-ln` is an arbitrary function `negLog`. The iteration
  order of a HashMap is a nondeterministic choice, so every result holds for every order.
*/
module PathRouting {
  import opened Walks
  import opened StableSort

  datatype PaymentPath = PaymentPath(
    sourceAsset: Asset,
    destinationAsset: Asset,
    path: seq<Asset>,
    sourceAmount: real,
    destinationAmount: real,
    effectiveRate: real,
    estimatedFeeStroops: nat,
    costScore: real)

  const RATE_FLOOR: real := 0.000000000001

  function DirectWeight(rate: real, negLog: real -> real): real {
    negLog(if rate < RATE_FLOOR then RATE_FLOOR else rate)
  }

  // ----- Graph construction -----

  // The zero-weight arcs prev -> hop_0 -> hop_1 -> ...; none leads on to the destination.
  ghost function HopArcs(prev: Asset, hops: seq<Asset>): seq<Arc> {
    seq(|hops|, i requires 0 <= i < |hops| => Arc(if i == 0 then prev else hops[i - 1], hops[i], 0.0))
  }

  ghost function PathArcs(p: PaymentPath, negLog: real -> real): seq<Arc> {
    [Arc(p.sourceAsset, p.destinationAsset, DirectWeight(p.effectiveRate, negLog))]
    + HopArcs(p.sourceAsset, p.path)
  }

  ghost function AllArcs(paths: seq<PaymentPath>, negLog: real -> real): seq<Arc> {
    if paths == [] then []
    else AllArcs(paths[..|paths| - 1], negLog) + PathArcs(paths[|paths| - 1], negLog)
  }

  ghost function EdgesFrom(arcs: seq<Arc>, from: Asset): seq<Edge> {
    if arcs == [] then []
    else
      var a := arcs[|arcs| - 1];
      EdgesFrom(arcs[..|arcs| - 1], from) + (if a.from == from then [Edge(a.to, a.weight)] else [])
  }

  // `g` holds exactly the listed arcs, per source in list order, with no empty entries.
  ghost predicate Represents(g: Graph, arcs: seq<Arc>) {
    && (forall x :: x in g ==> g[x] == EdgesFrom(arcs, x))
    && (forall x :: x in g <==> EdgesFrom(arcs, x) != [])
  }

  // `g` is the graph of these candidate paths.
  ghost predicate BuiltFrom(g: Graph, paths: seq<PaymentPath>, negLog: real -> real) {
    Represents(g, AllArcs(paths, negLog))
  }

  lemma {:induction false} EdgesFromMembers(arcs: seq<Arc>, a: Arc)
    ensures Edge(a.to, a.weight) in EdgesFrom(arcs, a.from) <==> a in arcs
  {
    if arcs != [] {
      var b := arcs[|arcs| - 1];
      assert arcs == arcs[..|arcs| - 1] + [b];
      EdgesFromMembers(arcs[..|arcs| - 1], a);
    }
  }

  /** The arcs of the built graph are exactly the listed ones. */
  lemma {:induction false} RepresentsArcs(g: Graph, arcs: seq<Arc>, a: Arc)
    requires Represents(g, arcs)
    ensures HasArc(g, a) <==> a in arcs
  {
    EdgesFromMembers(arcs, a);
  }

  method PushEdge(g: Graph, from: Asset, e: Edge, ghost arcs: seq<Arc>) returns (g': Graph)
    requires Represents(g, arcs)
    ensures Represents(g', arcs + [Arc(from, e.to, e.weight)])
  {
    g' := g[from := (if from in g then g[from] else []) + [e]];
    ghost var arcs' := arcs + [Arc(from, e.to, e.weight)];
    assert arcs'[..|arcs'| - 1] == arcs;
    assert from !in g ==> EdgesFrom(arcs, from) == [];
  }

  method BuildGraph(paths: seq<PaymentPath>, negLog: real -> real) returns (g: Graph)
    ensures BuiltFrom(g, paths, negLog)
  {
    g := map[];
    for i := 0 to |paths|
      invariant Represents(g, AllArcs(paths[..i], negLog))
    {
      var p := paths[i];
      ghost var done := AllArcs(paths[..i], negLog);
      ghost var pathArcs := PathArcs(p, negLog);
      g := PushEdge(g, p.sourceAsset, Edge(p.destinationAsset, DirectWeight(p.effectiveRate, negLog)), done);
      var prev := p.sourceAsset;
      assert done + pathArcs[..1] == done + [pathArcs[0]];
      for j := 0 to |p.path|
        invariant prev == if j == 0 then p.sourceAsset else p.path[j - 1]
        invariant Represents(g, done + pathArcs[..j + 1])
      {
        g := PushEdge(g, prev, Edge(p.path[j], 0.0), done + pathArcs[..j + 1]);
        assert done + pathArcs[..j + 2] == done + pathArcs[..j + 1] + [pathArcs[j + 1]];
        prev := p.path[j];
      }
      assert pathArcs[..|p.path| + 1] == pathArcs;
      assert paths[..i + 1][..i] == paths[..i];
    }
    assert paths[..|paths|] == paths;
  }

  // The arc of a path from its source to its destination, at -ln of its rate but at least 1e-12.
  ghost predicate IsDirect(p: PaymentPath, negLog: real -> real, a: Arc) {
    && a.from == p.sourceAsset && a.to == p.destinationAsset
    && (p.effectiveRate >= 0.000000000001 ==> a.weight == negLog(p.effectiveRate))
    && (p.effectiveRate < 0.000000000001 ==> a.weight == negLog(0.000000000001))
  }

  ghost predicate IsHop(p: PaymentPath, a: Arc, j: nat) {
    && j < |p.path| && a.to == p.path[j] && a.weight == 0.0
    && a.from == if j == 0 then p.sourceAsset else p.path[j - 1]
  }

  ghost predicate Contributes(p: PaymentPath, negLog: real -> real, a: Arc) {
    IsDirect(p, negLog, a) || exists j: nat :: IsHop(p, a, j)
  }

  lemma {:induction false} PathArcsMembers(p: PaymentPath, negLog: real -> real, a: Arc)
    ensures a in PathArcs(p, negLog) <==> Contributes(p, negLog, a)
  {
    var hops := HopArcs(p.sourceAsset, p.path);
    var arcs := PathArcs(p, negLog);
    assert a in arcs <==> a == arcs[0] || a in hops;
    if j: nat :| IsHop(p, a, j) {
      assert hops[j] == a;
    }
    if a in hops {
      var j: nat :| j < |hops| && hops[j] == a;
      assert IsHop(p, a, j);
    }
  }

  lemma {:induction false} AllArcsMembers(paths: seq<PaymentPath>, negLog: real -> real, a: Arc)
    ensures a in AllArcs(paths, negLog) <==> exists i :: 0 <= i < |paths| && Contributes(paths[i], negLog, a)
  {
    hide PathArcs, Contributes;
    if paths != [] {
      var n := |paths| - 1;
      AllArcsMembers(paths[..n], negLog, a);
      PathArcsMembers(paths[n], negLog, a);
      assert forall i :: 0 <= i < n ==> paths[..n][i] == paths[i];
      if i :| 0 <= i < n && Contributes(paths[i], negLog, a) {
        assert Contributes(paths[..n][i], negLog, a);
      }
    }
  }

  /** The arcs of the graph: the direct arc of each path, and the free arcs along its hops, short of the destination. */
  lemma {:induction false} GraphIsOfPaths(g: Graph, paths: seq<PaymentPath>, negLog: real -> real, a: Arc)
    requires BuiltFrom(g, paths, negLog)
    ensures HasArc(g, a) <==> exists i :: 0 <= i < |paths| && Contributes(paths[i], negLog, a)
  {
    hide Contributes;
    RepresentsArcs(g, AllArcs(paths, negLog), a);
    AllArcsMembers(paths, negLog, a);
  }

  // ----- Assets -----

  ghost predicate Mentions(p: PaymentPath, a: Asset) {
    a == p.sourceAsset || a == p.destinationAsset || a in p.path
  }

  method CollectAssets(paths: seq<PaymentPath>) returns (assets: set<Asset>)
    ensures forall a :: a in assets <==> exists i :: 0 <= i < |paths| && Mentions(paths[i], a)
  {
    assets := {};
    for i := 0 to |paths|
      invariant forall a :: a in assets <==> exists k :: 0 <= k < i && Mentions(paths[k], a)
    {
      var p := paths[i];
      var hops := set a | a in p.path;
      assets := assets + {p.sourceAsset, p.destinationAsset} + hops;
      assert forall a :: Mentions(p, a) <==> a in {p.sourceAsset, p.destinationAsset} + hops;
    }
  }

  lemma {:induction false} AllArcsMentioned(paths: seq<PaymentPath>, negLog: real -> real, a: Arc)
    requires a in AllArcs(paths, negLog)
    ensures exists i :: 0 <= i < |paths| && Mentions(paths[i], a.from) && Mentions(paths[i], a.to)
  {
    var n := |paths| - 1;
    if a in PathArcs(paths[n], negLog) {
      assert Mentions(paths[n], a.from) && Mentions(paths[n], a.to);
    } else {
      AllArcsMentioned(paths[..n], negLog, a);
    }
  }

  // ----- Relaxation -----

  ghost predicate Reached(g: Graph, s: Asset, v: Asset, d: real) {
    exists w :: IsWalk(g, s, v, w) && Weight(w) == d
  }

  // Every finite distance is the weight of an actual walk.
  ghost predicate Witnessed(g: Graph, s: Asset, dist: map<Asset, Dist>) {
    forall v :: v in dist && dist[v].Finite? ==> Reached(g, s, v, dist[v].d)
  }

  // No walk of at most k arcs beats the distances.
  ghost predicate BoundsWalks(g: Graph, s: Asset, dist: map<Asset, Dist>, k: nat) {
    forall v, w :: IsWalk(g, s, v, w) && |w| <= k ==> v in dist && Le(dist[v], Finite(Weight(w)))
  }

  ghost predicate NoneRaised(before: map<Asset, Dist>, after: map<Asset, Dist>) {
    after.Keys == before.Keys && forall v :: v in before ==> Le(after[v], before[v])
  }

  ghost predicate Relaxed(before: map<Asset, Dist>, after: map<Asset, Dist>, a: Arc) {
    a.from in before && a.to in after && Le(after[a.to], Plus(before[a.from], a.weight))
  }

  lemma {:induction false} ReachedExtends(g: Graph, s: Asset, a: Arc, d: real)
    requires HasArc(g, a) && Reached(g, s, a.from, d)
    ensures Reached(g, s, a.to, d + a.weight)
  {
    var w :| IsWalk(g, s, a.from, w) && Weight(w) == d;
    assert IsWalk(g, a.from, a.to, [a]);
    WalkConcat(g, s, a.from, a.to, w, [a]);
    assert Weight([a]) == a.weight by { assert [a][..0] == []; }
  }

  method RelaxEdge(ghost g: Graph, ghost s: Asset, ghost from: Asset, dFrom: real, e: Edge, dist: map<Asset, Dist>)
      returns (dist': map<Asset, Dist>, updated: bool)
    requires HasArc(g, Arc(from, e.to, e.weight)) && e.to in dist
    requires Reached(g, s, from, dFrom) && Witnessed(g, s, dist)
    ensures NoneRaised(dist, dist') && Witnessed(g, s, dist')
    ensures Le(dist'[e.to], Finite(dFrom + e.weight))
    ensures !updated ==> dist' == dist
  {
    var newDist := dFrom + e.weight;
    if dist[e.to].Infinite? || newDist < dist[e.to].d {
      ReachedExtends(g, s, Arc(from, e.to, e.weight), dFrom);
      return dist[e.to := Finite(newDist)], true;
    }
    return dist, false;
  }

  ghost predicate EdgesRelaxed(edges: seq<Edge>, dFrom: real, dist: map<Asset, Dist>, n: nat)
    requires n <= |edges|
  {
    forall k :: 0 <= k < n ==> edges[k].to in dist && Le(dist[edges[k].to], Finite(dFrom + edges[k].weight))
  }

  lemma {:induction false} EdgesRelaxedStep(edges: seq<Edge>, dFrom: real, before: map<Asset, Dist>,
                                            after: map<Asset, Dist>, n: nat)
    requires n < |edges| && EdgesRelaxed(edges, dFrom, before, n) && NoneRaised(before, after)
    requires edges[n].to in after && Le(after[edges[n].to], Finite(dFrom + edges[n].weight))
    ensures EdgesRelaxed(edges, dFrom, after, n + 1)
  {
    forall k | 0 <= k < n ensures edges[k].to in after && Le(after[edges[k].to], Finite(dFrom + edges[k].weight)) {
      assert Le(after[edges[k].to], before[edges[k].to]);
    }
  }

  lemma {:induction false} NoneRaisedTrans(a: map<Asset, Dist>, b: map<Asset, Dist>, c: map<Asset, Dist>)
    requires NoneRaised(a, b) && NoneRaised(b, c)
    ensures NoneRaised(a, c)
  {
    forall v | v in a ensures Le(c[v], a[v]) {
      assert Le(b[v], a[v]) && Le(c[v], b[v]);
    }
  }

  /** Relaxes the edges of one vertex; its own distance is read once, before the loop. */
  method RelaxVertex(g: Graph, ghost s: Asset, from: Asset, dist: map<Asset, Dist>)
      returns (dist': map<Asset, Dist>, updated: bool)
    requires from in g && Within(g, dist.Keys) && from in dist
    requires Witnessed(g, s, dist)
    ensures NoneRaised(dist, dist') && Witnessed(g, s, dist')
    ensures forall a :: HasArc(g, a) && a.from == from ==> Relaxed(dist, dist', a)
    ensures !updated ==> dist' == dist
  {
    dist', updated := dist, false;
    if dist[from].Infinite? {
      return;
    }
    var dFrom := dist[from].d;
    var edges := g[from];
    for i := 0 to |edges|
      invariant NoneRaised(dist, dist') && Witnessed(g, s, dist')
      invariant EdgesRelaxed(edges, dFrom, dist', i)
      invariant !updated ==> dist' == dist
    {
      assert HasArc(g, Arc(from, edges[i].to, edges[i].weight));
      ghost var mid := dist';
      var changed;
      dist', changed := RelaxEdge(g, s, from, dFrom, edges[i], dist');
      EdgesRelaxedStep(edges, dFrom, mid, dist', i);
      NoneRaisedTrans(dist, mid, dist');
      updated := updated || changed;
    }
    forall a | HasArc(g, a) && a.from == from ensures Relaxed(dist, dist', a) {
      var k :| 0 <= k < |edges| && edges[k] == Edge(a.to, a.weight);
    }
  }

  /** One round over all vertices, in any order. */
  method RelaxRound(g: Graph, ghost s: Asset, dist: map<Asset, Dist>)
      returns (dist': map<Asset, Dist>, updated: bool)
    requires g.Keys <= dist.Keys && Within(g, dist.Keys)
    requires Witnessed(g, s, dist)
    ensures NoneRaised(dist, dist') && Witnessed(g, s, dist')
    ensures forall a :: HasArc(g, a) ==> Relaxed(dist, dist', a)
    ensures !updated ==> dist' == dist
  {
    dist', updated := dist, false;
    var remaining := g.Keys;
    while remaining != {}
      invariant remaining <= g.Keys
      invariant NoneRaised(dist, dist') && Witnessed(g, s, dist')
      invariant forall a :: HasArc(g, a) && a.from !in remaining ==> Relaxed(dist, dist', a)
      invariant !updated ==> dist' == dist
    {
      var from :| from in remaining;
      ghost var mid := dist';
      var changed;
      dist', changed := RelaxVertex(g, s, from, dist');
      NoneRaisedTrans(dist, mid, dist');
      assert forall a :: HasArc(g, a) && a.from == from ==> Relaxed(mid, dist', a);
      updated := updated || changed;
      remaining := remaining - {from};
    }
  }

  lemma {:induction false} RoundExtendsBound(g: Graph, s: Asset, before: map<Asset, Dist>, after: map<Asset, Dist>,
                                             k: nat)
    requires BoundsWalks(g, s, before, k) && NoneRaised(before, after)
    requires forall a :: HasArc(g, a) ==> Relaxed(before, after, a)
    ensures BoundsWalks(g, s, after, k + 1)
  {
    forall v, w | IsWalk(g, s, v, w) && |w| <= k + 1 ensures v in after && Le(after[v], Finite(Weight(w))) {
      if |w| <= k {
        assert v in before && Le(before[v], Finite(Weight(w)));
      } else {
        var n := |w| - 1;
        WalkSplit(g, s, v, w, n);
        assert Le(before[Vertex(s, w, n)], Finite(Weight(w[..n])));
        assert HasArc(g, w[n]) && Relaxed(before, after, w[n]);
      }
    }
  }

  lemma {:induction false} SettledBoundsWalks(g: Graph, s: Asset, dist: map<Asset, Dist>, k: nat)
    requires Settled(g, dist) && s in dist && Le(dist[s], Finite(0.0))
    ensures BoundsWalks(g, s, dist, k)
  {
    forall v, w | IsWalk(g, s, v, w) && |w| <= k ensures v in dist && Le(dist[v], Finite(Weight(w))) {
      SettledAlongWalk(g, dist, s, v, w);
    }
  }

  /** At most n-1 rounds with early exit: as good as n-1 full rounds. */
  method Relax(g: Graph, assets: set<Asset>, s: Asset) returns (dist: map<Asset, Dist>)
    requires s in assets && g.Keys <= assets && Within(g, assets)
    ensures dist.Keys == assets && Witnessed(g, s, dist)
    ensures Le(dist[s], Finite(0.0))
    ensures BoundsWalks(g, s, dist, |assets| - 1)
  {
    dist := map a | a in assets :: if a == s then Finite(0.0) else Infinite;
    assert IsWalk(g, s, s, []);
    var round := 0;
    while round < |assets| - 1
      invariant round <= |assets| - 1
      invariant dist.Keys == assets && Witnessed(g, s, dist)
      invariant Le(dist[s], Finite(0.0))
      invariant BoundsWalks(g, s, dist, round)
    {
      ghost var before := dist;
      var updated;
      dist, updated := RelaxRound(g, s, dist);
      RoundExtendsBound(g, s, before, dist, round);
      if !updated {
        assert forall a :: HasArc(g, a) ==> Relaxed(before, dist, a);
        SettledBoundsWalks(g, s, dist, |assets| - 1);
        break;
      }
      round := round + 1;
    }
  }

  // ----- Negative-cycle check -----

  ghost predicate Relaxable(g: Graph, dist: map<Asset, Dist>, a: Arc)
    requires Within(g, dist.Keys)
  {
    HasArc(g, a) && !Le(dist[a.to], Plus(dist[a.from], a.weight))
  }

  method CanRelax(g: Graph, dist: map<Asset, Dist>) returns (flag: bool)
    requires g.Keys <= dist.Keys && Within(g, dist.Keys)
    ensures flag <==> exists a :: Relaxable(g, dist, a)
  {
    var remaining := g.Keys;
    while remaining != {}
      invariant remaining <= g.Keys
      invariant forall a :: HasArc(g, a) && a.from !in remaining ==> !Relaxable(g, dist, a)
    {
      var from :| from in remaining;
      var edges := g[from];
      for i := 0 to |edges|
        invariant forall k :: 0 <= k < i ==> !Relaxable(g, dist, Arc(from, edges[k].to, edges[k].weight))
      {
        var e := edges[i];
        assert HasArc(g, Arc(from, e.to, e.weight));
        if dist[from].Finite? && (dist[e.to].Infinite? || dist[from].d + e.weight < dist[e.to].d) {
          assert Relaxable(g, dist, Arc(from, e.to, e.weight));
          return true;
        }
      }
      assert forall a :: HasArc(g, a) && a.from == from ==> Edge(a.to, a.weight) in edges;
      remaining := remaining - {from};
    }
    return false;
  }

  /** Both halves of the flag's meaning: relaxable after the loop if and only if a negative cycle is reachable. */
  lemma {:induction false} RelaxableIffNegativeCycle(g: Graph, assets: set<Asset>, s: Asset, dist: map<Asset, Dist>)
    requires s in assets && dist.Keys == assets && Within(g, assets)
    requires Witnessed(g, s, dist) && Le(dist[s], Finite(0.0))
    requires BoundsWalks(g, s, dist, |assets| - 1)
    ensures (exists a :: Relaxable(g, dist, a)) <==> NegativeCycleReachable(g, s)
  {
    if a :| Relaxable(g, dist, a) {
      if !NegativeCycleReachable(g, s) {
        assert Reached(g, s, a.from, dist[a.from].d);
        var w :| IsWalk(g, s, a.from, w) && Weight(w) == dist[a.from].d;
        assert IsWalk(g, a.from, a.to, [a]) && [a][..0] == [];
        WalkConcat(g, s, a.from, a.to, w, [a]);
        var short := SimpleWalk(g, assets, s, a.to, w + [a]);
        assert false;
      }
    } else {
      assert Settled(g, dist) by {
        forall a | HasArc(g, a) ensures Le(dist[a.to], Plus(dist[a.from], a.weight)) {
          assert !Relaxable(g, dist, a);
        }
      }
      SettledExcludesNegativeCycles(g, dist, s);
    }
  }

  /** Without a reachable negative cycle the distances are the true shortest ones. */
  lemma {:induction false} DistancesAreShortest(g: Graph, assets: set<Asset>, s: Asset, dist: map<Asset, Dist>,
                                                v: Asset)
    requires s in assets && dist.Keys == assets && Within(g, assets) && v in assets
    requires Witnessed(g, s, dist) && BoundsWalks(g, s, dist, |assets| - 1)
    requires !NegativeCycleReachable(g, s)
    ensures IsShortest(g, s, v, dist[v])
  {
    forall w | IsWalk(g, s, v, w) ensures Le(dist[v], Finite(Weight(w))) {
      var short := SimpleWalk(g, assets, s, v, w);
    }
  }

  // ----- Ranking -----

  function SortKey(dist: map<Asset, Dist>): PaymentPath -> Key {
    (p: PaymentPath) =>
      if p.destinationAsset in dist && dist[p.destinationAsset].Finite?
      then Fin(dist[p.destinationAsset].d) else PosInf
  }

  ghost predicate ShortestDistances(g: Graph, s: Asset, assets: set<Asset>, dist: map<Asset, Dist>) {
    dist.Keys == assets && forall v :: v in assets ==> IsShortest(g, s, v, dist[v])
  }

  // Nearest destination first.
  ghost predicate NearestFirst(dist: map<Asset, Dist>, ranked: seq<PaymentPath>) {
    forall i, j :: 0 <= i < j < |ranked| ==>
      && ranked[i].destinationAsset in dist && ranked[j].destinationAsset in dist
      && Le(dist[ranked[i].destinationAsset], dist[ranked[j].destinationAsset])
  }

  // The paths whose destination lies at a distance, in order.
  ghost function AtDistance(paths: seq<PaymentPath>, dist: map<Asset, Dist>, d: Dist): seq<PaymentPath> {
    if paths == [] then []
    else
      var rest := AtDistance(paths[1..], dist, d);
      if paths[0].destinationAsset in dist && dist[paths[0].destinationAsset] == d then [paths[0]] + rest else rest
  }

  ghost predicate TiesKeepOrder(paths: seq<PaymentPath>, dist: map<Asset, Dist>, ranked: seq<PaymentPath>) {
    forall d :: AtDistance(ranked, dist, d) == AtDistance(paths, dist, d)
  }

  ghost predicate DestinationsIn(paths: seq<PaymentPath>, dist: map<Asset, Dist>) {
    forall p :: p in paths ==> p.destinationAsset in dist
  }

  lemma {:induction false} AtDistanceIsWithKey(paths: seq<PaymentPath>, dist: map<Asset, Dist>, d: Dist)
    requires DestinationsIn(paths, dist)
    ensures AtDistance(paths, dist, d) == WithKey(paths, SortKey(dist), if d.Finite? then Fin(d.d) else PosInf)
  {
    if paths != [] {
      assert forall p :: p in paths[1..] ==> p in paths;
      AtDistanceIsWithKey(paths[1..], dist, d);
      assert paths[0] in paths;
    }
  }

  lemma {:induction false} SortedByDistance(paths: seq<PaymentPath>, dist: map<Asset, Dist>, ranked: seq<PaymentPath>)
    requires DestinationsIn(paths, dist) && StablySorted(paths, SortKey(dist), ranked)
    ensures NearestFirst(dist, ranked) && TiesKeepOrder(paths, dist, ranked)
  {
    StablySortedPermutes(paths, SortKey(dist), ranked);
    assert DestinationsIn(ranked, dist) by {
      forall p | p in ranked ensures p.destinationAsset in dist {
        assert p in multiset(ranked) && p in multiset(paths);
        assert p in paths;
      }
    }
    forall i, j | 0 <= i < j < |ranked|
      ensures ranked[i].destinationAsset in dist && ranked[j].destinationAsset in dist
      ensures Le(dist[ranked[i].destinationAsset], dist[ranked[j].destinationAsset])
    {
      assert ranked[i] in ranked && ranked[j] in ranked;
      assert Leq(SortKey(dist)(ranked[i]), SortKey(dist)(ranked[j]));
    }
    forall d ensures AtDistance(ranked, dist, d) == AtDistance(paths, dist, d) {
      AtDistanceIsWithKey(ranked, dist, d);
      AtDistanceIsWithKey(paths, dist, d);
    }
  }

  // The same in terms of the graph alone.
  ghost predicate BestFirst(g: Graph, s: Asset, ranked: seq<PaymentPath>) {
    forall i, j, d, e :: 0 <= i < j < |ranked| ==>
      IsShortest(g, s, ranked[i].destinationAsset, d) && IsShortest(g, s, ranked[j].destinationAsset, e) ==> Le(d, e)
  }

  ghost function AtShortest(paths: seq<PaymentPath>, g: Graph, s: Asset, d: Dist): seq<PaymentPath> {
    if paths == [] then []
    else
      var rest := AtShortest(paths[1..], g, s, d);
      if IsShortest(g, s, paths[0].destinationAsset, d) then [paths[0]] + rest else rest
  }

  ghost predicate EqualsKeepOrder(g: Graph, s: Asset, paths: seq<PaymentPath>, ranked: seq<PaymentPath>) {
    forall d :: AtShortest(ranked, g, s, d) == AtShortest(paths, g, s, d)
  }

  lemma {:induction false} AtShortestIsAtDistance(paths: seq<PaymentPath>, g: Graph, s: Asset, dist: map<Asset, Dist>,
                                                  d: Dist)
    requires DestinationsIn(paths, dist) && ShortestDistances(g, s, dist.Keys, dist)
    ensures AtShortest(paths, g, s, d) == AtDistance(paths, dist, d)
  {
    hide IsShortest;
    if paths != [] {
      assert forall p :: p in paths[1..] ==> p in paths;
      AtShortestIsAtDistance(paths[1..], g, s, dist, d);
      assert paths[0] in paths;
      var v := paths[0].destinationAsset;
      if IsShortest(g, s, v, d) {
        ShortestUnique(g, s, v, d, dist[v]);
      }
    }
  }

  /** Without a negative cycle the ranking is by shortest distance in the graph, equals in input order. */
  lemma {:induction false} RankedByShortest(g: Graph, s: Asset, paths: seq<PaymentPath>, dist: map<Asset, Dist>,
                                            ranked: seq<PaymentPath>)
    requires ShortestDistances(g, s, dist.Keys, dist) && DestinationsIn(paths, dist) && DestinationsIn(ranked, dist)
    requires NearestFirst(dist, ranked) && TiesKeepOrder(paths, dist, ranked)
    ensures BestFirst(g, s, ranked) && EqualsKeepOrder(g, s, paths, ranked)
  {
    hide IsShortest, AtShortest, AtDistance;
    forall i, j, d, e | 0 <= i < j < |ranked|
      && IsShortest(g, s, ranked[i].destinationAsset, d) && IsShortest(g, s, ranked[j].destinationAsset, e)
      ensures Le(d, e)
    {
      ShortestUnique(g, s, ranked[i].destinationAsset, d, dist[ranked[i].destinationAsset]);
      ShortestUnique(g, s, ranked[j].destinationAsset, e, dist[ranked[j].destinationAsset]);
    }
    forall d ensures AtShortest(ranked, g, s, d) == AtShortest(paths, g, s, d) {
      AtShortestIsAtDistance(ranked, g, s, dist, d);
      AtShortestIsAtDistance(paths, g, s, dist, d);
    }
  }

  /**
    The whole ranking. `dist` and `negativeCycle` are locals of the source, returned here
    so that the contract can speak about them. A detected cycle filters nothing.
  */
  method RankPaths(paths: seq<PaymentPath>, negLog: real -> real)
      returns (ranked: seq<PaymentPath>, g: Graph, dist: map<Asset, Dist>, negativeCycle: bool)
    ensures BuiltFrom(g, paths, negLog)
    ensures StablySorted(paths, SortKey(dist), ranked) && multiset(ranked) == multiset(paths)
    ensures NearestFirst(dist, ranked) && TiesKeepOrder(paths, dist, ranked)
    ensures paths != [] && !negativeCycle ==>
      BestFirst(g, paths[0].sourceAsset, ranked) && EqualsKeepOrder(g, paths[0].sourceAsset, paths, ranked)
    ensures paths != [] ==>
      && (forall a :: a in dist <==> exists i :: 0 <= i < |paths| && Mentions(paths[i], a))
      && Witnessed(g, paths[0].sourceAsset, dist)
      && (negativeCycle <==> NegativeCycleReachable(g, paths[0].sourceAsset))
      && (!negativeCycle ==> ShortestDistances(g, paths[0].sourceAsset, dist.Keys, dist))
  {
    g := BuildGraph(paths, negLog);
    if paths == [] {
      ranked, dist, negativeCycle := paths, map[], false;
      return;
    }
    var assets := CollectAssets(paths);
    var s := paths[0].sourceAsset;
    assert Mentions(paths[0], s);
    GraphWithin(paths, negLog, g, assets);
    dist := Relax(g, assets, s);
    negativeCycle := CanRelax(g, dist);
    RelaxableIffNegativeCycle(g, assets, s, dist);
    if !negativeCycle {
      forall v | v in assets ensures IsShortest(g, s, v, dist[v]) {
        DistancesAreShortest(g, assets, s, dist, v);
      }
    }
    ranked := SortBy(paths, SortKey(dist));
    DestinationsKnown(paths, dist, ranked);
    SortedByDistance(paths, dist, ranked);
    if !negativeCycle {
      RankedByShortest(g, s, paths, dist, ranked);
    }
  }

  lemma {:induction false} DestinationsKnown(paths: seq<PaymentPath>, dist: map<Asset, Dist>, ranked: seq<PaymentPath>)
    requires forall a :: a in dist <==> exists i :: 0 <= i < |paths| && Mentions(paths[i], a)
    requires multiset(ranked) == multiset(paths)
    ensures DestinationsIn(paths, dist) && DestinationsIn(ranked, dist)
  {
    forall p | p in paths || p in ranked ensures p.destinationAsset in dist {
      assert p in multiset(paths) || p in multiset(ranked);
      assert p in paths;
      var i :| 0 <= i < |paths| && paths[i] == p;
      assert Mentions(paths[i], p.destinationAsset);
    }
  }

  lemma {:induction false} GraphWithin(paths: seq<PaymentPath>, negLog: real -> real, g: Graph, assets: set<Asset>)
    requires Represents(g, AllArcs(paths, negLog))
    requires forall a :: a in assets <==> exists i :: 0 <= i < |paths| && Mentions(paths[i], a)
    ensures Within(g, assets) && g.Keys <= assets
  {
    var arcs := AllArcs(paths, negLog);
    forall a | HasArc(g, a) ensures a.from in assets && a.to in assets {
      RepresentsArcs(g, arcs, a);
      AllArcsMentioned(paths, negLog, a);
    }
    forall x | x in g ensures x in assets {
      var e := g[x][0];
      assert HasArc(g, Arc(x, e.to, e.weight));
    }
  }

  ghost predicate OneDestination(paths: seq<PaymentPath>) {
    forall i, j :: 0 <= i < j < |paths| ==> paths[i].destinationAsset == paths[j].destinationAsset
  }

  lemma {:induction false} WithOnlyKey<T>(s: seq<T>, key: T -> Key, k: Key)
    requires forall x :: x in s ==> key(x) == k
    ensures WithKey(s, key, k) == s
  {
    if s != [] {
      assert forall x :: x in s[1..] ==> x in s;
      WithOnlyKey(s[1..], key, k);
      assert s == [s[0]] + s[1..];
    }
  }

  /**
    Paths between the same two assets are not ranked at all: the list comes back as it was,
    whatever the distances, and so is ordered by rate only if it was before.
  */
  lemma {:induction false} OneDestinationKeepsOrder(paths: seq<PaymentPath>, dist: map<Asset, Dist>,
                                                    ranked: seq<PaymentPath>)
    requires OneDestination(paths) && StablySorted(paths, SortKey(dist), ranked)
    ensures ranked == paths
  {
    StablySortedPermutes(paths, SortKey(dist), ranked);
    if paths != [] {
      var k := SortKey(dist)(paths[0]);
      forall x | x in paths || x in ranked ensures SortKey(dist)(x) == k {
        assert x in multiset(paths) || x in multiset(ranked);
        assert x in paths;
        var i :| 0 <= i < |paths| && paths[i] == x;
        assert i > 0 ==> paths[0].destinationAsset == paths[i].destinationAsset;
      }
      WithOnlyKey(paths, SortKey(dist), k);
      WithOnlyKey(ranked, SortKey(dist), k);
    }
  }

  /**
    The ranking does not depend on any iteration order: two runs on the same graph without
    a reachable negative cycle agree on every distance and return the same list.
  */
  lemma {:induction false} RankingIsOrderIndependent(paths: seq<PaymentPath>, g: Graph, s: Asset, assets: set<Asset>,
                                  dist1: map<Asset, Dist>, ranked1: seq<PaymentPath>,
                                  dist2: map<Asset, Dist>, ranked2: seq<PaymentPath>)
    requires ShortestDistances(g, s, assets, dist1) && ShortestDistances(g, s, assets, dist2)
    requires StablySorted(paths, SortKey(dist1), ranked1) && StablySorted(paths, SortKey(dist2), ranked2)
    ensures dist1 == dist2 && ranked1 == ranked2
  {
    forall v | v in assets ensures dist1[v] == dist2[v] {
      ShortestUnique(g, s, v, dist1[v], dist2[v]);
    }
    assert dist1 == dist2;
    StablySortedUnique(ranked1, ranked2, SortKey(dist1));
  }
}
