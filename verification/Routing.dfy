/** Choosing exits: merging the coordinator's directory with exits found on the DHT, and the
    lexicographic and the weighted ranking. */
module Routing {
  import opened Trust
  import opened StableSort

  datatype NodeInfo = NodeInfo(peerID: string, addrs: seq<string>, region: string, wantExit: bool, load: int)

  datatype DHTExit = DHTExit(peerID: string, region: string, addrs: seq<string>)

  datatype Metrics = Metrics(latencyMs: int, load: int)

  datatype Weights = Weights(trust: real, latency: real, load: real)

  type TierOf = string -> Tier
  type MetricsOf = string -> Metrics

  // ----------------------------------------------------------------- eligible

  predicate IsEligible(n: NodeInfo, region: string, self: string, scope: Scope, tierOf: TierOf) {
    n.peerID != self && n.wantExit && n.region == region && scope.Allows(tierOf(n.peerID))
  }

  function Eligible(nodes: seq<NodeInfo>, region: string, self: string, scope: Scope, tierOf: TierOf): seq<NodeInfo> {
    if nodes == [] then []
    else
      var init := Eligible(nodes[..|nodes| - 1], region, self, scope, tierOf);
      var last := nodes[|nodes| - 1];
      if IsEligible(last, region, self, scope, tierOf) then init + [last] else init
  }

  /** Eligible are the nodes of the region other than ourselves that offer to be an exit, strangers
      only under the open scope. */
  lemma {:induction false} EligibleMembers(nodes: seq<NodeInfo>, region: string, self: string, scope: Scope, tierOf: TierOf, n: NodeInfo)
    ensures n in Eligible(nodes, region, self, scope, tierOf) <==>
              && n in nodes && n.wantExit && n.region == region && n.peerID != self
              && (scope == Open || tierOf(n.peerID) >= 1)
  {
    if nodes != [] {
      EligibleMembers(nodes[..|nodes| - 1], region, self, scope, tierOf, n);
    }
  }

  /** Filtering keeps the order and looks at each node by itself. */
  lemma {:induction false} EligibleInOrder(a: seq<NodeInfo>, b: seq<NodeInfo>, region: string, self: string, scope: Scope, tierOf: TierOf)
    ensures Eligible(a + b, region, self, scope, tierOf)
         == Eligible(a, region, self, scope, tierOf) + Eligible(b, region, self, scope, tierOf)
    decreases |b|
  {
    if b == [] {
      assert a + b == a;
    } else {
      assert (a + b)[..|a + b| - 1] == a + b[..|b| - 1];
      EligibleInOrder(a, b[..|b| - 1], region, self, scope, tierOf);
    }
  }

  method Filter(nodes: seq<NodeInfo>, region: string, self: string, scope: Scope, tierOf: TierOf)
    returns (eligible: seq<NodeInfo>)
    ensures eligible == Eligible(nodes, region, self, scope, tierOf)
  {
    eligible := [];
    for i := 0 to |nodes|
      invariant eligible == Eligible(nodes[..i], region, self, scope, tierOf)
    {
      var n := nodes[i];
      assert nodes[..i + 1][..i] == nodes[..i];
      if n.peerID == self || !n.wantExit || n.region != region {
        continue;
      }
      if !scope.Allows(tierOf(n.peerID)) {
        continue;
      }
      eligible := eligible + [n];
    }
    assert nodes[..|nodes|] == nodes;
  }

  // ------------------------------------------------------------------- orders

  /** More trusted first, then lower latency, then lower load. */
  predicate Better(ta: Tier, ma: Metrics, tb: Tier, mb: Metrics) {
    if ta != tb then ta > tb
    else if ma.latencyMs != mb.latencyMs then ma.latencyMs < mb.latencyMs
    else ma.load < mb.load
  }

  function Lexicographic(tierOf: TierOf, metricsOf: MetricsOf): (NodeInfo, NodeInfo) -> bool {
    (a: NodeInfo, b: NodeInfo) =>
      Better(tierOf(a.peerID), metricsOf(a.peerID), tierOf(b.peerID), metricsOf(b.peerID))
  }

  function Times(weight: real, n: int): real {
    weight * n as real
  }

  function Score(w: Weights, t: Tier, m: Metrics): real {
    Times(w.trust, t) - Times(w.latency, m.latencyMs) - Times(w.load, m.load)
  }

  /** Higher score first, and the lexicographic order between equal scores. */
  predicate Before(w: Weights, ta: Tier, ma: Metrics, tb: Tier, mb: Metrics) {
    var sa, sb := Score(w, ta, ma), Score(w, tb, mb);
    if sa != sb then sa > sb else Better(ta, ma, tb, mb)
  }

  function Weighted(w: Weights, tierOf: TierOf, metricsOf: MetricsOf): (NodeInfo, NodeInfo) -> bool {
    (a: NodeInfo, b: NodeInfo) =>
      Before(w, tierOf(a.peerID), metricsOf(a.peerID), tierOf(b.peerID), metricsOf(b.peerID))
  }

  lemma LexicographicIsStrictWeak(tierOf: TierOf, metricsOf: MetricsOf)
    ensures StrictWeakOrder(Lexicographic(tierOf, metricsOf))
  {
    var less := Lexicographic(tierOf, metricsOf);
    forall x, y ensures less(x, y) == Better(tierOf(x.peerID), metricsOf(x.peerID), tierOf(y.peerID), metricsOf(y.peerID)) {}
    forall x ensures !less(x, x) {}
    forall x, y, z | less(x, y) && less(y, z) ensures less(x, z) {}
    forall x, y, z | Equivalent(less, x, y) && Equivalent(less, y, z) ensures Equivalent(less, x, z) {}
  }

  /** For all weights, of whatever sign. */
  lemma WeightedIsStrictWeak(w: Weights, tierOf: TierOf, metricsOf: MetricsOf)
    ensures StrictWeakOrder(Weighted(w, tierOf, metricsOf))
  {
    var less := Weighted(w, tierOf, metricsOf);
    forall x ensures !less(x, x) {
      SameRank(w, tierOf, metricsOf, x, x);
    }
    forall x, y, z | less(x, y) && less(y, z) ensures less(x, z) {
      Chain(w, tierOf(x.peerID), metricsOf(x.peerID), tierOf(y.peerID), metricsOf(y.peerID),
            tierOf(z.peerID), metricsOf(z.peerID));
    }
    forall x, y, z | Equivalent(less, x, y) && Equivalent(less, y, z) ensures Equivalent(less, x, z) {
      SameRank(w, tierOf, metricsOf, x, y);
      SameRank(w, tierOf, metricsOf, y, z);
      SameRank(w, tierOf, metricsOf, x, z);
    }
  }

  lemma Chain(w: Weights, tx: Tier, mx: Metrics, ty: Tier, my: Metrics, tz: Tier, mz: Metrics)
    requires Before(w, tx, mx, ty, my) && Before(w, ty, my, tz, mz)
    ensures Before(w, tx, mx, tz, mz)
  {}

  /** The weighted order leaves two nodes undecided only if they are alike in all three. */
  lemma SameRank(w: Weights, tierOf: TierOf, metricsOf: MetricsOf, x: NodeInfo, y: NodeInfo)
    ensures Equivalent(Weighted(w, tierOf, metricsOf), x, y)
       <==> tierOf(x.peerID) == tierOf(y.peerID) && metricsOf(x.peerID) == metricsOf(y.peerID)
  {
    var less := Weighted(w, tierOf, metricsOf);
    var tx, ty, mx, my := tierOf(x.peerID), tierOf(y.peerID), metricsOf(x.peerID), metricsOf(y.peerID);
    assert less(x, y) == Before(w, tx, mx, ty, my);
    assert less(y, x) == Before(w, ty, my, tx, mx);
    NeitherBefore(w, tx, mx, ty, my);
  }

  lemma NeitherBefore(w: Weights, tx: Tier, mx: Metrics, ty: Tier, my: Metrics)
    ensures !Before(w, tx, mx, ty, my) && !Before(w, ty, my, tx, mx) <==> tx == ty && mx == my
  {}

  // ------------------------------------------------------------------ ranking

  function Ranked(nodes: seq<NodeInfo>, region: string, self: string, scope: Scope,
                  tierOf: TierOf, metricsOf: MetricsOf): seq<NodeInfo> {
    Sort(Lexicographic(tierOf, metricsOf), Eligible(nodes, region, self, scope, tierOf))
  }

  function RankedWeighted(nodes: seq<NodeInfo>, region: string, self: string, scope: Scope,
                          tierOf: TierOf, metricsOf: MetricsOf, w: Weights): seq<NodeInfo> {
    Sort(Weighted(w, tierOf, metricsOf), Eligible(nodes, region, self, scope, tierOf))
  }

  /** The result is the one stable sorted arrangement of the eligible nodes. */
  method RankExits(nodes: seq<NodeInfo>, region: string, self: string, scope: Scope,
                   tierOf: TierOf, metricsOf: MetricsOf) returns (r: seq<NodeInfo>)
    ensures r == Ranked(nodes, region, self, scope, tierOf, metricsOf)
    ensures StablySorted(Lexicographic(tierOf, metricsOf), Eligible(nodes, region, self, scope, tierOf), r)
    ensures forall r' :: StablySorted(Lexicographic(tierOf, metricsOf), Eligible(nodes, region, self, scope, tierOf), r') ==> r' == r
  {
    var eligible := Filter(nodes, region, self, scope, tierOf);
    LexicographicIsStrictWeak(tierOf, metricsOf);
    r := SortedCopy(eligible, Lexicographic(tierOf, metricsOf));
  }

  method RankExitsWeighted(nodes: seq<NodeInfo>, region: string, self: string, scope: Scope,
                           tierOf: TierOf, metricsOf: MetricsOf, w: Weights) returns (r: seq<NodeInfo>)
    ensures r == RankedWeighted(nodes, region, self, scope, tierOf, metricsOf, w)
    ensures StablySorted(Weighted(w, tierOf, metricsOf), Eligible(nodes, region, self, scope, tierOf), r)
    ensures forall r' :: StablySorted(Weighted(w, tierOf, metricsOf), Eligible(nodes, region, self, scope, tierOf), r') ==> r' == r
  {
    var eligible := Filter(nodes, region, self, scope, tierOf);
    WeightedIsStrictWeak(w, tierOf, metricsOf);
    r := SortedCopy(eligible, Weighted(w, tierOf, metricsOf));
  }

  /** `a` may stand before `b`: not less trusted, and at one tier not slower, and at one latency not
      more loaded. */
  predicate MayPrecede(tierOf: TierOf, metricsOf: MetricsOf, a: NodeInfo, b: NodeInfo) {
    var ta, tb, ma, mb := tierOf(a.peerID), tierOf(b.peerID), metricsOf(a.peerID), metricsOf(b.peerID);
    && ta >= tb
    && (ta == tb ==> ma.latencyMs <= mb.latencyMs && (ma.latencyMs == mb.latencyMs ==> ma.load <= mb.load))
  }

  /** Of any two exits in the ranking, the first may stand before the second; the ranking is
      a permutation of the eligible nodes. */
  lemma RankedIsOrdered(nodes: seq<NodeInfo>, region: string, self: string, scope: Scope,
                        tierOf: TierOf, metricsOf: MetricsOf, i: nat, j: nat)
    requires i < j < |Ranked(nodes, region, self, scope, tierOf, metricsOf)|
    ensures var r := Ranked(nodes, region, self, scope, tierOf, metricsOf);
            MayPrecede(tierOf, metricsOf, r[i], r[j])
    ensures multiset(Ranked(nodes, region, self, scope, tierOf, metricsOf)) == multiset(Eligible(nodes, region, self, scope, tierOf))
  {
    var less, eligible := Lexicographic(tierOf, metricsOf), Eligible(nodes, region, self, scope, tierOf);
    var r := Sort(less, eligible);
    LexicographicIsStrictWeak(tierOf, metricsOf);
    SortIsStable(less, eligible);
    hide Eligible, Sort, StrictWeakOrder, SamePeers;
    StablySortedPermutes(less, eligible, r);
    assert !less(r[j], r[i]);
  }

  /** What the weights make of a node: trust counts for it, latency and load against it. */
  predicate Scores(w: Weights, t: Tier, m: Metrics, score: real) {
    score == w.trust * t as real - w.latency * m.latencyMs as real - w.load * m.load as real
  }

  /** Of any two exits in the weighted ranking, the first has the higher score, or the same and may
      stand before the second as in the plain one. */
  lemma RankedByScore(nodes: seq<NodeInfo>, region: string, self: string, scope: Scope,
                      tierOf: TierOf, metricsOf: MetricsOf, w: Weights, i: nat, j: nat, si: real, sj: real)
    requires i < j < |RankedWeighted(nodes, region, self, scope, tierOf, metricsOf, w)|
    requires var r := RankedWeighted(nodes, region, self, scope, tierOf, metricsOf, w);
             Scores(w, tierOf(r[i].peerID), metricsOf(r[i].peerID), si) && Scores(w, tierOf(r[j].peerID), metricsOf(r[j].peerID), sj)
    ensures var r := RankedWeighted(nodes, region, self, scope, tierOf, metricsOf, w);
            si > sj || (si == sj && MayPrecede(tierOf, metricsOf, r[i], r[j]))
    ensures multiset(RankedWeighted(nodes, region, self, scope, tierOf, metricsOf, w))
         == multiset(Eligible(nodes, region, self, scope, tierOf))
  {
    var less, eligible := Weighted(w, tierOf, metricsOf), Eligible(nodes, region, self, scope, tierOf);
    var r := Sort(less, eligible);
    hide Eligible, Sort, StrictWeakOrder, SamePeers, Score, Scores;
    WeightedIsStrictWeak(w, tierOf, metricsOf);
    SortIsStable(less, eligible);
    StablySortedPermutes(less, eligible, r);
    ScoreIs(w, tierOf(r[i].peerID), metricsOf(r[i].peerID), si);
    ScoreIs(w, tierOf(r[j].peerID), metricsOf(r[j].peerID), sj);
    assert !less(r[j], r[i]);
  }

  lemma ScoreIs(w: Weights, t: Tier, m: Metrics, score: real)
    requires Scores(w, t, m, score)
    ensures score == Score(w, t, m)
  {}

  method SortedCopy(s: seq<NodeInfo>, less: (NodeInfo, NodeInfo) -> bool) returns (r: seq<NodeInfo>)
    requires StrictWeakOrder(less)
    ensures r == Sort(less, s) && StablySorted(less, s, r)
    ensures forall r' :: StablySorted(less, s, r') ==> r' == r
  {
    var a := new NodeInfo[|s|](i requires 0 <= i < |s| => s[i]);
    assert a[..] == s;
    SortInPlace(a, less);
    r := a[..];
    forall r' | StablySorted(less, s, r') ensures r' == r {
      forall x ensures Peers(less, x, r') == Peers(less, x, r) {
        assert Peers(less, x, s) == Peers(less, x, r');
        assert Peers(less, x, s) == Peers(less, x, r);
      }
      SortedIsUnique(less, r', r);
    }
  }

  // ------------------------------------------------- weighted refines to lexicographic

  /** Latencies and loads are between 0 and these bounds. */
  ghost predicate Bounded(m: Metrics, maxLatency: nat, maxLoad: nat) {
    0 <= m.latencyMs <= maxLatency && 0 <= m.load <= maxLoad
  }

  /** A step of trust outweighs all latency and load can do together, and a step of latency
      outweighs all load can do. */
  predicate Dominant(w: Weights, maxLatency: nat, maxLoad: nat) {
    && w.load >= 0.0 && w.latency >= 0.0
    && w.trust > Times(w.latency, maxLatency) + Times(w.load, maxLoad)
    && w.latency > Times(w.load, maxLoad)
  }

  lemma Scaled(k: real, x: int, y: int)
    requires k >= 0.0 && x <= y
    ensures Times(k, x) <= Times(k, y)
  {}

  lemma ScaledNext(k: real, x: int)
    ensures Times(k, x + 1) == Times(k, x) + k
  {
    assert (x + 1) as real == x as real + 1.0;
  }

  /** The score decides as the lexicographic order does. */
  lemma DominantDecides(w: Weights, maxLatency: nat, maxLoad: nat, ta: Tier, ma: Metrics, tb: Tier, mb: Metrics)
    requires Dominant(w, maxLatency, maxLoad)
    requires Bounded(ma, maxLatency, maxLoad) && Bounded(mb, maxLatency, maxLoad)
    requires Better(ta, ma, tb, mb)
    ensures Score(w, ta, ma) >= Score(w, tb, mb)
  {
    Scaled(w.latency, ma.latencyMs, maxLatency);
    Scaled(w.load, ma.load, maxLoad);
    Scaled(w.latency, 0, mb.latencyMs);
    Scaled(w.load, 0, mb.load);
    if ta > tb {
      Scaled(w.latency, 0, maxLatency);
      Scaled(w.load, 0, maxLoad);
      ScaledNext(w.trust, tb);
      Scaled(w.trust, tb + 1, ta);
    } else if ma.latencyMs < mb.latencyMs {
      ScaledNext(w.latency, ma.latencyMs);
      Scaled(w.latency, ma.latencyMs + 1, mb.latencyMs);
    } else {
      Scaled(w.load, ma.load, mb.load);
    }
  }

  lemma DominantAgrees(w: Weights, maxLatency: nat, maxLoad: nat, tierOf: TierOf, metricsOf: MetricsOf, a: NodeInfo, b: NodeInfo)
    requires Dominant(w, maxLatency, maxLoad)
    requires Bounded(metricsOf(a.peerID), maxLatency, maxLoad) && Bounded(metricsOf(b.peerID), maxLatency, maxLoad)
    ensures Weighted(w, tierOf, metricsOf)(a, b) == Lexicographic(tierOf, metricsOf)(a, b)
  {
    var ta, tb, ma, mb := tierOf(a.peerID), tierOf(b.peerID), metricsOf(a.peerID), metricsOf(b.peerID);
    if Better(ta, ma, tb, mb) {
      DominantDecides(w, maxLatency, maxLoad, ta, ma, tb, mb);
    } else if Better(tb, mb, ta, ma) {
      DominantDecides(w, maxLatency, maxLoad, tb, mb, ta, ma);
    }
  }

  /** With dominant weights the weighted ranking returns the lexicographic one. */
  lemma WeightedRefinesToLexicographic(nodes: seq<NodeInfo>, region: string, self: string, scope: Scope,
                                       tierOf: TierOf, metricsOf: MetricsOf, w: Weights, maxLatency: nat, maxLoad: nat)
    requires Dominant(w, maxLatency, maxLoad)
    requires forall n :: n in Eligible(nodes, region, self, scope, tierOf) ==>
               Bounded(metricsOf(n.peerID), maxLatency, maxLoad)
    ensures RankedWeighted(nodes, region, self, scope, tierOf, metricsOf, w)
         == Ranked(nodes, region, self, scope, tierOf, metricsOf)
  {
    var eligible := Eligible(nodes, region, self, scope, tierOf);
    forall a, b | a in eligible && b in eligible
      ensures Weighted(w, tierOf, metricsOf)(a, b) == Lexicographic(tierOf, metricsOf)(a, b)
    {
      DominantAgrees(w, maxLatency, maxLoad, tierOf, metricsOf, a, b);
    }
    SortCongruence(Weighted(w, tierOf, metricsOf), Lexicographic(tierOf, metricsOf), eligible);
  }

  // ------------------------------------------------------------------- merging

  function IDs(nodes: seq<NodeInfo>): set<string> {
    set i | 0 <= i < |nodes| :: nodes[i].peerID
  }

  function FromDHT(e: DHTExit): NodeInfo {
    NodeInfo(e.peerID, e.addrs, e.region, true, 0)
  }

  /** The coordinator's nodes, and after them each exit that only the DHT knows, once, as it
      was first seen. */
  function Merged(coord: seq<NodeInfo>, dht: seq<DHTExit>): seq<NodeInfo> {
    if dht == [] then coord
    else
      var init, last := Merged(coord, dht[..|dht| - 1]), dht[|dht| - 1];
      if last.peerID in IDs(init) then init else init + [FromDHT(last)]
  }

  function MergedTier(known: set<string>, coordTierOf: TierOf): TierOf {
    (id: string) => if id in known then coordTierOf(id) else STRANGER
  }

  /** The coordinator does not name the exit, and no earlier entry does. */
  predicate FirstSeen(coord: seq<NodeInfo>, dht: seq<DHTExit>, k: nat)
    requires k < |dht|
  {
    && (forall i :: 0 <= i < |coord| ==> coord[i].peerID != dht[k].peerID)
    && (forall l :: 0 <= l < k ==> dht[l].peerID != dht[k].peerID)
  }

  /** `m` is the coordinator's list followed by the DHT's entries at `at`, in their order: those first
      seen there, each as an exit of unknown load with its own addresses and region. */
  ghost predicate Appends(coord: seq<NodeInfo>, dht: seq<DHTExit>, m: seq<NodeInfo>, at: seq<nat>) {
    && |m| == |coord| + |at| && m[..|coord|] == coord
    && (forall i :: 0 <= i < |at| ==>
          at[i] < |dht| && m[|coord| + i] == NodeInfo(dht[at[i]].peerID, dht[at[i]].addrs, dht[at[i]].region, true, 0))
    && (forall i, j :: 0 <= i < j < |at| ==> at[i] < at[j])
    && (forall k :: 0 <= k < |dht| ==> (k in at <==> FirstSeen(coord, dht, k)))
  }

  lemma SeenExactly(coord: seq<NodeInfo>, dht: seq<DHTExit>, k: nat)
    requires k < |dht|
    ensures FirstSeen(coord, dht, k) <==> dht[k].peerID !in IDs(coord) + DHTIDs(dht[..k])
  {
    if !FirstSeen(coord, dht, k) {
      if i :| 0 <= i < |coord| && coord[i].peerID == dht[k].peerID {
        assert coord[i].peerID in IDs(coord);
      } else {
        var l :| 0 <= l < k && dht[l].peerID == dht[k].peerID;
        assert dht[..k][l].peerID in DHTIDs(dht[..k]);
      }
    }
  }

  /** The merge appends exactly the exits that only the DHT knows, once each, where first seen. */
  lemma {:induction false} MergedAppends(coord: seq<NodeInfo>, dht: seq<DHTExit>) returns (at: seq<nat>)
    ensures Appends(coord, dht, Merged(coord, dht), at)
  {
    at := [];
    if dht != [] {
      var n := |dht| - 1;
      at := MergedAppends(coord, dht[..n]);
      MergedIDs(coord, dht[..n]);
      SeenExactly(coord, dht, n);
      hide Merged, FirstSeen;
      assert Merged(coord, dht) == if FirstSeen(coord, dht, n) then Merged(coord, dht[..n]) + [FromDHT(dht[n])] else Merged(coord, dht[..n]) by {
        MergedOne(coord, dht);
      }
      AppendsMore(coord, dht, Merged(coord, dht[..n]), at);
      at := if FirstSeen(coord, dht, n) then at + [n] else at;
    }
  }

  lemma MergedOne(coord: seq<NodeInfo>, dht: seq<DHTExit>)
    requires dht != []
    ensures var n := |dht| - 1;
      Merged(coord, dht) == if dht[n].peerID in IDs(Merged(coord, dht[..n])) then Merged(coord, dht[..n])
                            else Merged(coord, dht[..n]) + [FromDHT(dht[n])]
  {}

  lemma FirstSeenInPrefix(coord: seq<NodeInfo>, dht: seq<DHTExit>, n: nat, k: nat)
    requires k < n <= |dht|
    ensures FirstSeen(coord, dht[..n], k) <==> FirstSeen(coord, dht, k)
  {}

  lemma AppendsMore(coord: seq<NodeInfo>, dht: seq<DHTExit>, m: seq<NodeInfo>, at: seq<nat>)
    requires dht != [] && Appends(coord, dht[..|dht| - 1], m, at)
    ensures var n := |dht| - 1;
      if FirstSeen(coord, dht, n) then Appends(coord, dht, m + [FromDHT(dht[n])], at + [n]) else Appends(coord, dht, m, at)
  {
    hide FirstSeen;
    var n := |dht| - 1;
    var seen := FirstSeen(coord, dht, n);
    var at' := if seen then at + [n] else at;
    forall k | 0 <= k < |dht| ensures k in at' <==> FirstSeen(coord, dht, k) {
      if k < n { FirstSeenInPrefix(coord, dht, n, k); }
    }
  }

  /** The coordinator's tier for whom the coordinator names, and stranger for anybody else. */
  ghost predicate TiersByCoordinator(coord: seq<NodeInfo>, coordTierOf: TierOf, tierOf: TierOf) {
    && (forall i :: 0 <= i < |coord| ==> tierOf(coord[i].peerID) == coordTierOf(coord[i].peerID))
    && (forall id :: (forall i :: 0 <= i < |coord| ==> coord[i].peerID != id) ==> tierOf(id) == 0)
  }

  method MergeExits(coord: seq<NodeInfo>, coordTierOf: TierOf, dht: seq<DHTExit>)
    returns (merged: seq<NodeInfo>, tierOf: TierOf, ghost at: seq<nat>)
    ensures merged == Merged(coord, dht) && Appends(coord, dht, merged, at)
    ensures tierOf == MergedTier(IDs(coord), coordTierOf) && TiersByCoordinator(coord, coordTierOf, tierOf)
  {
    var known: set<string> := {};
    for i := 0 to |coord|
      invariant known == IDs(coord[..i])
    {
      assert coord[..i + 1] == coord[..i] + [coord[i]];
      IDsGrow(coord[..i], coord[i]);
      known := known + {coord[i].peerID};
    }
    assert coord[..|coord|] == coord;
    merged := coord;
    var dhtOnly: set<string> := {};
    for i := 0 to |dht|
      invariant merged == Merged(coord, dht[..i])
      invariant IDs(merged) == known + dhtOnly
    {
      var e := dht[i];
      assert dht[..i + 1][..i] == dht[..i];
      if e.peerID in known {
        continue;
      }
      if e.peerID in dhtOnly {
        continue;
      }
      dhtOnly := dhtOnly + {e.peerID};
      IDsGrow(merged, FromDHT(e));
      merged := merged + [FromDHT(e)];
    }
    assert dht[..|dht|] == dht;
    tierOf := MergedTier(known, coordTierOf);
    at := MergedAppends(coord, dht);
  }

  lemma IDsGrow(nodes: seq<NodeInfo>, n: NodeInfo)
    ensures IDs(nodes + [n]) == IDs(nodes) + {n.peerID}
  {
    var all := nodes + [n];
    assert all[|nodes|] == n;
    forall id | id in IDs(nodes) ensures id in IDs(all) {
      var i :| 0 <= i < |nodes| && nodes[i].peerID == id;
      assert all[i].peerID == id;
    }
  }

  function DHTIDs(dht: seq<DHTExit>): set<string> {
    set i | 0 <= i < |dht| :: dht[i].peerID
  }

  lemma DHTIDsGrow(dht: seq<DHTExit>)
    requires dht != []
    ensures DHTIDs(dht) == DHTIDs(dht[..|dht| - 1]) + {dht[|dht| - 1].peerID}
  {
    var init := dht[..|dht| - 1];
    forall i | 0 <= i < |init| ensures init[i] == dht[i] {}
  }

  ghost predicate DistinctIDs(nodes: seq<NodeInfo>) {
    forall i, j :: 0 <= i < j < |nodes| ==> nodes[i].peerID != nodes[j].peerID
  }

  /** What a merged list keeps of the coordinator's. */
  ghost predicate Extends(coord: seq<NodeInfo>, m: seq<NodeInfo>) {
    && coord <= m
    && (DistinctIDs(coord) ==> DistinctIDs(m))
    && (forall i :: |coord| <= i < |m| ==> m[i].peerID !in IDs(coord))
  }

  lemma ExtendsMore(coord: seq<NodeInfo>, m: seq<NodeInfo>, n: NodeInfo)
    requires Extends(coord, m) && n.peerID !in IDs(m)
    ensures Extends(coord, m + [n])
  {
    forall i | 0 <= i < |m| ensures m[i].peerID in IDs(m) {}
    forall id | id in IDs(coord) ensures id in IDs(m) {
      var i :| 0 <= i < |coord| && coord[i].peerID == id;
      assert m[i] == coord[i];
    }
  }

  /** The merge keeps the coordinator's entries first and untouched, names exactly the union
      of both sides, and adds no duplicate. */
  lemma {:induction false} MergeIsUnion(coord: seq<NodeInfo>, dht: seq<DHTExit>)
    ensures IDs(Merged(coord, dht)) == IDs(coord) + DHTIDs(dht)
    ensures coord <= Merged(coord, dht)
    ensures DistinctIDs(coord) ==> DistinctIDs(Merged(coord, dht))
    ensures forall i :: |coord| <= i < |Merged(coord, dht)| ==> Merged(coord, dht)[i].peerID !in IDs(coord)
  {
    MergeExtends(coord, dht);
    MergedIDs(coord, dht);
  }

  lemma {:induction false} MergeExtends(coord: seq<NodeInfo>, dht: seq<DHTExit>)
    ensures Extends(coord, Merged(coord, dht))
  {
    if dht != [] {
      var init, last := dht[..|dht| - 1], dht[|dht| - 1];
      MergeExtends(coord, init);
      if last.peerID !in IDs(Merged(coord, init)) {
        ExtendsMore(coord, Merged(coord, init), FromDHT(last));
      }
    }
  }

  lemma {:induction false} MergedIDs(coord: seq<NodeInfo>, dht: seq<DHTExit>)
    ensures IDs(Merged(coord, dht)) == IDs(coord) + DHTIDs(dht)
  {
    if dht != [] {
      var init, last := dht[..|dht| - 1], dht[|dht| - 1];
      MergedIDs(coord, init);
      IDsGrow(Merged(coord, init), FromDHT(last));
      DHTIDsGrow(dht);
    }
  }

  /** A conservative user sees none of the DHT's exits. */
  lemma {:induction false} ConservativeEligible(coord: seq<NodeInfo>, coordTierOf: TierOf, dht: seq<DHTExit>, region: string, self: string)
    ensures Eligible(Merged(coord, dht), region, self, Conservative, MergedTier(IDs(coord), coordTierOf))
         == Eligible(coord, region, self, Conservative, coordTierOf)
  {
    var tierOf := MergedTier(IDs(coord), coordTierOf);
    if dht == [] {
      KnownEligible(coord, coord, coordTierOf, region, self);
    } else {
      var init, last := dht[..|dht| - 1], dht[|dht| - 1];
      ConservativeEligible(coord, coordTierOf, init, region, self);
      MergeIsUnion(coord, init);
      assert IDs(coord) <= IDs(Merged(coord, init));
      if last.peerID !in IDs(Merged(coord, init)) {
        assert Merged(coord, dht)[..|Merged(coord, init)|] == Merged(coord, init);
      }
    }
  }

  lemma {:induction false} KnownEligible(coord: seq<NodeInfo>, nodes: seq<NodeInfo>, coordTierOf: TierOf, region: string, self: string)
    requires forall i :: 0 <= i < |nodes| ==> nodes[i].peerID in IDs(coord)
    ensures Eligible(nodes, region, self, Conservative, MergedTier(IDs(coord), coordTierOf))
         == Eligible(nodes, region, self, Conservative, coordTierOf)
  {
    if nodes != [] {
      KnownEligible(coord, nodes[..|nodes| - 1], coordTierOf, region, self);
    }
  }

  /** Merging never affects a conservative user: either ranking of the merged list is exactly
      the ranking of the coordinator's list alone. */
  lemma MergeInvisibleToConservative(coord: seq<NodeInfo>, coordTierOf: TierOf, dht: seq<DHTExit>,
                                     region: string, self: string, metricsOf: MetricsOf, w: Weights)
    ensures Ranked(Merged(coord, dht), region, self, Conservative, MergedTier(IDs(coord), coordTierOf), metricsOf)
         == Ranked(coord, region, self, Conservative, coordTierOf, metricsOf)
    ensures RankedWeighted(Merged(coord, dht), region, self, Conservative, MergedTier(IDs(coord), coordTierOf), metricsOf, w)
         == RankedWeighted(coord, region, self, Conservative, coordTierOf, metricsOf, w)
  {
    var tierOf := MergedTier(IDs(coord), coordTierOf);
    var eligible := Eligible(coord, region, self, Conservative, coordTierOf);
    ConservativeEligible(coord, coordTierOf, dht, region, self);
    forall n | n in eligible ensures tierOf(n.peerID) == coordTierOf(n.peerID) {
      EligibleMembers(coord, region, self, Conservative, coordTierOf, n);
      var i :| 0 <= i < |coord| && coord[i] == n;
      assert n.peerID in IDs(coord);
    }
    SortCongruence(Lexicographic(tierOf, metricsOf), Lexicographic(coordTierOf, metricsOf), eligible);
    SortCongruence(Weighted(w, tierOf, metricsOf), Weighted(w, coordTierOf, metricsOf), eligible);
  }

  /** Under either scope, every coordinator exit above stranger tier precedes every exit that
      only the DHT knows. */
  lemma TrustedPrecedeDHTOnly(coord: seq<NodeInfo>, coordTierOf: TierOf, dht: seq<DHTExit>, region: string, self: string,
                              scope: Scope, metricsOf: MetricsOf, i: nat, j: nat)
    requires var r := Ranked(Merged(coord, dht), region, self, scope, MergedTier(IDs(coord), coordTierOf), metricsOf);
             && i < |r| && j < |r| && r[i].peerID in IDs(coord) && coordTierOf(r[i].peerID) > STRANGER
             && r[j].peerID !in IDs(coord)
    ensures i < j
  {
    var tierOf := MergedTier(IDs(coord), coordTierOf);
    var less := Lexicographic(tierOf, metricsOf);
    var r := Ranked(Merged(coord, dht), region, self, scope, tierOf, metricsOf);
    LexicographicIsStrictWeak(tierOf, metricsOf);
    SortIsStable(less, Eligible(Merged(coord, dht), region, self, scope, tierOf));
    assert Sorted(less, r);
    assert tierOf(r[i].peerID) > STRANGER == tierOf(r[j].peerID);
    assert less(r[i], r[j]);
    SmallerIsFirst(less, r, i, j);
  }

  lemma SmallerIsFirst(less: (NodeInfo, NodeInfo) -> bool, r: seq<NodeInfo>, i: nat, j: nat)
    requires StrictWeakOrder(less) && Sorted(less, r) && i < |r| && j < |r| && less(r[i], r[j])
    ensures i < j
  {
    assert !less(r[i], r[i]);
  }
}
