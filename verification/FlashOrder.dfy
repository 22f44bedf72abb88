/** The stages of FlashOrder's `HyperGraph`, each as a relation between its input and what it may
    produce: sorting leaves equal keys in any order, so the two stages that sort have several outcomes. */
module FlashOrder {
  import opened Graphs
  import opened Sequences
  import opened LocalOrders
  import opened Sorting
  import opened TopologicalSort

  // ---------------------------------------------------------------- identifiers

  /** The first `max` distinct commands, in the order in which they first occur. */
  ghost function FirstDistinct(s: seq<Cmd>, max: nat): seq<Cmd> {
    if s == [] then []
    else
      var d, last := FirstDistinct(s[..|s| - 1], max), s[|s| - 1];
      if last in d || |d| >= max then d else d + [last]
  }

  /** The indices of the known commands of a list. */
  ghost function Mapped(list: seq<Cmd>, index: map<Cmd, nat>): seq<nat> {
    if list == [] then []
    else
      var last := list[|list| - 1];
      Mapped(list[..|list| - 1], index) + if last in index then [index[last]] else []
  }

  ghost function MapAll(lists: seq<seq<Cmd>>, index: map<Cmd, nat>): (r: seq<seq<nat>>)
    ensures |r| == |lists| && forall i :: 0 <= i < |lists| ==> r[i] == Mapped(lists[i], index)
  {
    seq(|lists|, i requires 0 <= i < |lists| => Mapped(lists[i], index))
  }

  // ---------------------------------------------------------------- preferences

  /** Truncates toward zero. */
  function Truncated(x: real): int {
    if x >= 0.0 then x.Floor else -((-x).Floor)
  }

  function Threshold(nFaulty: int, nNodes: int, gamma: real): (t: int)
    ensures t >= 1
  {
    var nodes := if nNodes < 1 then 1 else nNodes;
    var t := Truncated(nodes as real * (1.0 - gamma)) + nFaulty + 1;
    if t < 1 then 1 else t
  }

  /** `pref`: how many lists put `a` before `b`, in 16 bits. */
  ghost function Pref(lists: seq<seq<nat>>, a: nat, b: nat): nat {
    Votes(lists, a, b) % WRAP
  }

  /** The transactions that enough lists put before `x`. */
  ghost function Ahead(lists: seq<seq<nat>>, n: nat, threshold: int, x: nat): set<nat> {
    set o | 0 <= o < n && o != x && Pref(lists, o, x) >= threshold
  }

  /** `canonical_pos` */
  ghost function Position(lists: seq<seq<nat>>, n: nat, threshold: int, x: nat): nat {
    |Ahead(lists, n, threshold, x)|
  }

  ghost function Positions(lists: seq<seq<nat>>, n: nat, threshold: int): (pos: seq<int>)
    ensures |pos| == n && forall x :: 0 <= x < n ==> pos[x] == Position(lists, n, threshold, x)
  {
    seq(n, x requires 0 <= x < n => Position(lists, n, threshold, x))
  }

  // ---------------------------------------------------------------- clusters

  /** `clusters` cuts `sid` where neighbouring positions are at least `delta` apart, and nowhere else. */
  ghost predicate IsClustering(sid: seq<nat>, pos: Key, delta: int, clusters: seq<seq<nat>>) {
    && Concat(clusters) == sid
    && (forall i :: 0 <= i < |clusters| ==> |clusters[i]| > 0 && Dense(clusters[i], pos, delta))
    && (forall i :: 0 < i < |clusters| ==> Gap(clusters[i - 1], clusters[i], pos, delta))
  }

  ghost predicate Dense(cluster: seq<nat>, pos: Key, delta: int) {
    forall k :: 0 < k < |cluster| ==> pos(cluster[k]) - pos(cluster[k - 1]) < delta
  }

  ghost predicate Gap(left: seq<nat>, right: seq<nat>, pos: Key, delta: int) {
    |left| > 0 && |right| > 0 && pos(right[0]) - pos(left[|left| - 1]) >= delta
  }

  /** How much more often `m` precedes the other members than they precede it. */
  ghost function Net(lists: seq<seq<nat>>, m: nat, members: seq<nat>): int {
    if members == [] then 0
    else
      var o := members[|members| - 1];
      Net(lists, m, members[..|members| - 1]) + if o != m then Pref(lists, m, o) - Pref(lists, o, m) else 0
  }

  /** Descending net score. */
  ghost function ByNet(lists: seq<seq<nat>>, members: seq<nat>): Key {
    (m: nat) => -Net(lists, m, members)
  }

  // ---------------------------------------------------------------- dependencies between clusters

  ghost function RowWeight(lists: seq<seq<nat>>, a: nat, bs: seq<nat>): nat {
    if bs == [] then 0 else RowWeight(lists, a, bs[..|bs| - 1]) + Pref(lists, a, bs[|bs| - 1])
  }

  ghost function Weight(lists: seq<seq<nat>>, as': seq<nat>, bs: seq<nat>): nat {
    if as' == [] then 0 else Weight(lists, as'[..|as'| - 1], bs) + RowWeight(lists, as'[|as'| - 1], bs)
  }

  /** More than 1.2 times as much. */
  predicate Beats(x: nat, y: nat) {
    5 * x > 6 * y
  }

  ghost predicate Depends(lists: seq<seq<nat>>, clusters: seq<seq<nat>>, i: nat, j: nat)
    requires i < |clusters| && j < |clusters|
  {
    i != j && Beats(Weight(lists, clusters[i], clusters[j]), Weight(lists, clusters[j], clusters[i]))
  }

  ghost function DependencyGraph(lists: seq<seq<nat>>, clusters: seq<seq<nat>>): Graph {
    map i | 0 <= i < |clusters| :: DependentsOf(lists, clusters, i)
  }

  ghost function DependentsOf(lists: seq<seq<nat>>, clusters: seq<seq<nat>>, i: nat): set<Tx>
    requires i < |clusters|
  {
    set j | 0 <= j < |clusters| && Depends(lists, clusters, i, j)
  }

  // ---------------------------------------------------------------- all stages

  /** What the stages produced for two or more commands. */
  datatype Stages = Stages(
    sid: seq<nat>,
    clusters: seq<seq<nat>>,
    inner: seq<seq<nat>>,
    sorted: seq<Tx>,
    rest: seq<Tx>)

  ghost predicate AreStages(lists: seq<seq<nat>>, n: nat, threshold: int, delta: int, st: Stages) {
    var pos := At(Positions(lists, n, threshold));
    && IsSorting(Iota(n), pos, st.sid)
    && IsClustering(st.sid, pos, delta, st.clusters)
    && |st.inner| == |st.clusters|
    && (forall i :: 0 <= i < |st.clusters| ==> IsSorting(st.clusters[i], ByNet(lists, st.clusters[i]), st.inner[i]))
    && IsTopologicalSort(DependencyGraph(lists, st.clusters), st.sorted, st.rest)
    && InTurn(DependencyGraph(lists, st.clusters), st.sorted)
  }

  ghost predicate Within(s: seq<nat>, n: nat) {
    forall x :: x in s ==> x < n
  }

  /** The parts at the given indices. */
  ghost function Select(parts: seq<seq<nat>>, order: seq<nat>): (r: seq<seq<nat>>)
    requires Within(order, |parts|)
    ensures |r| == |order| && forall k :: 0 <= k < |order| ==> order[k] < |parts| && r[k] == parts[order[k]]
  {
    assert forall k :: 0 <= k < |order| ==> order[k] in order;
    seq(|order|, k requires 0 <= k < |order| => parts[order[k]])
  }

  ghost function Commands(ids: seq<Cmd>, order: seq<nat>): (r: seq<Cmd>)
    requires Within(order, |ids|)
    ensures |r| == |order| && forall k :: 0 <= k < |order| ==> order[k] < |ids| && r[k] == ids[order[k]]
  {
    assert forall k :: 0 <= k < |order| ==> order[k] in order;
    seq(|order|, k requires 0 <= k < |order| => ids[order[k]])
  }

  ghost predicate Emits(ids: seq<Cmd>, st: Stages, result: seq<Cmd>) {
    && Within(st.sorted + st.rest, |st.inner|)
    && var out := Concat(Select(st.inner, st.sorted + st.rest));
       Within(out, |ids|) && result == Commands(ids, out)
  }

  /** `result` is a possible result of `finalize` for these lists. */
  ghost predicate IsOutcome(lists: seq<seq<Cmd>>, max: nat, threshold: int, delta: int, result: seq<Cmd>) {
    var ids := FirstDistinct(Concat(lists), max);
    if |ids| <= 1 then result == ids
    else exists st :: IsOutcomeOf(lists, ids, threshold, delta, st, result)
  }

  ghost predicate IsOutcomeOf(lists: seq<seq<Cmd>>, ids: seq<Cmd>, threshold: int, delta: int, st: Stages, result: seq<Cmd>) {
    AreStages(MapAll(lists, Index(ids)), |ids|, threshold, delta, st) && Emits(ids, st, result)
  }
}
