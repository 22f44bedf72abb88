/** What FlashOrder's result keeps of a preference that all lists share: everything inside a cluster, and
    between clusters exactly what agrees with the one order that their dependencies give them. */
module FlashOrderUnanimity {
  import opened Graphs
  import opened Sequences
  import opened LocalOrders
  import opened Sorting
  import opened TopologicalSort
  import opened TopologicalOrders
  import opened FlashOrder
  import opened FlashOrderTheorems
  import opened FlashOrderFairness

  // ---------------------------------------------------------------- a preference inverted

  /** Three lists, all with 0 before 1, of which no two disagree on any pair. */
  ghost predicate Truncated(lists: seq<seq<Cmd>>) {
    |lists| == 3 && lists[0] == [0, 1] && lists[1] == [0, 1, 2, 3] && lists[2] == [0, 1, 2, 3]
  }

  lemma ShortPrecedes(s: seq<nat>, x: nat, y: nat)
    requires s == [0, 1]
    ensures Precedes(s, x, y) <==> x == 0 && y == 1
  {
    if x == 0 && y == 1 { assert s[0] == x && s[1] == y; }
  }

  lemma LongPrecedes(s: seq<nat>, x: nat, y: nat)
    requires s == [0, 1, 2, 3]
    ensures Precedes(s, x, y) <==> x < y <= 3
  {
    if x < y <= 3 { assert s[x] == x && s[y] == y; }
  }

  function TruncatedPref(x: nat, y: nat): nat {
    if x == 0 && y == 1 then 3 else if x < y <= 3 then 2 else 0
  }

  /** The preferences of the three lists. */
  ghost predicate Prefers(lists: seq<seq<nat>>) {
    forall x: nat, y: nat {:trigger Pref(lists, x, y)} :: Pref(lists, x, y) == TruncatedPref(x, y)
  }

  lemma TruncatedUnanimous(lists: seq<seq<Cmd>>)
    requires Truncated(lists)
    ensures Unanimous(lists, 0, 1)
  {
    ShortPrecedes(lists[0], 0, 1);
    LongPrecedes(lists[1], 0, 1);
  }

  lemma TruncatedPrefers(lists: seq<seq<Cmd>>)
    requires Truncated(lists)
    ensures Prefers(lists)
  {
    TruncatedUnanimous(lists);
    forall x: nat, y: nat ensures Pref(lists, x, y) == TruncatedPref(x, y) {
      PrefCount(lists, x, y);
      ShortPrecedes(lists[0], x, y);
      LongPrecedes(lists[1], x, y);
      var who: set<nat> := if x == 0 && y == 1 then {0, 1, 2} else if x < y <= 3 then {1, 2} else {};
      assert Preferring(lists, x, y) == who;
    }
  }

  lemma TruncatedPositions(lists: seq<seq<nat>>)
    requires Prefers(lists)
    ensures Position(lists, 4, 3, 1) == 1 && Position(lists, 4, 3, 0) == Position(lists, 4, 3, 2) == Position(lists, 4, 3, 3) == 0
  {
    assert Ahead(lists, 4, 3, 0) == {};
    assert Ahead(lists, 4, 3, 1) == {0};
    assert Ahead(lists, 4, 3, 2) == {};
    assert Ahead(lists, 4, 3, 3) == {};
  }

  /** Commands that are their own identifiers. */
  lemma {:induction false} MappedSame(list: seq<Cmd>, ids: seq<Cmd>)
    requires Distinct(ids) && forall x :: x in list ==> x < |ids| && ids[x] == x
    ensures Mapped(list, Index(ids)) == list
  {
    if list != [] {
      var init, last := list[..|list| - 1], list[|list| - 1];
      assert list == init + [last];
      assert last in list;
      assert forall x :: x in init ==> x in list;
      MappedSame(init, ids);
      IndexMeaning(ids, last);
    }
  }

  lemma ShortFirst(max: nat)
    requires max >= 2
    ensures FirstDistinct([0, 1], max) == [0, 1]
  {
    var none: seq<Cmd> := [];
    FirstDistinctStep(none, 0, max);
    FirstDistinctStep(none + [0], 1, max);
    assert none + [0] + [1] == [0, 1];
  }

  lemma LongFirst(short: seq<Cmd>, long: seq<Cmd>, max: nat)
    requires max >= 4 && short == [0, 1] && long == [0, 1, 2, 3]
    ensures FirstDistinct(short + long, max) == long
  {
    ShortFirst(max);
    FirstDistinctAppend(short, short, max);
    var twice := short + short;
    FirstDistinctStep(twice, 2, max);
    FirstDistinctStep(twice + [2], 3, max);
    assert short + long == twice + [2] + [3];
  }

  lemma ThreeParts(parts: seq<seq<nat>>)
    requires |parts| == 3
    ensures Concat(parts) == parts[0] + parts[1] + parts[2]
  {
    TwoParts(parts[..2]);
  }

  /** The identifiers are the commands themselves. */
  lemma TruncatedIds(lists: seq<seq<Cmd>>, max: nat)
    requires Truncated(lists) && max >= 4
    ensures FirstDistinct(Concat(lists), max) == lists[1]
  {
    ThreeParts(lists);
    LongFirst(lists[0], lists[1], max);
    FirstDistinctAppend(lists[0] + lists[1], lists[2], max);
  }

  lemma TruncatedMapped(lists: seq<seq<Cmd>>, ids: seq<Cmd>)
    requires Truncated(lists) && ids == lists[1]
    ensures MapAll(lists, Index(ids)) == lists
  {
    MappedSame(lists[0], ids);
    MappedSame(lists[1], ids);
  }

  lemma OneRow(lists: seq<seq<nat>>, a: nat, bs: seq<nat>)
    ensures Weight(lists, [a], bs) == RowWeight(lists, a, bs)
  {
    assert [a][..0] == [];
  }

  lemma OneColumn(lists: seq<seq<nat>>, x: nat, a: nat)
    ensures RowWeight(lists, x, [a]) == Pref(lists, x, a)
  {
    assert [a][..0] == [];
  }

  lemma ThreeRows(lists: seq<seq<nat>>, a: nat, b: nat, c: nat, bs: seq<nat>)
    ensures Weight(lists, [a, b, c], bs) == RowWeight(lists, a, bs) + RowWeight(lists, b, bs) + RowWeight(lists, c, bs)
  {
    assert [a, b, c] == [a] + [b] + [c];
    WeightAppend(lists, [a] + [b], [c], bs);
    WeightAppend(lists, [a], [b], bs);
    OneRow(lists, a, bs);
    OneRow(lists, b, bs);
    OneRow(lists, c, bs);
  }

  lemma ThreeColumns(lists: seq<seq<nat>>, x: nat, a: nat, b: nat, c: nat)
    ensures RowWeight(lists, x, [a, b, c]) == Pref(lists, x, a) + Pref(lists, x, b) + Pref(lists, x, c)
  {
    assert [a, b, c] == [a] + [b] + [c];
    RowWeightAppend(lists, x, [a] + [b], [c]);
    RowWeightAppend(lists, x, [a], [b]);
    OneColumn(lists, x, a);
    OneColumn(lists, x, b);
    OneColumn(lists, x, c);
  }

  lemma TruncatedWeights(lists: seq<seq<nat>>)
    requires Prefers(lists)
    ensures Weight(lists, [0, 2, 3], [1]) == 3 && Weight(lists, [1], [0, 2, 3]) == 4
  {
    ThreeRows(lists, 0, 2, 3, [1]);
    OneColumn(lists, 0, 1);
    OneColumn(lists, 2, 1);
    OneColumn(lists, 3, 1);
    OneRow(lists, 1, [0, 2, 3]);
    ThreeColumns(lists, 1, 0, 2, 3);
  }

  lemma ThreeNet(lists: seq<seq<nat>>, m: nat, a: nat, b: nat, c: nat)
    ensures Net(lists, m, [a, b, c]) == (if a != m then Pref(lists, m, a) - Pref(lists, a, m) else 0)
                                       + (if b != m then Pref(lists, m, b) - Pref(lists, b, m) else 0)
                                       + (if c != m then Pref(lists, m, c) - Pref(lists, c, m) else 0)
  {
    assert [a, b, c][..2] == [a, b] && [a, b][..1] == [a] && [a][..0] == [];
    assert Net(lists, m, [a]) == if a != m then Pref(lists, m, a) - Pref(lists, a, m) else 0;
  }

  lemma TruncatedScores(lists: seq<seq<nat>>)
    requires Prefers(lists)
    ensures Net(lists, 0, [0, 2, 3]) == 4 && Net(lists, 2, [0, 2, 3]) == 0 && Net(lists, 3, [0, 2, 3]) == -4
  {
    ThreeNet(lists, 0, 0, 2, 3);
    ThreeNet(lists, 2, 0, 2, 3);
    ThreeNet(lists, 3, 0, 2, 3);
  }

  lemma TruncatedInner(lists: seq<seq<nat>>, cluster: seq<nat>)
    requires Prefers(lists) && (cluster == [0, 2, 3] || cluster == [1])
    ensures IsSorting(cluster, ByNet(lists, cluster), cluster)
  {
    TruncatedScores(lists);
  }

  lemma TruncatedInners(lists: seq<seq<nat>>, clusters: seq<seq<nat>>, inner: seq<seq<nat>>)
    requires Prefers(lists) && clusters == inner == [[0, 2, 3], [1]]
    ensures forall i :: 0 <= i < |clusters| ==> IsSorting(clusters[i], ByNet(lists, clusters[i]), inner[i])
  {
    TruncatedInner(lists, [0, 2, 3]);
    TruncatedInner(lists, [1]);
  }

  lemma TruncatedSorted(sid: seq<nat>, pos: Key)
    requires sid == [0, 2, 3, 1] && pos(0) == pos(2) == pos(3) == 0 && pos(1) == 1
    ensures IsSorting(Iota(4), pos, sid)
  {
    TruncatedMembers(sid);
    assert pos(sid[0]) == pos(sid[1]) == pos(sid[2]) == 0 && pos(sid[3]) == 1;
  }

  lemma TruncatedMembers(sid: seq<nat>)
    requires sid == [0, 2, 3, 1]
    ensures multiset(sid) == multiset(Iota(4))
  {
    assert Iota(4) == [0, 1, 2, 3];
  }

  lemma TruncatedClusters(sid: seq<nat>, clusters: seq<seq<nat>>, pos: Key)
    requires sid == [0, 2, 3, 1] && clusters == [[0, 2, 3], [1]] && pos(0) == pos(2) == pos(3) == 0 && pos(1) == 1
    ensures IsClustering(sid, pos, 1, clusters)
  {
    TwoParts(clusters);
    assert Dense(clusters[0], pos, 1) && Dense(clusters[1], pos, 1);
    assert Gap(clusters[0], clusters[1], pos, 1);
  }

  /** The dependencies lead from the cluster of 1 to that of 0. */
  lemma TruncatedGraph(lists: seq<seq<nat>>, clusters: seq<seq<nat>>)
    requires Prefers(lists) && clusters == [[0, 2, 3], [1]]
    ensures DependencyGraph(lists, clusters) == map[0 := {}, 1 := {0}]
  {
    TruncatedWeights(lists);
    assert Depends(lists, clusters, 1, 0) && !Depends(lists, clusters, 0, 1);
    assert DependentsOf(lists, clusters, 0) == {} && DependentsOf(lists, clusters, 1) == {0};
  }

  lemma OneEdgeSort(g: Graph, sorted: seq<Tx>, rest: seq<Tx>)
    requires g == map[0 := {}, 1 := {0}] && sorted == [1, 0] && rest == []
    ensures IsTopologicalSort(g, sorted, rest) && InTurn(g, sorted)
  {
    assert Preds(g, 1) == {} && Preds(g, 0) == {1};
    var first: seq<Tx> := sorted[..1];
    assert first == [1] && first[..0] == [];
    assert ReadyAt(g, first, 0) == 1 && ReadyAt(g, first, 1) == 0;
    assert ReadyAt(g, sorted, 0) == 1 && ReadyAt(g, sorted, 1) == 0;
    assert Elements(sorted) == {0, 1} == g.Keys && Elements(rest) == {};
  }

  /** The stages for the three lists. */
  function TruncatedStages(): Stages {
    Stages([0, 2, 3, 1], [[0, 2, 3], [1]], [[0, 2, 3], [1]], [1, 0], [])
  }

  lemma TruncatedAreStages(lists: seq<seq<nat>>, st: Stages)
    requires Prefers(lists) && st == TruncatedStages()
    ensures AreStages(lists, 4, 3, 1, st)
  {
    var pos := At(Positions(lists, 4, 3));
    TruncatedPositions(lists);
    TruncatedSorted(st.sid, pos);
    TruncatedClusters(st.sid, st.clusters, pos);
    TruncatedInners(lists, st.clusters, st.inner);
    TruncatedGraph(lists, st.clusters);
    OneEdgeSort(DependencyGraph(lists, st.clusters), st.sorted, st.rest);
  }

  lemma TruncatedEmits(ids: seq<Cmd>, st: Stages, result: seq<Cmd>)
    requires st == TruncatedStages() && ids == [0, 1, 2, 3] && result == [1, 0, 2, 3]
    ensures Emits(ids, st, result)
  {
    var order := st.sorted + st.rest;
    assert order == [1, 0];
    var sel := Select(st.inner, order);
    TwoParts(sel);
    assert Concat(sel) == result;
    assert Commands(ids, result) == result;
  }

  /** A result that inverts a preference shared by all lists, of four replicas of which one may be faulty, at
      gamma 0.75 and delta 1. */
  lemma UnanimityInverted(lists: seq<seq<Cmd>>, max: nat, result: seq<Cmd>)
    requires lists == [[0, 1], [0, 1, 2, 3], [0, 1, 2, 3]] && max >= 4 && result == [1, 0, 2, 3]
    ensures Threshold(1, 4, 0.75) == 3 && Unanimous(lists, 0, 1)
    ensures IsOutcome(lists, max, 3, 1, result) && Precedes(result, 1, 0)
  {
    assert Truncated(lists);
    TruncatedUnanimous(lists);
    TruncatedIds(lists, max);
    TruncatedMapped(lists, lists[1]);
    TruncatedPrefers(lists);
    TruncatedAreStages(lists, TruncatedStages());
    TruncatedEmits(lists[1], TruncatedStages(), result);
    assert IsOutcomeOf(lists, lists[1], 3, 1, TruncatedStages(), result);
    assert result[0] == 1 && result[1] == 0;
  }

  // ---------------------------------------------------------------- the clusters are determined

  /** What the clusters of any stages are: a partition of the indices below `n` into the classes of
      nearness, in the order of their positions. */
  ghost predicate Classes(clusters: seq<seq<nat>>, n: nat, pos: Key, delta: int) {
    && Disjoint(clusters)
    && (forall i :: 0 <= i < |clusters| ==> |clusters[i]| > 0 && Distinct(clusters[i]))
    && (forall x: nat :: x < n <==> InSome(clusters, x))
    && (forall a: nat, b: nat {:trigger SameCluster(clusters, a, b)} :: a < n && b < n ==> (SameCluster(clusters, a, b) <==> Linked(n, pos, delta, a, b)))
    && (forall i, j, a, b {:trigger a in clusters[i], b in clusters[j]} ::
          0 <= i < j < |clusters| && a in clusters[i] && b in clusters[j] ==> pos(a) < pos(b))
  }

  lemma StagesClasses(lists: seq<seq<nat>>, n: nat, threshold: int, delta: int, st: Stages)
    requires delta >= 1 && AreStages(lists, n, threshold, delta, st)
    ensures Classes(st.clusters, n, At(Positions(lists, n, threshold)), delta)
  {
    var pos := At(Positions(lists, n, threshold));
    InnerPartition(lists, n, threshold, delta, st);
    IotaMembers(n);
    SortingDistinct(Iota(n), pos, st.sid);
    ConcatDistinct(st.clusters);
    forall a: nat, b: nat | a < n && b < n ensures SameCluster(st.clusters, a, b) <==> Linked(n, pos, delta, a, b) {
      ClustersAreClasses(st.sid, n, pos, delta, st.clusters, a, b);
    }
    forall i, j, a, b | 0 <= i < j < |st.clusters| && a in st.clusters[i] && b in st.clusters[j] ensures pos(a) < pos(b) {
      FarApart(st.sid, pos, delta, st.clusters, i, j, a, b);
    }
  }

  /** The first `k` clusters of two clusterings have the same members. */
  ghost predicate SameUpTo(c: seq<seq<nat>>, d: seq<seq<nat>>, k: nat) {
    k <= |c| && k <= |d| && forall m, x :: 0 <= m < k ==> (x in c[m] <==> x in d[m])
  }

  lemma CommonIndex(d: seq<seq<nat>>, a: nat, b: nat, m: nat, k: nat)
    requires Disjoint(d) && m < |d| && k < |d| && a in d[m] && b in d[k]
    ensures SameCluster(d, a, b) ==> m == k
  {
  }

  /** Two members of one or two clusters of `c`, in order, are in the same order in `d`. */
  lemma SameOrder(c: seq<seq<nat>>, d: seq<seq<nat>>, n: nat, pos: Key, delta: int, k: nat, l: nat, m: nat, a: nat, b: nat)
    requires Classes(c, n, pos, delta) && Classes(d, n, pos, delta) && a < n && b < n
    requires k <= l < |c| && a in c[k] && b in c[l] && k < |d| && m < |d| && a in d[m] && b in d[k]
    ensures m <= k
  {
    assert k < l ==> pos(a) < pos(b);
    assert k < m ==> pos(b) < pos(a);
    assert k == l ==> SameCluster(c, a, b);
    assert SameCluster(c, a, b) <==> Linked(n, pos, delta, a, b);
    assert SameCluster(d, a, b) <==> Linked(n, pos, delta, a, b);
    CommonIndex(d, a, b, m, k);
  }

  lemma EarlierSame(c: seq<seq<nat>>, d: seq<seq<nat>>, k: nat, m: nat, x: nat)
    requires SameUpTo(c, d, k)
    ensures m < k && x in d[m] ==> x in c[m]
    ensures m < k && x in c[m] ==> x in d[m]
  {
  }

  /** The index of a member of `d` is not smaller in `c`, given that the smaller ones agree. */
  lemma NotEarlier(c: seq<seq<nat>>, d: seq<seq<nat>>, n: nat, pos: Key, delta: int, k: nat, m: nat, x: nat)
    requires Classes(c, n, pos, delta) && SameUpTo(c, d, k) && k < |c| && x in c[k] && m < |d| && x in d[m]
    ensures k <= m
  {
    EarlierSame(c, d, k, m, x);
  }

  /** A member of cluster `k` of one clustering is in cluster `k` of the other. */
  lemma NextClass(c: seq<seq<nat>>, d: seq<seq<nat>>, n: nat, pos: Key, delta: int, k: nat, a: nat)
    requires Classes(c, n, pos, delta) && Classes(d, n, pos, delta) && SameUpTo(c, d, k)
    requires k < |c| && a in c[k]
    ensures k < |d| && a in d[k]
  {
    assert InSome(c, a) && a < n;
    assert InSome(d, a);
    var m :| 0 <= m < |d| && a in d[m];
    NotEarlier(c, d, n, pos, delta, k, m, a);
    var b := d[k][0];
    assert b in d[k];
    assert InSome(d, b) && b < n;
    assert InSome(c, b);
    var l :| 0 <= l < |c| && b in c[l];
    EarlierSame(c, d, k, l, b);
    SameOrder(c, d, n, pos, delta, k, l, m, a, b);
  }

  lemma {:induction false} SameClasses(c: seq<seq<nat>>, d: seq<seq<nat>>, n: nat, pos: Key, delta: int, k: nat)
    requires Classes(c, n, pos, delta) && Classes(d, n, pos, delta) && k <= |c|
    ensures SameUpTo(c, d, k)
  {
    if k > 0 {
      var m := k - 1;
      SameClasses(c, d, n, pos, delta, m);
      assert c[m][0] in c[m];
      NextClass(c, d, n, pos, delta, m, c[m][0]);
      forall x ensures x in c[m] <==> x in d[m] {
        if x in c[m] { NextClass(c, d, n, pos, delta, m, x); }
        if x in d[m] { NextClass(d, c, n, pos, delta, m, x); }
      }
    }
  }

  /** Two runs of the stages on the same lists have the same clusters, up to the order inside them. */
  lemma ClustersDetermined(lists: seq<seq<nat>>, n: nat, threshold: int, delta: int, st: Stages, other: Stages)
    requires delta >= 1 && AreStages(lists, n, threshold, delta, st) && AreStages(lists, n, threshold, delta, other)
    ensures |st.clusters| == |other.clusters|
    ensures forall i :: 0 <= i < |st.clusters| ==> multiset(st.clusters[i]) == multiset(other.clusters[i])
  {
    var pos := At(Positions(lists, n, threshold));
    StagesClasses(lists, n, threshold, delta, st);
    StagesClasses(lists, n, threshold, delta, other);
    SameClasses(st.clusters, other.clusters, n, pos, delta, |st.clusters|);
    SameClasses(other.clusters, st.clusters, n, pos, delta, |other.clusters|);
    forall i | 0 <= i < |st.clusters| ensures multiset(st.clusters[i]) == multiset(other.clusters[i]) {
      OnceEach(st.clusters[i], Elements(st.clusters[i]));
      OnceEach(other.clusters[i], Elements(st.clusters[i]));
    }
  }

  // ---------------------------------------------------------------- and so are their dependencies

  lemma {:induction false} RowWeightAppend(lists: seq<seq<nat>>, a: nat, s: seq<nat>, t: seq<nat>)
    ensures RowWeight(lists, a, s + t) == RowWeight(lists, a, s) + RowWeight(lists, a, t)
  {
    if t == [] {
      assert s + t == s;
    } else {
      assert (s + t)[..|s + t| - 1] == s + t[..|t| - 1];
      RowWeightAppend(lists, a, s, t[..|t| - 1]);
    }
  }

  lemma {:induction false} WeightAppend(lists: seq<seq<nat>>, s: seq<nat>, t: seq<nat>, bs: seq<nat>)
    ensures Weight(lists, s + t, bs) == Weight(lists, s, bs) + Weight(lists, t, bs)
  {
    if t == [] {
      assert s + t == s;
    } else {
      assert (s + t)[..|s + t| - 1] == s + t[..|t| - 1];
      WeightAppend(lists, s, t[..|t| - 1], bs);
    }
  }

  /** The place of the last element of a sequence in a permutation of it. */
  lemma FindLast(s: seq<nat>, t: seq<nat>) returns (before: seq<nat>, after: seq<nat>)
    requires s != [] && multiset(s) == multiset(t)
    ensures t == before + [s[|s| - 1]] + after && multiset(s[..|s| - 1]) == multiset(before + after)
  {
    var last := s[|s| - 1];
    assert s == s[..|s| - 1] + [last];
    assert last in multiset(s) && last in t;
    var k :| 0 <= k < |t| && t[k] == last;
    before, after := t[..k], t[k + 1..];
    assert t == before + [last] + after;
    assert multiset(t) == multiset(before) + multiset{last} + multiset(after);
    assert multiset(s) == multiset(s[..|s| - 1]) + multiset{last};
    assert multiset(before + after) == multiset(before) + multiset(after);
    assert multiset(s[..|s| - 1]) == multiset(s) - multiset{last};
    assert multiset(before + after) == multiset(t) - multiset{last};
  }

  lemma {:induction false} RowWeightPermuted(lists: seq<seq<nat>>, a: nat, s: seq<nat>, t: seq<nat>)
    requires multiset(s) == multiset(t)
    ensures RowWeight(lists, a, s) == RowWeight(lists, a, t)
  {
    if s == [] {
      assert |multiset(t)| == 0;
    } else {
      var before, after := FindLast(s, t);
      var last := s[|s| - 1];
      RowWeightPermuted(lists, a, s[..|s| - 1], before + after);
      RowWeightAppend(lists, a, before, after);
      RowWeightAppend(lists, a, before + [last], after);
      RowWeightAppend(lists, a, before, [last]);
      assert [last][..0] == [];
    }
  }

  lemma {:induction false} WeightColumns(lists: seq<seq<nat>>, as': seq<nat>, s: seq<nat>, t: seq<nat>)
    requires multiset(s) == multiset(t)
    ensures Weight(lists, as', s) == Weight(lists, as', t)
  {
    if as' != [] {
      WeightColumns(lists, as'[..|as'| - 1], s, t);
      RowWeightPermuted(lists, as'[|as'| - 1], s, t);
    }
  }

  lemma {:induction false} WeightRows(lists: seq<seq<nat>>, s: seq<nat>, t: seq<nat>, bs: seq<nat>)
    requires multiset(s) == multiset(t)
    ensures Weight(lists, s, bs) == Weight(lists, t, bs)
  {
    if s == [] {
      assert |multiset(t)| == 0;
    } else {
      var before, after := FindLast(s, t);
      var last := s[|s| - 1];
      WeightRows(lists, s[..|s| - 1], before + after, bs);
      WeightAppend(lists, before, after, bs);
      WeightAppend(lists, before + [last], after, bs);
      WeightAppend(lists, before, [last], bs);
      assert [last][..0] == [];
    }
  }

  lemma DependsPermuted(lists: seq<seq<nat>>, c: seq<seq<nat>>, d: seq<seq<nat>>, i: nat, j: nat)
    requires |c| == |d| && i < |c| && j < |c| && forall k :: 0 <= k < |c| ==> multiset(c[k]) == multiset(d[k])
    ensures Depends(lists, c, i, j) <==> Depends(lists, d, i, j)
  {
    WeightColumns(lists, c[i], c[j], d[j]);
    WeightRows(lists, c[i], d[i], d[j]);
    WeightColumns(lists, c[j], c[i], d[i]);
    WeightRows(lists, c[j], d[j], d[i]);
  }

  lemma DependenciesDetermined(lists: seq<seq<nat>>, n: nat, threshold: int, delta: int, st: Stages, other: Stages)
    requires delta >= 1 && AreStages(lists, n, threshold, delta, st) && AreStages(lists, n, threshold, delta, other)
    ensures DependencyGraph(lists, st.clusters) == DependencyGraph(lists, other.clusters)
  {
    ClustersDetermined(lists, n, threshold, delta, st, other);
    forall i: nat | i < |st.clusters|
      ensures DependentsOf(lists, st.clusters, i) == DependentsOf(lists, other.clusters, i)
    {
      forall j: nat | j < |st.clusters| ensures Depends(lists, st.clusters, i, j) <==> Depends(lists, other.clusters, i, j) {
        DependsPermuted(lists, st.clusters, other.clusters, i, j);
      }
    }
  }

  // ---------------------------------------------------------------- from clusters to the result

  /** Where the result puts two members: by their clusters, or as their common cluster does. */
  lemma ResultPrecedes(ids: seq<Cmd>, st: Stages, result: seq<Cmd>, i: nat, j: nat, x: nat, y: nat)
    requires Emits(ids, st, result) && i < |st.inner| && j < |st.inner| && x in st.inner[i] && y in st.inner[j]
    requires x < |ids| && y < |ids|
    requires if i == j then i in st.sorted + st.rest && Precedes(st.inner[i], x, y) else Precedes(st.sorted + st.rest, i, j)
    ensures Precedes(result, ids[x], ids[y])
  {
    var order := st.sorted + st.rest;
    var sel := Select(st.inner, order);
    var out := Concat(sel);
    if i == j {
      var k :| 0 <= k < |order| && order[k] == i;
      ConcatPrecedes(sel, k, x, y);
    } else {
      var k, l :| 0 <= k < l < |order| && order[k] == i && order[l] == j;
      ConcatAcross(sel, k, l, x, y);
    }
    var p, q :| 0 <= p < q < |out| && out[p] == x && out[q] == y;
    assert result[p] == ids[x] && result[q] == ids[y];
  }

  lemma StagesGraph(lists: seq<seq<nat>>, clusters: seq<seq<nat>>)
    ensures var g := DependencyGraph(lists, clusters); Closed(g) && forall i: nat :: i in g <==> i < |clusters|
  {
  }

  // ---------------------------------------------------------------- unanimity in the result

  /** The clusters of `x` and `y` in some stages. */
  ghost predicate InClusters(st: Stages, x: nat, y: nat, i: nat, j: nat) {
    i < |st.clusters| && j < |st.clusters| && x in st.clusters[i] && y in st.clusters[j]
  }

  /** When the first of two clusters comes first because of the dependencies `g` alone. */
  ghost predicate KeepsClusters(g: Graph, i: nat, j: nat) {
    i == j || Reach(g, i, j) || BehindCycle(g, j)
  }

  lemma InnerMembers(lists: seq<seq<nat>>, n: nat, threshold: int, delta: int, st: Stages, x: nat, y: nat, i: nat, j: nat)
    requires AreStages(lists, n, threshold, delta, st) && InClusters(st, x, y, i, j)
    ensures i < |st.inner| && j < |st.inner| && x in st.inner[i] && y in st.inner[j]
    ensures i in st.sorted + st.rest
  {
    InnerPartition(lists, n, threshold, delta, st);
    OrderOfClusters(lists, n, threshold, delta, st);
  }

  /** A preference that all lists share is kept if the two are in one cluster, or the cluster of the first
      reaches that of the second through the dependencies, or a cycle of dependencies does. */
  lemma UnanimousKept(lists: seq<seq<nat>>, ids: seq<Cmd>, threshold: int, delta: int, st: Stages, result: seq<Cmd>,
                      x: nat, y: nat, i: nat, j: nat)
    requires AreStages(lists, |ids|, threshold, delta, st) && Emits(ids, st, result) && InClusters(st, x, y, i, j)
    requires x < |ids| && y < |ids| && Unanimous(lists, x, y) && 1 <= threshold <= |lists|
    requires KeepsClusters(DependencyGraph(lists, st.clusters), i, j)
    ensures Precedes(result, ids[x], ids[y])
  {
    var g := DependencyGraph(lists, st.clusters);
    UnanimousStages(lists, |ids|, threshold, delta, st, x, y);
    InnerMembers(lists, |ids|, threshold, delta, st, x, y, i, j);
    StagesGraph(lists, st.clusters);
    if i != j { KeptInEveryOrder(g, st.sorted, st.rest, i, j); }
    ResultPrecedes(ids, st, result, i, j, x, y);
  }

  /** The clusters of two commands are the same in all stages. */
  lemma SameIndices(lists: seq<seq<nat>>, n: nat, threshold: int, delta: int, st: Stages, other: Stages,
                    x: nat, y: nat, i: nat, j: nat)
    requires delta >= 1 && AreStages(lists, n, threshold, delta, st) && AreStages(lists, n, threshold, delta, other)
    requires InClusters(st, x, y, i, j)
    ensures InClusters(other, x, y, i, j)
  {
    ClustersDetermined(lists, n, threshold, delta, st, other);
    assert x in multiset(st.clusters[i]) && y in multiset(st.clusters[j]);
  }

  /** If all lists put one command before another and their positions are linked by steps of less than
      `delta`, every possible result does so too. */
  lemma UnanimousResult(lists: seq<seq<Cmd>>, max: nat, threshold: int, delta: int, result: seq<Cmd>, x: nat, y: nat)
    requires IsOutcome(lists, max, threshold, delta, result) && delta >= 1 && 1 <= threshold <= |lists|
    requires var ids := FirstDistinct(Concat(lists), max);
             && x < |ids| && y < |ids| && Unanimous(lists, ids[x], ids[y])
             && Linked(|ids|, At(Positions(MapAll(lists, Index(ids)), |ids|, threshold)), delta, x, y)
    ensures var ids := FirstDistinct(Concat(lists), max); Precedes(result, ids[x], ids[y])
  {
    var ids := FirstDistinct(Concat(lists), max);
    var ms := MapAll(lists, Index(ids));
    FirstDistinctFacts(Concat(lists), max);
    UnanimousMapped(lists, ids, x, y);
    PrefUnanimous(ms, x, y);
    var st :| IsOutcomeOf(lists, ids, threshold, delta, st, result);
    ClustersAreClasses(st.sid, |ids|, At(Positions(ms, |ids|, threshold)), delta, st.clusters, x, y);
    var i :| 0 <= i < |st.clusters| && x in st.clusters[i] && y in st.clusters[i];
    UnanimousKept(ms, ids, threshold, delta, st, result, x, y, i, i);
  }

  /** Which of two commands of different clusters a result puts first: the one whose cluster comes first by
      the dependencies alone, whatever the sorts do with ties. `st` are any stages on the lists; all of them
      have the same clusters and dependencies. */
  lemma ResultExactly(lists: seq<seq<Cmd>>, max: nat, threshold: int, delta: int, st: Stages, result: seq<Cmd>,
                      x: nat, y: nat, i: nat, j: nat)
    requires IsOutcome(lists, max, threshold, delta, result) && delta >= 1
    requires var ids := FirstDistinct(Concat(lists), max);
             && x < |ids| && y < |ids| && i != j
             && AreStages(MapAll(lists, Index(ids)), |ids|, threshold, delta, st) && InClusters(st, x, y, i, j)
    ensures var ids := FirstDistinct(Concat(lists), max);
            Precedes(result, ids[x], ids[y]) <==> ComesFirst(DependencyGraph(MapAll(lists, Index(ids)), st.clusters), i, j)
  {
    var ids := FirstDistinct(Concat(lists), max);
    var ms := MapAll(lists, Index(ids));
    ClusterOfEach(ms, |ids|, threshold, delta, st, x, y, i, j);
    var other :| IsOutcomeOf(lists, ids, threshold, delta, other, result);
    DependenciesDetermined(ms, |ids|, threshold, delta, st, other);
    SameIndices(ms, |ids|, threshold, delta, st, other, x, y, i, j);
    ClustersInOrder(ms, ids, threshold, delta, other, result, x, y, i, j);
    EveryCommandOnce(lists, max, threshold, delta, result);
    if Precedes(result, ids[x], ids[y]) { PrecedesOnce(result, ids[x], ids[y]); }
  }

  /** Commands of different clusters are different. */
  lemma ClusterOfEach(lists: seq<seq<nat>>, n: nat, threshold: int, delta: int, st: Stages, x: nat, y: nat, i: nat, j: nat)
    requires delta >= 1 && AreStages(lists, n, threshold, delta, st) && InClusters(st, x, y, i, j) && i != j && x < n && y < n
    ensures x != y && n > 1
  {
    StagesClasses(lists, n, threshold, delta, st);
  }

  lemma ClustersInOrder(lists: seq<seq<nat>>, ids: seq<Cmd>, threshold: int, delta: int, st: Stages, result: seq<Cmd>,
                        x: nat, y: nat, i: nat, j: nat)
    requires AreStages(lists, |ids|, threshold, delta, st) && Emits(ids, st, result) && InClusters(st, x, y, i, j)
    requires x < |ids| && y < |ids| && i != j
    ensures ComesFirst(DependencyGraph(lists, st.clusters), i, j) ==> Precedes(result, ids[x], ids[y])
    ensures !ComesFirst(DependencyGraph(lists, st.clusters), i, j) ==> Precedes(result, ids[y], ids[x])
  {
    var g := DependencyGraph(lists, st.clusters);
    InnerMembers(lists, |ids|, threshold, delta, st, x, y, i, j);
    StagesGraph(lists, st.clusters);
    OrderExactly(g, st.sorted, st.rest, i, j);
    EitherFirst(g, st.sorted, st.rest, i, j);
    if ComesFirst(g, i, j) {
      ResultPrecedes(ids, st, result, i, j, x, y);
    } else {
      ResultPrecedes(ids, st, result, j, i, y, x);
    }
  }

  /** Exactly when a result keeps a preference that all lists share: if the two are in one cluster, or the
      cluster of the first comes first by the dependencies. */
  lemma UnanimousExactly(lists: seq<seq<Cmd>>, max: nat, threshold: int, delta: int, st: Stages, result: seq<Cmd>,
                         x: nat, y: nat, i: nat, j: nat)
    requires IsOutcome(lists, max, threshold, delta, result) && delta >= 1 && 1 <= threshold <= |lists|
    requires var ids := FirstDistinct(Concat(lists), max);
             && x < |ids| && y < |ids| && Unanimous(lists, ids[x], ids[y])
             && AreStages(MapAll(lists, Index(ids)), |ids|, threshold, delta, st) && InClusters(st, x, y, i, j)
    ensures var ids := FirstDistinct(Concat(lists), max);
            Precedes(result, ids[x], ids[y])
            <==> i == j || ComesFirst(DependencyGraph(MapAll(lists, Index(ids)), st.clusters), i, j)
  {
    if i == j {
      var ids := FirstDistinct(Concat(lists), max);
      var ms := MapAll(lists, Index(ids));
      ClustersAreClasses(st.sid, |ids|, At(Positions(ms, |ids|, threshold)), delta, st.clusters, x, y);
      UnanimousResult(lists, max, threshold, delta, result, x, y);
    } else {
      ResultExactly(lists, max, threshold, delta, st, result, x, y, i, j);
    }
  }

  /** On those lists every result does. */
  lemma AlwaysInverted(lists: seq<seq<Cmd>>, max: nat, result: seq<Cmd>)
    requires lists == [[0, 1], [0, 1, 2, 3], [0, 1, 2, 3]] && max >= 4 && IsOutcome(lists, max, 3, 1, result)
    ensures Unanimous(lists, 0, 1) && Precedes(result, 1, 0)
  {
    var one: seq<Cmd> := [1, 0, 2, 3];
    UnanimityInverted(lists, max, one);
    assert Truncated(lists);
    TruncatedIds(lists, max);
    TruncatedMapped(lists, lists[1]);
    TruncatedPrefers(lists);
    TruncatedAreStages(lists, TruncatedStages());
    SameAsOne(lists, max, one, result, TruncatedStages());
  }

  lemma SameAsOne(lists: seq<seq<Cmd>>, max: nat, one: seq<Cmd>, result: seq<Cmd>, st: Stages)
    requires FirstDistinct(Concat(lists), max) == [0, 1, 2, 3] && MapAll(lists, Index(FirstDistinct(Concat(lists), max))) == lists
    requires AreStages(lists, 4, 3, 1, st) && InClusters(st, 1, 0, 1, 0)
    requires IsOutcome(lists, max, 3, 1, one) && Precedes(one, 1, 0) && IsOutcome(lists, max, 3, 1, result)
    ensures Precedes(result, 1, 0)
  {
    ResultExactly(lists, max, 3, 1, st, one, 1, 0, 1, 0);
    ResultExactly(lists, max, 3, 1, st, result, 1, 0, 1, 0);
  }
}
