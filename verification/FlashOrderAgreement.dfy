/** Full agreement: when all replicas report the same order, FlashOrder returns it, and exactly when it
    does. */
module FlashOrderAgreement {
  import opened Graphs
  import opened Sequences
  import opened LocalOrders
  import opened Sorting
  import opened TopologicalSort
  import opened FlashOrder
  import opened FlashOrderTheorems
  import opened FlashOrderFairness

  /** `k` replicas that all report `order`. */
  function Copies(order: seq<Cmd>, k: nat): (lists: seq<seq<Cmd>>)
    ensures |lists| == k && forall i :: 0 <= i < k ==> lists[i] == order
  {
    seq(k, i => order)
  }

  // ---------------------------------------------------------------- identifiers and preferences

  lemma {:induction false} FirstDistinctOfDistinct(s: seq<Cmd>, max: nat)
    requires Distinct(s) && |s| <= max
    ensures FirstDistinct(s, max) == s
  {
    if s != [] {
      var init := s[..|s| - 1];
      assert s == init + [s[|s| - 1]];
      FirstDistinctOfDistinct(init, max);
    }
  }

  /** The commands of identical lists get their places as indices. */
  lemma {:induction false} CopiesIds(order: seq<Cmd>, k: nat, max: nat)
    requires Distinct(order) && |order| <= max && k > 0
    ensures FirstDistinct(Concat(Copies(order, k)), max) == order
  {
    var init := Copies(order, k)[..k - 1];
    assert init == Copies(order, k - 1);
    if k == 1 {
      assert Concat(init) == [];
      assert Concat(Copies(order, k)) == order;
      FirstDistinctOfDistinct(order, max);
    } else {
      CopiesIds(order, k - 1, max);
      FirstDistinctAppend(Concat(init), order, max);
    }
  }

  lemma {:induction false} MappedPrefix(order: seq<Cmd>, m: nat)
    requires Distinct(order) && m <= |order|
    ensures Mapped(order[..m], Index(order)) == Iota(m)
  {
    if m > 0 {
      assert order[..m][..m - 1] == order[..m - 1];
      MappedPrefix(order, m - 1);
      IndexMeaning(order, order[m - 1]);
    }
  }

  lemma CopiesMapped(order: seq<Cmd>, k: nat)
    requires Distinct(order)
    ensures MapAll(Copies(order, k), Index(order)) == Copies(Iota(|order|), k)
  {
    MappedPrefix(order, |order|);
    assert order[..|order|] == order;
  }

  /** Among identical lists, an earlier transaction is preferred by all of them, as far as 16 bits
      tell. */
  lemma CopiesPref(n: nat, k: nat, a: nat, b: nat)
    requires a < n && b < n
    ensures Pref(Copies(Iota(n), k), a, b) == if a < b then k % WRAP else 0
  {
    var lists := Copies(Iota(n), k);
    VotesCount(lists, a, b);
    IotaMembers(n);
    IotaMembers(k);
    assert Iota(n)[a] == a && Iota(n)[b] == b;
    assert Precedes(Iota(n), a, b) <==> a < b;
    forall i ensures i in Preferring(lists, a, b) <==> a < b && i in Elements(Iota(k)) {
      assert 0 <= i < k ==> lists[i] == Iota(n) && Iota(k)[i] == i;
    }
    DistinctSize(Iota(k));
    assert a < b ==> Preferring(lists, a, b) == Elements(Iota(k));
    assert a >= b ==> Preferring(lists, a, b) == {};
  }

  /** Every earlier transaction is ahead of every later one, by weight `w`. */
  ghost predicate InOrder(lists: seq<seq<nat>>, n: nat, w: nat) {
    forall a, b :: 0 <= a < n && 0 <= b < n ==> Pref(lists, a, b) == if a < b then w else 0
  }

  lemma CopiesInOrder(n: nat, k: nat)
    ensures InOrder(Copies(Iota(n), k), n, k % WRAP)
  {
    forall a, b | 0 <= a < n && 0 <= b < n ensures Pref(Copies(Iota(n), k), a, b) == if a < b then k % WRAP else 0 {
      CopiesPref(n, k, a, b);
    }
  }

  lemma PositionInOrder(lists: seq<seq<nat>>, n: nat, w: nat, threshold: int, x: nat)
    requires InOrder(lists, n, w) && threshold >= 1 && x < n
    ensures Position(lists, n, threshold, x) == if w >= threshold then x else 0
  {
    IotaMembers(x);
    DistinctSize(Iota(x));
    if w >= threshold {
      forall o ensures o in Ahead(lists, n, threshold, x) <==> o in Elements(Iota(x)) {
        if 0 <= o < x { assert Iota(x)[o] == o; }
      }
      assert Ahead(lists, n, threshold, x) == Elements(Iota(x));
    } else {
      assert Ahead(lists, n, threshold, x) == {};
    }
  }

  // ---------------------------------------------------------------- one cluster

  /** Sorting members by net score puts them in order. */
  lemma InsideInOrder(lists: seq<seq<nat>>, n: nat, w: nat, sid: seq<nat>, inner: seq<nat>)
    requires InOrder(lists, n, w) && w > 0 && Distinct(sid) && |sid| == n && (forall x: nat :: x in sid <==> x < n)
    requires IsSorting(sid, ByNet(lists, sid), inner)
    ensures inner == Iota(n)
  {
    SortingLength(sid, ByNet(lists, sid), inner);
    SortingDistinct(sid, ByNet(lists, sid), inner);
    forall i, j | 0 <= i < j < |inner| ensures inner[i] < inner[j] {
      assert inner[i] in inner && inner[j] in inner;
      NetDecreasing(lists, n, w, sid, inner[j], inner[i]);
      assert ByNet(lists, sid)(inner[i]) <= ByNet(lists, sid)(inner[j]);
    }
    IncreasingIota(inner, n);
  }

  lemma NetDecreasing(lists: seq<seq<nat>>, n: nat, w: nat, sid: seq<nat>, a: nat, b: nat)
    requires InOrder(lists, n, w) && w > 0 && (forall x: nat :: x in sid <==> x < n) && a in sid && b in sid
    ensures a < b ==> Net(lists, a, sid) > Net(lists, b, sid)
  {
    if a < b {
      assert Dominates(lists, a, b, sid);
      NetDominates(lists, a, b, sid);
    }
  }

  lemma OneClusterOrder(lists: seq<seq<nat>>, clusters: seq<seq<nat>>, st: Stages)
    requires |clusters| == 1 && IsTopologicalSort(DependencyGraph(lists, clusters), st.sorted, st.rest)
    ensures st.sorted + st.rest == [0]
  {
    var g, order := DependencyGraph(lists, clusters), st.sorted + st.rest;
    forall x: nat ensures x in order <==> x < 1 {
      assert x in order <==> x in Elements(st.sorted) + Elements(st.rest);
      assert x in g <==> x < 1;
    }
    forall x | x in st.sorted ensures x !in st.rest { assert x in Elements(st.sorted); }
    DistinctAppend(st.sorted, st.rest);
    DistinctSize(order);
    assert Elements(order) == {0};
    assert order == [order[0]] && order[0] in order;
  }

  // ---------------------------------------------------------------- singleton clusters

  /** All clusters are singletons, so they are the indices in order. */
  lemma {:induction false} SingletonsConcat(parts: seq<seq<nat>>)
    requires forall i :: 0 <= i < |parts| ==> |parts[i]| == 1
    ensures |Concat(parts)| == |parts| && forall i :: 0 <= i < |parts| ==> Concat(parts)[i] == parts[i][0]
  {
    if parts != [] { SingletonsConcat(parts[..|parts| - 1]); }
  }

  lemma SingletonWeights(lists: seq<seq<nat>>, n: nat, w: nat, clusters: seq<seq<nat>>, i: nat, j: nat)
    requires InOrder(lists, n, w) && w > 0 && i < |clusters| == n && j < n
    requires forall m :: 0 <= m < n ==> clusters[m] == [m]
    ensures Depends(lists, clusters, i, j) <==> i < j
  {
    SingletonWeight(lists, i, j);
    SingletonWeight(lists, j, i);
  }

  lemma SingletonWeight(lists: seq<seq<nat>>, a: nat, b: nat)
    ensures Weight(lists, [a], [b]) == Pref(lists, a, b)
  {
    assert [b][..0] == [] && [a][..0] == [];
    assert RowWeight(lists, a, [b]) == RowWeight(lists, a, []) + Pref(lists, a, b);
    assert Weight(lists, [a], [b]) == Weight(lists, [], [b]) + RowWeight(lists, a, [b]);
  }

  /** When each vertex has edges to exactly the later ones, the only topological sort is in order. */
  lemma TotalOrderSort(g: Graph, n: nat, sorted: seq<Tx>, rest: seq<Tx>)
    requires IsTopologicalSort(g, sorted, rest) && (forall x: nat :: x in g <==> x < n)
    requires forall i: nat, j: nat :: Edge(g, i, j) <==> i < j < n
    ensures sorted + rest == Iota(n)
  {
    forall p | p in rest ensures rest[0] <= p { var k :| 0 <= k < |rest| && rest[k] == p; }
    if rest != [] { FirstBlocked(g, sorted, rest); }
    assert sorted + rest == sorted;
    forall x: nat ensures x in sorted <==> x < n { assert x in sorted <==> x in Elements(sorted) + Elements(rest); }
    forall i, j | 0 <= i < j < |sorted| ensures sorted[i] < sorted[j] {
      assert sorted[i] in sorted && sorted[j] in sorted;
      assert sorted[j] !in Elements(sorted[..i]);
      assert sorted[j] !in Preds(g, sorted[i]);
      assert !Edge(g, sorted[j], sorted[i]);
    }
    SameSize(sorted, n);
    IncreasingIota(sorted, n);
  }

  lemma FirstBlocked(g: Graph, sorted: seq<Tx>, rest: seq<Tx>)
    requires IsTopologicalSort(g, sorted, rest) && rest != []
    ensures exists p :: p in rest && Edge(g, p, rest[0])
  {
    assert Blocked(g, rest, rest[0]);
  }

  lemma SameSize(s: seq<nat>, n: nat)
    requires Distinct(s) && forall x: nat :: x in s <==> x < n
    ensures |s| == n
  {
    DistinctSize(s);
    IotaMembers(n);
    DistinctSize(Iota(n));
    assert Elements(s) == Elements(Iota(n));
  }

  // ---------------------------------------------------------------- the result

  /** The order in which indices are emitted. */
  ghost function Emitted(st: Stages): seq<nat>
    requires forall i :: i in st.sorted + st.rest ==> i < |st.inner|
  {
    Concat(Select(st.inner, st.sorted + st.rest))
  }

  lemma EmitOneCluster(lists: seq<seq<nat>>, n: nat, st: Stages, inner: seq<nat>)
    requires |st.clusters| == 1 && st.inner == [inner]
    requires IsTopologicalSort(DependencyGraph(lists, st.clusters), st.sorted, st.rest)
    ensures (forall i :: i in st.sorted + st.rest ==> i < |st.inner|) && Emitted(st) == inner
  {
    OneClusterOrder(lists, st.clusters, st);
    var sel := Select(st.inner, st.sorted + st.rest);
    assert sel == [inner] && sel[..0] == [];
    assert Concat(sel) == Concat([]) + inner;
  }

  /** With two or more transactions in order by a positive weight, the stages keep that order. */
  lemma StagesInOrder(lists: seq<seq<nat>>, n: nat, w: nat, threshold: int, delta: int, st: Stages)
    requires InOrder(lists, n, w) && w > 0 && threshold >= 1 && delta >= 1 && n > 0
    requires AreStages(lists, n, threshold, delta, st)
    ensures (forall i :: i in st.sorted + st.rest ==> i < |st.inner|) && Emitted(st) == Iota(n)
  {
    var pos := At(Positions(lists, n, threshold));
    IotaMembers(n);
    SortingLength(Iota(n), pos, st.sid);
    SortingDistinct(Iota(n), pos, st.sid);
    forall x: nat | x < n ensures pos(x) == if w >= threshold then x else 0 {
      PositionInOrder(lists, n, w, threshold, x);
    }
    if w >= threshold {
      forall i, j | 0 <= i < j < n ensures st.sid[i] < st.sid[j] {
        assert st.sid[i] in st.sid && st.sid[j] in st.sid;
        assert pos(st.sid[i]) <= pos(st.sid[j]);
      }
      IncreasingIota(st.sid, n);
    }
    if w >= threshold && delta == 1 {
      ApartInOrder(lists, n, w, pos, st);
    } else {
      TogetherInOrder(lists, n, w, pos, delta, st);
    }
  }

  lemma TogetherInOrder(lists: seq<seq<nat>>, n: nat, w: nat, pos: Key, delta: int, st: Stages)
    requires InOrder(lists, n, w) && w > 0 && n > 0
    requires IsClustering(st.sid, pos, delta, st.clusters) && |st.inner| == |st.clusters|
    requires forall i :: 0 <= i < |st.clusters| ==> IsSorting(st.clusters[i], ByNet(lists, st.clusters[i]), st.inner[i])
    requires IsTopologicalSort(DependencyGraph(lists, st.clusters), st.sorted, st.rest)
    requires Distinct(st.sid) && |st.sid| == n && forall x: nat :: x in st.sid <==> x < n
    requires delta >= 1
    requires (forall x: nat :: x < n ==> pos(x) == 0) || (delta > 1 && st.sid == Iota(n) && forall x: nat :: x < n ==> pos(x) == x)
    ensures (forall i :: i in st.sorted + st.rest ==> i < |st.inner|) && Emitted(st) == Iota(n)
  {
    NoGap(st.sid, n, pos, delta, st.clusters);
    assert st.clusters == [st.sid];
    assert st.inner == [st.inner[0]];
    InsideInOrder(lists, n, w, st.clusters[0], st.inner[0]);
    EmitOneCluster(lists, n, st, st.inner[0]);
  }

  lemma NoGap(sid: seq<nat>, n: nat, pos: Key, delta: int, clusters: seq<seq<nat>>)
    requires IsClustering(sid, pos, delta, clusters) && delta >= 1 && n > 0 && |sid| == n
    requires forall x: nat :: x in sid <==> x < n
    requires (forall x: nat :: x < n ==> pos(x) == 0) || (delta > 1 && sid == Iota(n) && forall x: nat :: x < n ==> pos(x) == x)
    ensures clusters == [sid]
  {
    forall k | 0 < k < n ensures pos(sid[k]) - pos(sid[k - 1]) < delta { assert sid[k] in sid && sid[k - 1] in sid; }
    OneCluster(sid, pos, delta, clusters);
  }

  lemma OneCluster(sid: seq<nat>, pos: Key, delta: int, clusters: seq<seq<nat>>)
    requires IsClustering(sid, pos, delta, clusters) && sid != []
    requires forall k :: 0 < k < |sid| ==> pos(sid[k]) - pos(sid[k - 1]) < delta
    ensures clusters == [sid]
  {
    if |clusters| > 1 { GapBetween(sid, pos, delta, clusters); }
    assert clusters != [];
    ConcatSingle(clusters[0]);
    assert clusters == [clusters[0]];
  }

  /** Between two clusters there is a gap. */
  lemma GapBetween(sid: seq<nat>, pos: Key, delta: int, clusters: seq<seq<nat>>)
    requires IsClustering(sid, pos, delta, clusters) && |clusters| > 1
    ensures exists k :: 0 < k < |sid| && pos(sid[k]) - pos(sid[k - 1]) >= delta
  {
    FirstTwo(clusters);
    assert Gap(clusters[1 - 1], clusters[1], pos, delta);
    Neighbours(clusters[0], clusters[1], sid);
  }

  /** Inside a cluster of two or more there is a step that is none. */
  lemma StepInside(sid: seq<nat>, pos: Key, delta: int, clusters: seq<seq<nat>>, i: nat)
    requires IsClustering(sid, pos, delta, clusters) && i < |clusters| && |clusters[i]| > 1
    ensures exists k :: 0 < k < |sid| && pos(sid[k]) - pos(sid[k - 1]) < delta
  {
    PartOfConcat(clusters, i);
    var c := clusters[i];
    var off: nat :| PartAt(sid, off, c);
    var part := sid[off..off + |c|];
    assert part[0] == sid[off] && part[1] == sid[off + 1];
    assert Dense(c, pos, delta) && pos(c[1]) - pos(c[1 - 1]) < delta;
    var k := off + 1;
    assert 0 < k < |sid| && pos(sid[k]) - pos(sid[k - 1]) < delta;
  }

  lemma Neighbours(left: seq<nat>, right: seq<nat>, s: seq<nat>)
    requires left != [] && right != [] && left + right <= s
    ensures |left| < |s| && left[|left| - 1] == s[|left| - 1] && right[0] == s[|left|]
  {
    assert (left + right)[|left| - 1] == left[|left| - 1] && (left + right)[|left|] == right[0];
  }

  lemma ConcatSingle(part: seq<nat>)
    ensures Concat([part]) == part
  {
    assert [part][..0] == [];
    assert Concat([part]) == Concat([]) + part;
  }

  lemma {:induction false} FirstTwo(parts: seq<seq<nat>>)
    requires |parts| > 1
    ensures parts[0] + parts[1] <= Concat(parts)
  {
    if |parts| == 2 {
      assert parts[..1][..0] == [] && Concat(parts[..1]) == Concat([]) + parts[0];
    } else {
      FirstTwo(parts[..|parts| - 1]);
    }
  }

  lemma ApartInOrder(lists: seq<seq<nat>>, n: nat, w: nat, pos: Key, st: Stages)
    requires InOrder(lists, n, w) && w > 0 && n > 0
    requires IsClustering(st.sid, pos, 1, st.clusters) && |st.inner| == |st.clusters|
    requires forall i :: 0 <= i < |st.clusters| ==> IsSorting(st.clusters[i], ByNet(lists, st.clusters[i]), st.inner[i])
    requires IsTopologicalSort(DependencyGraph(lists, st.clusters), st.sorted, st.rest)
    requires st.sid == Iota(n) && forall x: nat :: x < n ==> pos(x) == x
    ensures (forall i :: i in st.sorted + st.rest ==> i < |st.inner|) && Emitted(st) == Iota(n)
  {
    Singletons(n, pos, st.sid, st.clusters);
    forall i | 0 <= i < n ensures st.inner[i] == [i] { SortedSingleton(i, ByNet(lists, [i]), st.inner[i]); }
    SingletonsDepend(lists, n, w, st.clusters);
    TotalOrderSort(DependencyGraph(lists, st.clusters), n, st.sorted, st.rest);
    var sel := Select(st.inner, Iota(n));
    SingletonsConcat(sel);
    assert Concat(sel) == Iota(n);
  }

  lemma SortedSingleton(x: nat, key: Key, out: seq<nat>)
    requires IsSorting([x], key, out)
    ensures out == [x]
  {
    SortingLength([x], key, out);
    assert out[0] in out;
  }

  lemma SingletonsDepend(lists: seq<seq<nat>>, n: nat, w: nat, clusters: seq<seq<nat>>)
    requires InOrder(lists, n, w) && w > 0 && |clusters| == n && forall m :: 0 <= m < n ==> clusters[m] == [m]
    ensures forall i: nat, j: nat :: Edge(DependencyGraph(lists, clusters), i, j) <==> i < j < n
  {
    forall i: nat, j: nat ensures Edge(DependencyGraph(lists, clusters), i, j) <==> i < j < n {
      if i < n && j < n { SingletonWeights(lists, n, w, clusters, i, j); }
    }
  }

  lemma Singletons(n: nat, pos: Key, sid: seq<nat>, clusters: seq<seq<nat>>)
    requires IsClustering(sid, pos, 1, clusters) && sid == Iota(n) && forall x: nat :: x < n ==> pos(x) == x
    ensures |clusters| == n && forall i :: 0 <= i < n ==> clusters[i] == [i]
  {
    forall k | 0 < k < |sid| ensures pos(sid[k]) - pos(sid[k - 1]) >= 1 {}
    forall i | 0 <= i < |clusters| ensures |clusters[i]| == 1 {
      if |clusters[i]| > 1 { StepInside(sid, pos, 1, clusters, i); }
    }
    SingletonsConcat(clusters);
  }

  ghost predicate PartAt(s: seq<nat>, off: nat, part: seq<nat>) {
    off + |part| <= |s| && s[off..off + |part|] == part
  }

  lemma {:induction false} PartOfConcat(parts: seq<seq<nat>>, i: nat)
    requires i < |parts|
    ensures exists off: nat :: PartAt(Concat(parts), off, parts[i])
  {
    var init, last := parts[..|parts| - 1], parts[|parts| - 1];
    if i == |parts| - 1 {
      assert PartAt(Concat(parts), |Concat(init)|, last);
    } else {
      PartOfConcat(init, i);
      var off: nat :| PartAt(Concat(init), off, init[i]);
      assert PartAt(Concat(parts), off, parts[i]);
    }
  }

  /** Full agreement is reproduced. */
  lemma AgreementReproduced(order: seq<Cmd>, k: nat, max: nat, threshold: int, delta: int, result: seq<Cmd>)
    requires Distinct(order) && |order| <= max && threshold >= 1 && delta >= 1 && k > 0
    requires k % WRAP != 0 || |order| <= 1
    requires IsOutcome(Copies(order, k), max, threshold, delta, result)
    ensures result == order
  {
    var n := |order|;
    CopiesIds(order, k, max);
    if n > 1 {
      var st :| IsOutcomeOf(Copies(order, k), order, threshold, delta, st, result);
      CopiesMapped(order, k);
      CopiesInOrder(n, k);
      StagesInOrder(Copies(Iota(n), k), n, k % WRAP, threshold, delta, st);
      CommandsIota(order);
    }
  }

  lemma CommandsIota(order: seq<Cmd>)
    ensures (forall x :: x in Iota(|order|) ==> x < |order|) && Commands(order, Iota(|order|)) == order
  {
  }

  // ---------------------------------------------------------------- when counters wrap to zero

  /** All preferences are zero. */
  lemma {:induction false} NetZero(lists: seq<seq<nat>>, n: nat, m: nat, members: seq<nat>)
    requires InOrder(lists, n, 0) && m < n && forall o: nat :: o in members ==> o < n
    ensures Net(lists, m, members) == 0
  {
    if members != [] {
      var init, last := members[..|members| - 1], members[|members| - 1];
      assert members == init + [last];
      assert last in members;
      forall o: nat | o in init ensures o < n { assert o in members; }
      NetZero(lists, n, m, init);
    }
  }

  /** The first two places swapped. */
  function Swapped(n: nat): (s: seq<nat>)
    requires n >= 2
    ensures |s| == n && s[0] == 1 && s[1] == 0 && forall i :: 2 <= i < n ==> s[i] == i
  {
    Iota(n)[0 := 1][1 := 0]
  }

  lemma SwappedMultiset(n: nat)
    requires n >= 2
    ensures multiset(Swapped(n)) == multiset(Iota(n))
  {
    assert Iota(n) == [0, 1] + Iota(n)[2..];
    assert Swapped(n) == [1, 0] + Iota(n)[2..];
  }

  /** One cluster, in the order `s`. */
  function Lone(s: seq<nat>): Stages {
    Stages(s, [s], [s], [0], [])
  }

  /** Any order of the indices may come out when all preferences are zero. */
  lemma AnyOrderStages(lists: seq<seq<nat>>, n: nat, threshold: int, delta: int, s: seq<nat>)
    requires InOrder(lists, n, 0) && n > 0 && threshold >= 1 && delta >= 1
    requires multiset(s) == multiset(Iota(n)) && |s| == n && forall i :: 0 <= i < n ==> s[i] < n
    ensures AreStages(lists, n, threshold, delta, Lone(s))
  {
    var pos := At(Positions(lists, n, threshold));
    forall i | 0 <= i < n ensures pos(s[i]) == 0 { PositionInOrder(lists, n, 0, threshold, s[i]); }
    FlatSorting(Iota(n), pos, s);
    LoneClustering(s, pos, delta);
    SortedByZeroNet(lists, n, s);
    LoneVertexSorted(DependencyGraph(lists, [s]));
  }

  lemma LoneEmits(lists: seq<seq<nat>>, n: nat, s: seq<nat>)
    ensures var st := Lone(s); (forall i :: i in st.sorted + st.rest ==> i < |st.inner|) && Emitted(st) == s
  {
    LoneVertexSorted(DependencyGraph(lists, [s]));
    EmitOneCluster(lists, n, Lone(s), s);
  }

  lemma SortedByZeroNet(lists: seq<seq<nat>>, n: nat, s: seq<nat>)
    requires InOrder(lists, n, 0) && forall i :: 0 <= i < |s| ==> s[i] < n
    ensures IsSorting(s, ByNet(lists, s), s)
  {
    forall i | 0 <= i < |s| ensures ByNet(lists, s)(s[i]) == 0 { NetZero(lists, n, s[i], s); }
    FlatSorting(s, ByNet(lists, s), s);
  }

  lemma LoneClustering(s: seq<nat>, pos: Key, delta: int)
    requires s != [] && Dense(s, pos, delta)
    ensures IsClustering(s, pos, delta, [s])
  {
    ConcatSingle(s);
  }

  lemma FlatSorting(items: seq<nat>, key: Key, out: seq<nat>)
    requires multiset(out) == multiset(items) && forall i :: 0 <= i < |out| ==> key(out[i]) == 0
    ensures IsSorting(items, key, out)
  {
  }

  lemma LoneVertexSorted(g: Graph)
    requires (forall x :: x in g <==> x == 0) && g[0] == {}
    ensures IsTopologicalSort(g, [0], []) && InTurn(g, [0])
  {
    assert Preds(g, 0) == {};
    assert Elements([0]) == {0};
    assert PredsFirst(g, [0]);
  }

  /** Identical lists are reproduced whatever the sorts do with ties exactly when their number is no
      multiple of 65536, or they hold at most one command. */
  lemma AgreementExactly(order: seq<Cmd>, k: nat, max: nat, threshold: int, delta: int)
    requires Distinct(order) && |order| <= max && threshold >= 1 && delta >= 1 && k > 0
    ensures (forall result :: IsOutcome(Copies(order, k), max, threshold, delta, result) ==> result == order)
            <==> k % WRAP != 0 || |order| <= 1
  {
    var n := |order|;
    if k % WRAP != 0 || n <= 1 {
      forall result | IsOutcome(Copies(order, k), max, threshold, delta, result) ensures result == order {
        AgreementReproduced(order, k, max, threshold, delta, result);
      }
    } else {
      var result := AgreementLost(order, k, max, threshold, delta);
    }
  }

  lemma AgreementLost(order: seq<Cmd>, k: nat, max: nat, threshold: int, delta: int) returns (result: seq<Cmd>)
    requires Distinct(order) && 1 < |order| <= max && threshold >= 1 && delta >= 1 && k > 0 && k % WRAP == 0
    ensures IsOutcome(Copies(order, k), max, threshold, delta, result) && result != order
  {
    var n := |order|;
    CopiesIds(order, k, max);
    CopiesMapped(order, k);
    CopiesInOrder(n, k);
    SwappedMultiset(n);
    var st := Lone(Swapped(n));
    AnyOrderStages(Copies(Iota(n), k), n, threshold, delta, Swapped(n));
    LoneEmits(Copies(Iota(n), k), n, Swapped(n));
    forall x | x in Swapped(n) ensures x < n { assert x in Emitted(st); }
    result := Commands(order, Swapped(n));
    assert IsOutcomeOf(Copies(order, k), order, threshold, delta, st, result);
    assert result[0] == order[1] != order[0];
  }
}
