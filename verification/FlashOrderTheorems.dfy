/** What FlashOrder guarantees whatever the lists say: every command once, and clusters that are the
    classes of nearness. */
module FlashOrderTheorems {
  import opened Sequences
  import opened Sorting
  import opened FlashOrder

  // ---------------------------------------------------------------- every command once

  lemma {:induction false} FirstDistinctFacts(s: seq<Cmd>, max: nat)
    ensures var d := FirstDistinct(s, max);
            && Distinct(d) && |d| <= max && Elements(d) <= Elements(s)
            && (|d| < max ==> Elements(d) == Elements(s))
  {
    if s != [] {
      var init, last := s[..|s| - 1], s[|s| - 1];
      FirstDistinctFacts(init, max);
      assert s == init + [last];
      assert Elements(s) == Elements(init) + {last};
    }
  }

  lemma FirstDistinctStep(s: seq<Cmd>, c: Cmd, max: nat)
    ensures FirstDistinct(s + [c], max) ==
            if c in FirstDistinct(s, max) || |FirstDistinct(s, max)| >= max then FirstDistinct(s, max) else FirstDistinct(s, max) + [c]
  {
    assert (s + [c])[..|s|] == s;
  }

  lemma {:induction false} FirstDistinctAppend(s: seq<Cmd>, t: seq<Cmd>, max: nat)
    requires forall c :: c in t ==> c in FirstDistinct(s, max)
    ensures FirstDistinct(s + t, max) == FirstDistinct(s, max)
  {
    if t == [] {
      assert s + t == s;
    } else {
      var init, last := t[..|t| - 1], t[|t| - 1];
      assert (s + t)[..|s + t| - 1] == s + init;
      assert t == init + [last];
      FirstDistinctAppend(s, init, max);
    }
  }

  /** No more than `max` distinct commands: all of them get an index. */
  lemma AllGetIndex(s: seq<Cmd>, max: nat)
    requires |Elements(s)| <= max
    ensures Elements(FirstDistinct(s, max)) == Elements(s)
  {
    var d := FirstDistinct(s, max);
    FirstDistinctFacts(s, max);
    DistinctSize(d);
    if c :| c in Elements(s) && c !in Elements(d) {
      StrictlyFewer(Elements(d), Elements(s), c);
    }
  }

  lemma IotaMembers(n: nat)
    ensures forall x: nat :: x in Iota(n) <==> x < n
    ensures Distinct(Iota(n))
  {
    forall x: nat | x < n ensures x in Iota(n) { assert Iota(n)[x] == x; }
  }

  /** The clusters partition the indices, and sorting them inside does not change that. */
  lemma InnerPartition(lists: seq<seq<nat>>, n: nat, threshold: int, delta: int, st: Stages)
    requires AreStages(lists, n, threshold, delta, st)
    ensures |st.inner| == |st.clusters|
    ensures forall i :: 0 <= i < |st.inner| ==> Distinct(st.inner[i]) && forall x :: x in st.inner[i] <==> x in st.clusters[i]
    ensures Disjoint(st.clusters) && Disjoint(st.inner)
    ensures forall x: nat :: x < n <==> InSome(st.clusters, x)
  {
    var pos := At(Positions(lists, n, threshold));
    IotaMembers(n);
    SortingDistinct(Iota(n), pos, st.sid);
    SortingLength(Iota(n), pos, st.sid);
    ConcatDistinct(st.clusters);
    forall i | 0 <= i < |st.inner| ensures Distinct(st.inner[i]) && forall x :: x in st.inner[i] <==> x in st.clusters[i] {
      SortingDistinct(st.clusters[i], ByNet(lists, st.clusters[i]), st.inner[i]);
      SortingLength(st.clusters[i], ByNet(lists, st.clusters[i]), st.inner[i]);
    }
    forall x: nat ensures x < n <==> InSome(st.clusters, x) {
      ConcatMembers(st.clusters, x);
    }
  }

  lemma OrderOfClusters(lists: seq<seq<nat>>, n: nat, threshold: int, delta: int, st: Stages)
    requires AreStages(lists, n, threshold, delta, st)
    ensures Distinct(st.sorted + st.rest)
    ensures forall i :: i in st.sorted + st.rest <==> 0 <= i < |st.clusters|
  {
    var g := DependencyGraph(lists, st.clusters);
    forall i ensures i in st.sorted + st.rest <==> 0 <= i < |st.clusters| {
      assert i in st.sorted + st.rest <==> i in Elements(st.sorted) + Elements(st.rest);
      assert i in g <==> 0 <= i < |st.clusters|;
    }
    assert Distinct(st.rest);
    forall x | x in st.sorted ensures x !in st.rest { assert x in Elements(st.sorted); }
    DistinctAppend(st.sorted, st.rest);
  }

  lemma SelectDistinct(parts: seq<seq<nat>>, order: seq<nat>)
    requires Distinct(order) && forall i :: i in order <==> 0 <= i < |parts|
    requires Disjoint(parts) && forall i :: 0 <= i < |parts| ==> Distinct(parts[i])
    ensures Distinct(Concat(Select(parts, order)))
    ensures forall x: nat :: x in Concat(Select(parts, order)) <==> InSome(parts, x)
  {
    var sel := Select(parts, order);
    forall j, k, x | 0 <= j < k < |sel| && x in sel[j] ensures x !in sel[k] {
      assert order[j] != order[k];
      assert x in parts[order[j]];
    }
    ConcatDistinct(sel);
    forall x: nat ensures x in Concat(sel) <==> InSome(parts, x) {
      ConcatMembers(sel, x);
      if i :| 0 <= i < |parts| && x in parts[i] {
        assert i in order;
        var k :| 0 <= k < |order| && order[k] == i;
        assert x in sel[k];
      }
    }
  }

  /** The indices in the order in which the clusters emit them: each once. */
  lemma EmittedOnce(lists: seq<seq<nat>>, n: nat, threshold: int, delta: int, st: Stages)
    requires AreStages(lists, n, threshold, delta, st)
    ensures forall i :: i in st.sorted + st.rest ==> i < |st.inner|
    ensures var out := Concat(Select(st.inner, st.sorted + st.rest)); Distinct(out) && forall x: nat :: x in out <==> x < n
  {
    InnerPartition(lists, n, threshold, delta, st);
    OrderOfClusters(lists, n, threshold, delta, st);
    SelectDistinct(st.inner, st.sorted + st.rest);
    forall x: nat ensures InSome(st.inner, x) <==> x < n {
      if i :| 0 <= i < |st.inner| && x in st.inner[i] {
        assert x in st.clusters[i];
        assert InSome(st.clusters, x);
      }
      if x < n {
        assert InSome(st.clusters, x);
        var i :| 0 <= i < |st.clusters| && x in st.clusters[i];
        assert x in st.inner[i];
      }
    }
  }

  lemma CommandsOnce(ids: seq<Cmd>, out: seq<nat>)
    requires Distinct(ids) && Distinct(out) && forall x: nat :: x in out <==> x < |ids|
    ensures Distinct(Commands(ids, out)) && Elements(Commands(ids, out)) == Elements(ids)
  {
    var r := Commands(ids, out);
    forall c | c in ids ensures c in r {
      var i :| 0 <= i < |ids| && ids[i] == c;
      assert i in out;
      var k :| 0 <= k < |out| && out[k] == i;
      assert r[k] == c;
    }
  }

  /** `finalize` returns the first `max` distinct commands, each once; all of them if there are no more.
      It does so also when the dependencies between clusters are cyclic. */
  lemma EveryCommandOnce(lists: seq<seq<Cmd>>, max: nat, threshold: int, delta: int, result: seq<Cmd>)
    requires IsOutcome(lists, max, threshold, delta, result)
    ensures Distinct(result) && Elements(result) == Elements(FirstDistinct(Concat(lists), max))
    ensures |Elements(Concat(lists))| <= max ==> Elements(result) == Elements(Concat(lists))
    ensures |Elements(Concat(lists))| > max ==> |result| == max && Elements(result) <= Elements(Concat(lists))
  {
    var s := Concat(lists);
    var ids := FirstDistinct(s, max);
    FirstDistinctFacts(s, max);
    if |ids| > 1 {
      var st :| IsOutcomeOf(lists, ids, threshold, delta, st, result);
      EmittedOnce(MapAll(lists, Index(ids)), |ids|, threshold, delta, st);
      CommandsOnce(ids, Concat(Select(st.inner, st.sorted + st.rest)));
    }
    DistinctSize(result);
    DistinctSize(ids);
    if |Elements(s)| <= max { AllGetIndex(s, max); }
  }

  // ---------------------------------------------------------------- clusters are classes of nearness

  /** A chain of positions, each less than `delta` from the next. */
  ghost predicate Chain(path: seq<nat>, n: nat, pos: Key, delta: int) {
    && |path| > 0 && (forall k :: 0 <= k < |path| ==> path[k] < n)
    && forall k :: 0 < k < |path| ==> Near(pos, delta, path[k - 1], path[k])
  }

  ghost predicate Near(pos: Key, delta: int, a: nat, b: nat) {
    -delta < pos(a) - pos(b) < delta
  }

  ghost predicate Linked(n: nat, pos: Key, delta: int, a: nat, b: nat) {
    exists path :: Chain(path, n, pos, delta) && path[0] == a && path[|path| - 1] == b
  }

  ghost predicate SameCluster(clusters: seq<seq<nat>>, a: nat, b: nat) {
    exists i :: 0 <= i < |clusters| && a in clusters[i] && b in clusters[i]
  }

  /** Positions ascend from cluster to cluster and inside each. */
  ghost predicate Ascends(s: seq<nat>, pos: Key) {
    forall j, k :: 0 <= j < k < |s| ==> pos(s[j]) <= pos(s[k])
  }

  lemma {:induction false} ClustersAscend(clusters: seq<seq<nat>>, pos: Key, i: nat, j: nat, a: nat, b: nat)
    requires Ascends(Concat(clusters), pos) && i < j < |clusters| && a in clusters[i] && b in clusters[j]
    ensures pos(a) <= pos(b)
  {
    var init, last := clusters[..|clusters| - 1], clusters[|clusters| - 1];
    var all := Concat(clusters);
    assert a in Concat(init) by { ConcatMembers(init, a); assert init[i] == clusters[i]; }
    var k :| 0 <= k < |Concat(init)| && Concat(init)[k] == a;
    if j == |clusters| - 1 {
      var m :| 0 <= m < |last| && last[m] == b;
      assert all[k] == a && all[|Concat(init)| + m] == b;
    } else {
      PrefixAscends(Concat(init), last, pos);
      ClustersAscend(init, pos, i, j, a, b);
    }
  }

  lemma PrefixAscends(s: seq<nat>, t: seq<nat>, pos: Key)
    requires Ascends(s + t, pos)
    ensures Ascends(s, pos) && Ascends(t, pos)
  {
    var all := s + t;
    forall j, k | 0 <= j < k < |s| ensures pos(s[j]) <= pos(s[k]) { assert all[j] == s[j] && all[k] == s[k]; }
    forall j, k | 0 <= j < k < |t| ensures pos(t[j]) <= pos(t[k]) { assert all[|s| + j] == t[j] && all[|s| + k] == t[k]; }
  }

  lemma {:induction false} ClusterAscends(clusters: seq<seq<nat>>, pos: Key, i: nat)
    requires Ascends(Concat(clusters), pos) && i < |clusters|
    ensures Ascends(clusters[i], pos)
  {
    var init, last := clusters[..|clusters| - 1], clusters[|clusters| - 1];
    PrefixAscends(Concat(init), last, pos);
    if i < |init| { ClusterAscends(init, pos, i); }
  }

  /** Members of different clusters are at least `delta` apart. */
  lemma FarApart(sid: seq<nat>, pos: Key, delta: int, clusters: seq<seq<nat>>, i: nat, j: nat, a: nat, b: nat)
    requires IsClustering(sid, pos, delta, clusters) && Ascends(sid, pos)
    requires i < j < |clusters| && a in clusters[i] && b in clusters[j]
    ensures pos(b) - pos(a) >= delta
  {
    var left, right := clusters[i], clusters[i + 1];
    assert Gap(clusters[i + 1 - 1], clusters[i + 1], pos, delta);
    ClusterAscends(clusters, pos, i);
    ClusterAscends(clusters, pos, i + 1);
    var k :| 0 <= k < |left| && left[k] == a;
    assert pos(a) <= pos(left[|left| - 1]);
    assert right[0] in right;
    if i + 1 < j {
      ClustersAscend(clusters, pos, i + 1, j, right[0], b);
    } else {
      var m :| 0 <= m < |right| && right[m] == b;
      assert pos(right[0]) <= pos(b);
    }
  }

  /** The clusters are exactly the classes of the transitive closure of being less than `delta` apart,
      however the sort arranged equal positions. */
  lemma ClustersAreClasses(sid: seq<nat>, n: nat, pos: Key, delta: int, clusters: seq<seq<nat>>, a: nat, b: nat)
    requires delta >= 1 && IsSorting(Iota(n), pos, sid) && IsClustering(sid, pos, delta, clusters) && a < n && b < n
    ensures SameCluster(clusters, a, b) <==> Linked(n, pos, delta, a, b)
  {
    SortingLength(Iota(n), pos, sid);
    IotaMembers(n);
    if SameCluster(clusters, a, b) {
      var i :| 0 <= i < |clusters| && a in clusters[i] && b in clusters[i];
      ClusterLinked(sid, n, pos, delta, clusters, i, a, b);
    }
    if Linked(n, pos, delta, a, b) {
      var path :| Chain(path, n, pos, delta) && path[0] == a && path[|path| - 1] == b;
      assert a in sid;
      ConcatMembers(clusters, a);
      var i :| 0 <= i < |clusters| && a in clusters[i];
      ChainStays(sid, n, pos, delta, clusters, i, path, |path| - 1);
    }
  }

  lemma {:induction false} ChainStays(sid: seq<nat>, n: nat, pos: Key, delta: int, clusters: seq<seq<nat>>,
          i: nat, path: seq<nat>, k: nat)
    requires IsSorting(Iota(n), pos, sid) && IsClustering(sid, pos, delta, clusters) && i < |clusters|
    requires Chain(path, n, pos, delta) && path[0] in clusters[i] && k < |path|
    ensures path[k] in clusters[i]
  {
    if k > 0 {
      ChainStays(sid, n, pos, delta, clusters, i, path, k - 1);
      SortingLength(Iota(n), pos, sid);
      IotaMembers(n);
      assert path[k] in sid;
      ConcatMembers(clusters, path[k]);
      var j :| 0 <= j < |clusters| && path[k] in clusters[j];
      assert Near(pos, delta, path[k - 1], path[k]);
      if i < j { FarApart(sid, pos, delta, clusters, i, j, path[k - 1], path[k]); }
      if j < i { FarApart(sid, pos, delta, clusters, j, i, path[k], path[k - 1]); }
    }
  }

  lemma MemberBelow(sid: seq<nat>, n: nat, pos: Key, delta: int, clusters: seq<seq<nat>>, i: nat, k: nat)
    requires IsSorting(Iota(n), pos, sid) && IsClustering(sid, pos, delta, clusters)
    requires i < |clusters| && k < |clusters[i]|
    ensures clusters[i][k] < n
  {
    var x := clusters[i][k];
    SortingLength(Iota(n), pos, sid);
    IotaMembers(n);
    assert x in clusters[i];
    ConcatMembers(clusters, x);
    assert x in sid;
  }

  lemma ClusterLinked(sid: seq<nat>, n: nat, pos: Key, delta: int, clusters: seq<seq<nat>>, i: nat, a: nat, b: nat)
    requires delta >= 1 && IsSorting(Iota(n), pos, sid) && IsClustering(sid, pos, delta, clusters)
    requires i < |clusters| && a in clusters[i] && b in clusters[i]
    ensures Linked(n, pos, delta, a, b)
  {
    var c := clusters[i];
    ClusterAscends(clusters, pos, i);
    forall k | 0 <= k < |c| ensures c[k] < n { MemberBelow(sid, n, pos, delta, clusters, i, k); }
    var j :| 0 <= j < |c| && c[j] == a;
    var k :| 0 <= k < |c| && c[k] == b;
    assert Dense(c, pos, delta);
    MembersLinked(c, n, pos, delta, j, k);
  }

  lemma MembersLinked(c: seq<nat>, n: nat, pos: Key, delta: int, j: nat, k: nat)
    requires delta >= 1 && Ascends(c, pos) && Dense(c, pos, delta) && j < |c| && k < |c|
    requires forall m :: 0 <= m < |c| ==> c[m] < n
    ensures Linked(n, pos, delta, c[j], c[k])
  {
    if j <= k {
      DenseChain(c, n, pos, delta, j, k);
    } else {
      DenseChain(c, n, pos, delta, k, j);
      ReversedChain(c[k..j + 1], n, pos, delta);
    }
  }

  lemma DenseChain(c: seq<nat>, n: nat, pos: Key, delta: int, j: nat, k: nat)
    requires delta >= 1 && Ascends(c, pos) && Dense(c, pos, delta) && j <= k < |c|
    requires forall m :: 0 <= m < |c| ==> c[m] < n
    ensures Chain(c[j..k + 1], n, pos, delta) && Linked(n, pos, delta, c[j], c[k])
  {
    var path := c[j..k + 1];
    forall m | 0 < m < |path| ensures Near(pos, delta, path[m - 1], path[m]) {
      assert pos(c[j + m - 1]) <= pos(c[j + m]) && pos(c[j + m]) - pos(c[j + m - 1]) < delta;
    }
  }

  lemma ReversedChain(path: seq<nat>, n: nat, pos: Key, delta: int)
    requires Chain(path, n, pos, delta)
    ensures Linked(n, pos, delta, path[|path| - 1], path[0])
  {
    var r := Reversed(path);
    forall m | 0 < m < |r| ensures Near(pos, delta, r[m - 1], r[m]) {
      var q := |path| - m;
      assert Near(pos, delta, path[q - 1], path[q]);
    }
    assert Chain(r, n, pos, delta);
  }

  ghost function Reversed(s: seq<nat>): (r: seq<nat>)
    ensures |r| == |s| && forall k :: 0 <= k < |s| ==> r[k] == s[|s| - 1 - k]
  {
    seq(|s|, k requires 0 <= k < |s| => s[|s| - 1 - k])
  }
}
