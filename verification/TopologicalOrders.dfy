/** The order that FlashOrder's topological sort makes, by the graph alone: the shortlex order of the
    latest path that leads to each vertex, and behind it what lies on or behind a cycle. */
module TopologicalOrders {
  import opened Graphs
  import opened Sequences
  import opened TopologicalSort

  /** Some cycle reaches `x`. */
  ghost predicate BehindCycle(g: Graph, x: Tx) {
    exists c :: ReachPlus(g, c, c) && Reach(g, c, x)
  }

  lemma BehindOnwards(g: Graph, x: Tx, y: Tx)
    requires BehindCycle(g, x) && Reach(g, x, y)
    ensures BehindCycle(g, y)
  {
    var c :| ReachPlus(g, c, c) && Reach(g, c, x);
    ReachTrans(g, c, x, y);
  }

  lemma OnCycleBehind(g: Graph, x: Tx)
    requires ReachPlus(g, x, x)
    ensures BehindCycle(g, x)
  {
    ReachRefl(g, x);
  }

  /** A vertex behind a cycle has a predecessor behind one. */
  lemma BehindHasPred(g: Graph, x: Tx) returns (p: Tx)
    requires BehindCycle(g, x)
    ensures BehindCycle(g, p) && Edge(g, p, x)
  {
    var c :| ReachPlus(g, c, c) && Reach(g, c, x);
    ReachSplit(g, c, x);
    p := LastEdge(g, c, x);
    assert BehindCycle(g, p);
  }

  lemma FreePred(g: Graph, p: Tx, x: Tx)
    requires Edge(g, p, x) && !BehindCycle(g, x)
    ensures !BehindCycle(g, p)
  {
    if BehindCycle(g, p) {
      ReachEdge(g, p, x);
      BehindOnwards(g, p, x);
    }
  }

  // ---------------------------------------------------------------- what every order keeps

  /** Kahn's algorithm gets exactly the vertices that are behind no cycle. */
  lemma RestExactly(g: Graph, sorted: seq<Tx>, rest: seq<Tx>, x: Tx)
    requires Closed(g) && IsTopologicalSort(g, sorted, rest) && x in g
    ensures x in rest <==> BehindCycle(g, x)
  {
    assert x in Elements(sorted) + Elements(rest);
    if BehindCycle(g, x) && x in sorted {
      SortedNotBehind(g, sorted, x);
    }
    if x in rest && !BehindCycle(g, x) {
      var free := set y | y in rest && !BehindCycle(g, y);
      forall y | y in free ensures !ReachPlus(g, y, y) { if ReachPlus(g, y, y) { OnCycleBehind(g, y); } }
      assert forall y :: y in free ==> y in Elements(rest);
      var top := Topmost(g, free, x);
      assert Blocked(g, rest, top);
      var p :| p in rest && Edge(g, p, top);
      FreePred(g, p, top);
      var found := p in Preds(g, top) && p in free;
      assert false;
    }
  }

  /** The sorted part holds the predecessors of its members, earlier. */
  lemma SortedPred(g: Graph, sorted: seq<Tx>, p: Tx, k: nat)
    requires PredsFirst(g, sorted) && k < |sorted| && Edge(g, p, sorted[k])
    ensures exists j :: 0 <= j < k && sorted[j] == p
  {
    assert p in Preds(g, sorted[k]);
    assert p in sorted[..k];
  }

  lemma {:induction false} SortedNotBehind(g: Graph, sorted: seq<Tx>, x: Tx)
    requires PredsFirst(g, sorted) && x in sorted
    ensures !BehindCycle(g, x)
  {
    var k :| 0 <= k < |sorted| && sorted[k] == x;
    PrefixNotBehind(g, sorted, k);
  }

  lemma {:induction false} PrefixNotBehind(g: Graph, sorted: seq<Tx>, k: nat)
    requires PredsFirst(g, sorted) && k < |sorted|
    ensures !BehindCycle(g, sorted[k])
  {
    if BehindCycle(g, sorted[k]) {
      var p := BehindHasPred(g, sorted[k]);
      SortedPred(g, sorted, p, k);
      var j :| 0 <= j < k && sorted[j] == p;
      PrefixNotBehind(g, sorted, j);
    }
  }

  /** Everything that reaches a sorted vertex is sorted before it. */
  lemma {:induction false} ReachSorted(g: Graph, sorted: seq<Tx>, i: Tx, k: nat)
    requires PredsFirst(g, sorted) && k < |sorted| && i != sorted[k] && Reach(g, i, sorted[k])
    ensures exists j :: 0 <= j < k && sorted[j] == i
  {
    ReachSplit(g, i, sorted[k]);
    var p := LastEdge(g, i, sorted[k]);
    SortedPred(g, sorted, p, k);
    var j :| 0 <= j < k && sorted[j] == p;
    if i != p {
      ReachSorted(g, sorted, i, j);
      var m :| 0 <= m < j && sorted[m] == i;
    }
  }

  /** Of two vertices the one with the smaller index comes first in every order, if it reaches the
      other or if that is behind a cycle. */
  lemma KeptInEveryOrder(g: Graph, sorted: seq<Tx>, rest: seq<Tx>, i: Tx, j: Tx)
    requires Closed(g) && IsTopologicalSort(g, sorted, rest) && i in g && j in g && i < j
    requires Reach(g, i, j) || BehindCycle(g, j)
    ensures Precedes(sorted + rest, i, j)
  {
    var order := sorted + rest;
    RestExactly(g, sorted, rest, j);
    assert j in Elements(sorted) + Elements(rest) && i in Elements(sorted) + Elements(rest);
    if j in sorted {
      var k :| 0 <= k < |sorted| && sorted[k] == j;
      ReachSorted(g, sorted, i, k);
      var m :| 0 <= m < k && sorted[m] == i;
      assert order[m] == i && order[k] == j;
    } else {
      var k :| 0 <= k < |rest| && rest[k] == j;
      assert order[|sorted| + k] == j;
      if i in sorted {
        var m :| 0 <= m < |sorted| && sorted[m] == i;
        assert order[m] == i;
      } else {
        var m :| 0 <= m < |rest| && rest[m] == i;
        assert m < k && order[|sorted| + m] == i;
      }
    }
  }

  // ---------------------------------------------------------------- paths, shorter ones first

  /** Shorter, or as long and smaller where the two first differ. */
  ghost predicate Shortlex(p: seq<Tx>, q: seq<Tx>) {
    if |p| != |q| then |p| < |q|
    else if p == [] then false
    else
      var p', q' := p[..|p| - 1], q[..|q| - 1];
      Shortlex(p', q') || (p' == q' && p[|p| - 1] < q[|q| - 1])
  }

  lemma {:induction false} ShortlexTotal(p: seq<Tx>, q: seq<Tx>)
    ensures p == q || Shortlex(p, q) || Shortlex(q, p)
  {
    if |p| == |q| && p != [] {
      ShortlexTotal(p[..|p| - 1], q[..|q| - 1]);
      assert p == p[..|p| - 1] + [p[|p| - 1]] && q == q[..|q| - 1] + [q[|q| - 1]];
    }
  }

  lemma {:induction false} ShortlexTrans(p: seq<Tx>, q: seq<Tx>, r: seq<Tx>)
    requires Shortlex(p, q) && Shortlex(q, r)
    ensures Shortlex(p, r)
  {
    if |p| == |r| && Shortlex(p[..|p| - 1], q[..|q| - 1]) && Shortlex(q[..|q| - 1], r[..|r| - 1]) {
      ShortlexTrans(p[..|p| - 1], q[..|q| - 1], r[..|r| - 1]);
    }
  }

  lemma {:induction false} ShortlexNotSelf(p: seq<Tx>)
    ensures !Shortlex(p, p)
  {
    if p != [] { ShortlexNotSelf(p[..|p| - 1]); }
  }

  lemma ShortlexAppend(p: seq<Tx>, q: seq<Tx>, x: Tx, y: Tx)
    requires Shortlex(p, q) || (p == q && x < y)
    ensures Shortlex(p + [x], q + [y])
  {
    assert (p + [x])[..|p|] == p && (q + [y])[..|q|] == q;
  }

  ghost predicate PathTo(g: Graph, p: seq<Tx>, v: Tx) {
    IsPath(g, p) && p[|p| - 1] == v
  }

  /** Some path to `w` comes after all paths to `v`. */
  ghost predicate LatestBefore(g: Graph, v: Tx, w: Tx) {
    exists q :: PathTo(g, q, w) && forall p :: PathTo(g, p, v) ==> Shortlex(p, q)
  }

  /** Which of two vertices the sort puts first: of those behind no cycle the one whose latest path is the
      earlier, before all others in index order. */
  ghost predicate ComesFirst(g: Graph, i: Tx, j: Tx) {
    if BehindCycle(g, j) then BehindCycle(g, i) ==> i < j else !BehindCycle(g, i) && LatestBefore(g, i, j)
  }

  // ---------------------------------------------------------------- the queue follows the latest paths

  lemma {:induction false} ReadyFacts(g: Graph, order: seq<Tx>, v: Tx, k: nat)
    requires k <= |order| && Preds(g, v) <= Elements(order[..k])
    ensures ReadyAt(g, order, v) <= k && Preds(g, v) <= Elements(order[..ReadyAt(g, order, v)])
    ensures ReadyAt(g, order, v) > 0 ==> Edge(g, order[ReadyAt(g, order, v) - 1], v)
  {
    assert order[..|order|] == order;
    if order != [] {
      var last := |order| - 1;
      var init := order[..last];
      if Preds(g, v) <= Elements(init) {
        if k <= last {
          assert init[..k] == order[..k];
          ReadyFacts(g, init, v, k);
        } else {
          assert init[..last] == init;
          ReadyFacts(g, init, v, last);
        }
        assert init[..ReadyAt(g, init, v)] == order[..ReadyAt(g, init, v)];
      } else {
        var p :| p in Preds(g, v) && p !in Elements(init);
        LongerPrefix(order, k, last, p);
        assert p in order && p == order[last];
      }
    }
  }

  lemma LongerPrefix(order: seq<Tx>, k: nat, l: nat, p: Tx)
    requires k <= |order| && l <= |order| && p in order[..k]
    ensures k <= l ==> p in order[..l]
  {
  }

  /** The path back from a sorted vertex along the predecessors that released it. */
  ghost function ReleasePath(g: Graph, sorted: seq<Tx>, k: nat): (p: seq<Tx>)
    requires k < |sorted|
    ensures |p| > 0 && p[|p| - 1] == sorted[k]
  {
    var m := ReadyAt(g, sorted, sorted[k]);
    if m == 0 || m > k then [sorted[k]] else ReleasePath(g, sorted, m - 1) + [sorted[k]]
  }

  /** When a sorted vertex became ready, and the path that released it. */
  lemma SortedReady(g: Graph, sorted: seq<Tx>, k: nat) returns (m: nat, before: seq<Tx>)
    requires PredsFirst(g, sorted) && k < |sorted|
    ensures m == ReadyAt(g, sorted, sorted[k]) <= k && Preds(g, sorted[k]) <= Elements(sorted[..m])
    ensures m > 0 ==> Edge(g, sorted[m - 1], sorted[k])
    ensures (m == 0 <==> before == []) && (m > 0 ==> before == ReleasePath(g, sorted, m - 1))
    ensures ReleasePath(g, sorted, k) == before + [sorted[k]]
  {
    assert Preds(g, sorted[k]) <= Elements(sorted[..k]);
    ReadyFacts(g, sorted, sorted[k], k);
    m := ReadyAt(g, sorted, sorted[k]);
    before := if m == 0 then [] else ReleasePath(g, sorted, m - 1);
  }

  lemma {:induction false} ReleasePathTo(g: Graph, sorted: seq<Tx>, k: nat)
    requires PredsFirst(g, sorted) && k < |sorted|
    ensures PathTo(g, ReleasePath(g, sorted, k), sorted[k])
  {
    var m, before := SortedReady(g, sorted, k);
    if m > 0 {
      ReleasePathTo(g, sorted, m - 1);
      AppendEdge(g, before, sorted[k]);
    }
  }

  lemma AppendEdge(g: Graph, p: seq<Tx>, v: Tx)
    requires IsPath(g, p) && Edge(g, p[|p| - 1], v)
    ensures PathTo(g, p + [v], v)
  {
  }

  /** The release paths ascend along the sorted part. */
  lemma {:induction false} ReleasesAscend(g: Graph, sorted: seq<Tx>, k: nat, l: nat)
    requires PredsFirst(g, sorted) && InTurn(g, sorted) && k < l < |sorted|
    ensures Shortlex(ReleasePath(g, sorted, k), ReleasePath(g, sorted, l))
    decreases l
  {
    var m, p := SortedReady(g, sorted, k);
    var n, q := SortedReady(g, sorted, l);
    assert Sooner(g, sorted, sorted[k], sorted[l]);
    if 0 < m < n { ReleasesAscend(g, sorted, m - 1, n - 1); }
    ShortlexAppend(p, q, sorted[k], sorted[l]);
  }

  /** Not later in shortlex order. */
  ghost predicate UpTo(p: seq<Tx>, q: seq<Tx>) {
    p == q || Shortlex(p, q)
  }

  lemma UpToTrans(p: seq<Tx>, q: seq<Tx>, r: seq<Tx>)
    requires UpTo(p, q) && UpTo(q, r)
    ensures UpTo(p, r)
  {
    if p != q && q != r { ShortlexTrans(p, q, r); }
  }

  lemma UpToAppend(p: seq<Tx>, q: seq<Tx>, x: Tx)
    requires UpTo(p, q)
    ensures UpTo(p + [x], q + [x])
  {
    if p != q { ShortlexAppend(p, q, x, x); }
  }

  lemma ReleasesUpTo(g: Graph, sorted: seq<Tx>, k: nat, l: nat)
    requires PredsFirst(g, sorted) && InTurn(g, sorted) && k <= l < |sorted|
    ensures UpTo(ReleasePath(g, sorted, k), ReleasePath(g, sorted, l))
  {
    if k < l { ReleasesAscend(g, sorted, k, l); }
  }

  /** The last step of a path to a sorted vertex comes from one among those that make it ready. */
  lemma LastStep(g: Graph, p: seq<Tx>, v: Tx, ready: seq<Tx>) returns (init: seq<Tx>, l: nat)
    requires PathTo(g, p, v) && |p| > 1 && Preds(g, v) <= Elements(ready)
    ensures p == init + [v] && l < |ready| && PathTo(g, init, ready[l])
  {
    init := p[..|p| - 1];
    var i := |p| - 2;
    assert Edge(g, p[i], p[i + 1]) && p[i] in Preds(g, v);
    l :| 0 <= l < |ready| && ready[l] == p[i];
  }

  /** No path to a sorted vertex comes after its release path. */
  lemma {:induction false} ReleaseLatest(g: Graph, sorted: seq<Tx>, k: nat, p: seq<Tx>)
    requires PredsFirst(g, sorted) && InTurn(g, sorted) && k < |sorted| && PathTo(g, p, sorted[k])
    ensures UpTo(p, ReleasePath(g, sorted, k))
    decreases |p|
  {
    var m, before := SortedReady(g, sorted, k);
    if |p| == 1 {
      assert p == [sorted[k]];
    } else {
      var init, l := LastStep(g, p, sorted[k], sorted[..m]);
      ReleaseLatest(g, sorted, l, init);
      ReleasesUpTo(g, sorted, l, m - 1);
      UpToTrans(init, ReleasePath(g, sorted, l), before);
      UpToAppend(init, before, sorted[k]);
    }
  }

  /** Two sorted vertices are in the order of their latest paths. */
  lemma SortedByPaths(g: Graph, sorted: seq<Tx>, k: nat, l: nat)
    requires PredsFirst(g, sorted) && InTurn(g, sorted) && k < |sorted| && l < |sorted|
    ensures LatestBefore(g, sorted[k], sorted[l]) <==> k < l
  {
    var a, b := ReleasePath(g, sorted, k), ReleasePath(g, sorted, l);
    ReleasePathTo(g, sorted, k);
    ReleasePathTo(g, sorted, l);
    if k < l {
      ReleasesAscend(g, sorted, k, l);
      forall p | PathTo(g, p, sorted[k]) ensures Shortlex(p, b) {
        ReleaseLatest(g, sorted, k, p);
        if p != a { ShortlexTrans(p, a, b); }
      }
    } else {
      ReleasesUpTo(g, sorted, l, k);
      forall q | PathTo(g, q, sorted[l]) ensures !Shortlex(a, q) {
        ReleaseLatest(g, sorted, l, q);
        UpToTrans(q, b, a);
        NotLater(q, a);
      }
    }
  }

  lemma NotLater(q: seq<Tx>, a: seq<Tx>)
    requires UpTo(q, a)
    ensures !Shortlex(a, q)
  {
    ShortlexNotSelf(a);
    if Shortlex(a, q) && q != a { ShortlexTrans(a, q, a); }
  }

  /** Which of two vertices comes first, by the graph alone: whatever is behind a cycle comes last, in index
      order; before it the vertices are in the order of the latest path that leads to each. */
  lemma OrderExactly(g: Graph, sorted: seq<Tx>, rest: seq<Tx>, i: Tx, j: Tx)
    requires Closed(g) && IsTopologicalSort(g, sorted, rest) && InTurn(g, sorted) && i in g && j in g && i != j
    ensures Precedes(sorted + rest, i, j) <==> ComesFirst(g, i, j)
  {
    RestExactly(g, sorted, rest, i);
    RestExactly(g, sorted, rest, j);
    SortDistinct(g, sorted, rest);
    var order := sorted + rest;
    var k := PlaceOf(g, sorted, rest, i);
    var l := PlaceOf(g, sorted, rest, j);
    assert Precedes(order, i, j) <==> k < l by { if Precedes(order, i, j) { PlacesOnce(order, i, j, k, l); } }
    if k < |sorted| && l < |sorted| { SortedByPaths(g, sorted, k, l); }
  }

  lemma EitherFirst(g: Graph, sorted: seq<Tx>, rest: seq<Tx>, i: Tx, j: Tx)
    requires IsTopologicalSort(g, sorted, rest) && i in g && j in g && i != j
    ensures Precedes(sorted + rest, i, j) || Precedes(sorted + rest, j, i)
  {
    var k := PlaceOf(g, sorted, rest, i);
    var l := PlaceOf(g, sorted, rest, j);
  }

  lemma PlacesOnce(order: seq<Tx>, i: Tx, j: Tx, k: nat, l: nat)
    requires Distinct(order) && k < |order| && l < |order| && order[k] == i && order[l] == j && Precedes(order, i, j)
    ensures k < l
  {
  }

  lemma PlaceOf(g: Graph, sorted: seq<Tx>, rest: seq<Tx>, x: Tx) returns (k: nat)
    requires IsTopologicalSort(g, sorted, rest) && x in g
    ensures k < |sorted + rest| && (sorted + rest)[k] == x
    ensures if x in rest then k >= |sorted| && rest[k - |sorted|] == x else k < |sorted| && sorted[k] == x
  {
    assert x in Elements(sorted) + Elements(rest);
    if x in rest {
      var m :| 0 <= m < |rest| && rest[m] == x;
      k := |sorted| + m;
    } else {
      k :| 0 <= k < |sorted| && sorted[k] == x;
    }
  }

  /** The graph has one such sort. */
  lemma OneOrder(g: Graph, order: seq<Tx>, other: seq<Tx>)
    requires Closed(g) && IsSortOf(g, order) && IsSortOf(g, other)
    ensures order == other
  {
    var sorted, rest :| order == sorted + rest && IsTopologicalSort(g, sorted, rest) && InTurn(g, sorted);
    var sorted', rest' :| other == sorted' + rest' && IsTopologicalSort(g, sorted', rest') && InTurn(g, sorted');
    SortMembers(g, sorted, rest);
    SortMembers(g, sorted', rest');
    forall i, j | i in g && j in g && i != j ensures Precedes(order, i, j) <==> Precedes(other, i, j) {
      OrderExactly(g, sorted, rest, i, j);
      OrderExactly(g, sorted', rest', i, j);
    }
    SameSequence(order, other);
  }

  lemma SortMembers(g: Graph, sorted: seq<Tx>, rest: seq<Tx>)
    requires IsTopologicalSort(g, sorted, rest)
    ensures Distinct(sorted + rest) && forall x :: x in sorted + rest <==> x in g
  {
    SortDistinct(g, sorted, rest);
    forall x ensures x in sorted + rest <==> x in g { assert x in sorted + rest <==> x in Elements(sorted) + Elements(rest); }
  }

  lemma SameSequence(order: seq<Tx>, other: seq<Tx>)
    requires Distinct(order) && Distinct(other) && forall x :: x in order <==> x in other
    requires forall i, j :: i in order && j in order && i != j ==> (Precedes(order, i, j) <==> Precedes(other, i, j))
    ensures order == other
  {
    DistinctSize(order);
    DistinctSize(other);
    assert Elements(order) == Elements(other);
    SameOrder(order, other, |order|);
    assert order[..|order|] == order && other[..|other|] == other;
  }

  lemma {:induction false} SameOrder(order: seq<Tx>, other: seq<Tx>, k: nat)
    requires Distinct(order) && Distinct(other) && |order| == |other| && k <= |order|
    requires forall x :: x in order <==> x in other
    requires forall i, j :: i in order && j in order && i != j ==> (Precedes(order, i, j) <==> Precedes(other, i, j))
    ensures order[..k] == other[..k]
  {
    if k > 0 {
      var h := k - 1;
      SameOrder(order, other, h);
      var x, y := order[h], other[h];
      if x != y {
        assert x in order && y in other;
        NextLater(order, other, h);
        NextLater(other, order, h);
        PrecedesOnce(order, x, y);
      }
    }
  }

  lemma CommonPrefix(order: seq<Tx>, other: seq<Tx>, h: nat, m: nat)
    requires h <= |order| && h <= |other| && order[..h] == other[..h]
    ensures m < h ==> order[m] == other[m]
  {
    if m < h { assert order[..h][m] == other[..h][m]; }
  }

  /** After a common beginning, the next element of one sequence comes before that of the other. */
  lemma NextLater(order: seq<Tx>, other: seq<Tx>, h: nat)
    requires Distinct(other) && h < |order| && h < |other| && order[..h] == other[..h]
    requires order[h] != other[h] && other[h] in order
    ensures Precedes(order, order[h], other[h])
  {
    var m :| 0 <= m < |order| && order[m] == other[h];
    CommonPrefix(order, other, h, m);
  }

  lemma SortDistinct(g: Graph, sorted: seq<Tx>, rest: seq<Tx>)
    requires IsTopologicalSort(g, sorted, rest)
    ensures Distinct(sorted + rest)
  {
    forall x | x in sorted ensures x !in rest { assert x in Elements(sorted); }
    DistinctAppend(sorted, rest);
  }
}
