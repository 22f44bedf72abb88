/** FlashOrder and unanimity: how far the stages respect what all lists say of two commands. The canonical
    positions, the order of the clusters before they are sorted topologically, and the order inside a
    cluster do; module `FlashOrderUnanimity` says what becomes of it in the result. */
module FlashOrderFairness {
  import opened Sequences
  import opened LocalOrders
  import opened Sorting
  import opened FlashOrder
  import opened FlashOrderTheorems

  // ---------------------------------------------------------------- lists of indices

  lemma {:induction false} MappedMembers(list: seq<Cmd>, ids: seq<Cmd>, x: nat)
    requires Distinct(ids)
    ensures x in Mapped(list, Index(ids)) <==> x < |ids| && ids[x] in list
  {
    if list != [] {
      var init, last := list[..|list| - 1], list[|list| - 1];
      assert list == init + [last];
      MappedMembers(init, ids, x);
      IndexMeaning(ids, last);
    }
  }

  lemma {:induction false} MappedDistinct(list: seq<Cmd>, ids: seq<Cmd>)
    requires Distinct(ids) && Distinct(list)
    ensures Distinct(Mapped(list, Index(ids)))
  {
    if list != [] {
      var init, last := list[..|list| - 1], list[|list| - 1];
      MappedDistinct(init, ids);
      IndexMeaning(ids, last);
      if last in Index(ids) { MappedMembers(init, ids, Index(ids)[last]); }
    }
  }

  lemma {:induction false} MappedPrecedes(list: seq<Cmd>, ids: seq<Cmd>, x: nat, y: nat)
    requires Distinct(ids) && x < |ids| && y < |ids| && Precedes(list, ids[x], ids[y])
    ensures Precedes(Mapped(list, Index(ids)), x, y)
  {
    var init, last := list[..|list| - 1], list[|list| - 1];
    var i, j :| 0 <= i < j < |list| && list[i] == ids[x] && list[j] == ids[y];
    var m := Mapped(init, Index(ids));
    IndexMeaning(ids, last);
    if j == |list| - 1 {
      assert init[i] == ids[x];
      MappedMembers(init, ids, x);
      var k :| 0 <= k < |m| && m[k] == x;
      assert Mapped(list, Index(ids)) == m + [y];
      assert (m + [y])[k] == x && (m + [y])[|m|] == y;
    } else {
      assert init[i] == ids[x] && init[j] == ids[y];
      MappedPrecedes(init, ids, x, y);
      var k, l :| 0 <= k < l < |m| && m[k] == x && m[l] == y;
      assert Mapped(list, Index(ids))[k] == x && Mapped(list, Index(ids))[l] == y;
    }
  }

  // ---------------------------------------------------------------- unanimity

  /** Lists without repetitions, too few to make a counter wrap around, all with `a` before `b`. */
  ghost predicate Unanimous(lists: seq<seq<nat>>, a: nat, b: nat) {
    && DupFree(lists) && |lists| < WRAP
    && forall i :: 0 <= i < |lists| ==> Precedes(lists[i], a, b)
  }

  lemma PrefCount(lists: seq<seq<nat>>, x: nat, y: nat)
    requires DupFree(lists) && |lists| < WRAP
    ensures Pref(lists, x, y) == |Preferring(lists, x, y)|
  {
    VotesCount(lists, x, y);
  }

  /** Whatever precedes `a` precedes `b`, and whatever `b` precedes `a` precedes. */
  lemma PrefDominates(lists: seq<seq<nat>>, a: nat, b: nat, o: nat)
    requires Unanimous(lists, a, b)
    ensures Pref(lists, o, a) <= Pref(lists, o, b) && Pref(lists, b, o) <= Pref(lists, a, o)
  {
    forall i | 0 <= i < |lists| && Precedes(lists[i], o, a) ensures Precedes(lists[i], o, b) {
      PrecedesTrans(lists[i], o, a, b);
    }
    forall i | 0 <= i < |lists| && Precedes(lists[i], b, o) ensures Precedes(lists[i], a, o) {
      PrecedesTrans(lists[i], a, b, o);
    }
    PrefCount(lists, o, a);
    PrefCount(lists, o, b);
    PrefCount(lists, b, o);
    PrefCount(lists, a, o);
    FewerOf(Preferring(lists, o, a), Preferring(lists, o, b));
    FewerOf(Preferring(lists, b, o), Preferring(lists, a, o));
  }

  lemma PrefUnanimous(lists: seq<seq<nat>>, a: nat, b: nat)
    requires Unanimous(lists, a, b)
    ensures Pref(lists, a, b) == |lists|
    ensures lists != [] ==> Pref(lists, b, a) == 0 && a != b
  {
    PrefCount(lists, a, b);
    PrefCount(lists, b, a);
    assert Preferring(lists, a, b) == Elements(Iota(|lists|)) by {
      forall i: nat | i < |lists| ensures i in Elements(Iota(|lists|)) { assert Iota(|lists|)[i] == i; }
    }
    IotaMembers(|lists|);
    DistinctSize(Iota(|lists|));
    forall i | 0 <= i < |lists| ensures !Precedes(lists[i], b, a) { PrecedesOnce(lists[i], a, b); }
    assert Preferring(lists, b, a) == {};
    if lists != [] { assert Precedes(lists[0], a, b); }
  }

  /** The canonical positions respect unanimity. */
  lemma UnanimousPositions(lists: seq<seq<nat>>, n: nat, threshold: int, a: nat, b: nat)
    requires Unanimous(lists, a, b) && a < n && b < n && 1 <= threshold <= |lists|
    ensures Position(lists, n, threshold, a) < Position(lists, n, threshold, b)
  {
    var before, after := Ahead(lists, n, threshold, a), Ahead(lists, n, threshold, b);
    PrefUnanimous(lists, a, b);
    forall o | o in before ensures o in after {
      PrefDominates(lists, a, b, o);
    }
    assert a in after && a !in before;
    StrictlyFewer(before, after, a);
  }

  /** `a` does at least as well as `b` against every other, and better against `b`. */
  ghost predicate Dominates(lists: seq<seq<nat>>, a: nat, b: nat, members: seq<nat>) {
    && Pref(lists, a, b) > Pref(lists, b, a)
    && forall o :: o in members && o != a && o != b ==>
         Pref(lists, a, o) - Pref(lists, o, a) >= Pref(lists, b, o) - Pref(lists, o, b)
  }

  lemma {:induction false} NetDominates(lists: seq<seq<nat>>, a: nat, b: nat, members: seq<nat>)
    requires Dominates(lists, a, b, members)
    ensures Net(lists, a, members) >= Net(lists, b, members)
    ensures a in members ==> Net(lists, a, members) > Net(lists, b, members)
  {
    if members != [] {
      var init, last := members[..|members| - 1], members[|members| - 1];
      assert members == init + [last];
      NetDominates(lists, a, b, init);
    }
  }

  /** Unanimity through the stages: `a` has the smaller position, no later cluster, and comes first
      inside a common cluster, whatever the sorts do with ties. */
  lemma UnanimousStages(lists: seq<seq<nat>>, n: nat, threshold: int, delta: int, st: Stages, a: nat, b: nat)
    requires Unanimous(lists, a, b) && a < n && b < n && 1 <= threshold <= |lists|
    requires AreStages(lists, n, threshold, delta, st)
    ensures Position(lists, n, threshold, a) < Position(lists, n, threshold, b)
    ensures forall i, j :: 0 <= i < |st.clusters| && 0 <= j < |st.clusters| && a in st.clusters[i] && b in st.clusters[j] ==> i <= j
    ensures forall i :: 0 <= i < |st.clusters| && a in st.clusters[i] && b in st.clusters[i] ==> Precedes(st.inner[i], a, b)
  {
    var pos := At(Positions(lists, n, threshold));
    UnanimousPositions(lists, n, threshold, a, b);
    forall i, j | 0 <= i < |st.clusters| && 0 <= j < |st.clusters| && a in st.clusters[i] && b in st.clusters[j] ensures i <= j {
      if j < i { ClustersAscend(st.clusters, pos, j, i, b, a); }
    }
    forall i | 0 <= i < |st.clusters| && a in st.clusters[i] && b in st.clusters[i] ensures Precedes(st.inner[i], a, b) {
      UnanimousInside(lists, a, b, st.clusters[i], st.inner[i]);
    }
  }

  lemma UnanimousInside(lists: seq<seq<nat>>, a: nat, b: nat, cluster: seq<nat>, inner: seq<nat>)
    requires Unanimous(lists, a, b) && lists != [] && a in cluster && b in cluster
    requires IsSorting(cluster, ByNet(lists, cluster), inner)
    ensures Precedes(inner, a, b)
  {
    PrefUnanimous(lists, a, b);
    forall o | o in cluster ensures Pref(lists, a, o) - Pref(lists, o, a) >= Pref(lists, b, o) - Pref(lists, o, b) {
      PrefDominates(lists, a, b, o);
    }
    NetDominates(lists, a, b, cluster);
    SmallerKeyFirst(cluster, ByNet(lists, cluster), inner, a, b);
  }

  /** Unanimity of the commands' own lists is unanimity of the index lists. */
  lemma UnanimousMapped(lists: seq<seq<Cmd>>, ids: seq<Cmd>, x: nat, y: nat)
    requires Distinct(ids) && x < |ids| && y < |ids| && Unanimous(lists, ids[x], ids[y])
    ensures Unanimous(MapAll(lists, Index(ids)), x, y)
  {
    forall i | 0 <= i < |lists| ensures Distinct(Mapped(lists[i], Index(ids))) && Precedes(Mapped(lists[i], Index(ids)), x, y) {
      MappedDistinct(lists[i], ids);
      MappedPrecedes(lists[i], ids, x, y);
    }
  }

  lemma {:induction false} ConcatPrecedes(parts: seq<seq<nat>>, k: nat, x: nat, y: nat)
    requires k < |parts| && Precedes(parts[k], x, y)
    ensures Precedes(Concat(parts), x, y)
  {
    var init, last := parts[..|parts| - 1], parts[|parts| - 1];
    var all := Concat(parts);
    if k == |parts| - 1 {
      var i, j :| 0 <= i < j < |last| && last[i] == x && last[j] == y;
      assert all[|Concat(init)| + i] == x && all[|Concat(init)| + j] == y;
    } else {
      ConcatPrecedes(init, k, x, y);
      var i, j :| 0 <= i < j < |Concat(init)| && Concat(init)[i] == x && Concat(init)[j] == y;
      assert all[i] == x && all[j] == y;
    }
  }
}
