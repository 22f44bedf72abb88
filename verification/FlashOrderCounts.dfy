/** What FlashOrder's numbers count: which commands get an identifier, when a command counts as ahead of
    another, what the score of a command in its cluster and the weights between clusters are. */
module FlashOrderCounts {
  import opened Graphs
  import opened Sequences
  import opened LocalOrders
  import opened Sorting
  import opened FlashOrder
  import opened FlashOrderTheorems
  import opened FlashOrderFairness

  // ---------------------------------------------------------------- identifiers

  /** A command gets an identifier exactly if it occurs after fewer than `max` distinct ones; identifiers
      are given out in the order of the first occurrences. */
  lemma {:induction false} FirstDistinctExactly(s: seq<Cmd>, max: nat)
    ensures forall c :: c in FirstDistinct(s, max) <==> exists i :: 0 <= i < |s| && s[i] == c && |Elements(s[..i])| < max
    ensures var d := FirstDistinct(s, max);
            forall j, k :: 0 <= j < k < |d| ==> exists i :: 0 <= i <= |s| && d[j] in s[..i] && d[k] !in s[..i]
  {
    if s != [] {
      var init, last := s[..|s| - 1], s[|s| - 1];
      var d, before := FirstDistinct(s, max), FirstDistinct(init, max);
      FirstDistinctExactly(init, max);
      FirstDistinctFacts(init, max);
      assert forall i :: 0 <= i <= |init| ==> s[..i] == init[..i];
      assert s[..|init|] == init;
      Room(init, max);
      forall c ensures c in d <==> exists i :: 0 <= i < |s| && s[i] == c && |Elements(s[..i])| < max {
        if c in before { var i :| 0 <= i < |init| && init[i] == c && |Elements(init[..i])| < max; assert s[i] == c; }
        if i :| 0 <= i < |s| && s[i] == c && |Elements(s[..i])| < max { assert i < |init| ==> init[i] == c; }
      }
      forall j, k | 0 <= j < k < |d| ensures exists i :: 0 <= i <= |s| && d[j] in s[..i] && d[k] !in s[..i] {
        if k < |before| {
          var i :| 0 <= i <= |init| && before[j] in init[..i] && before[k] !in init[..i];
          assert s[..i] == init[..i];
        } else {
          Occurs(init, max, before[j]);
          Fresh(init, max, d[k]);
          assert d[j] in s[..|init|] && d[k] !in s[..|init|];
        }
      }
    }
  }

  /** There is room for one more exactly while fewer than `max` distinct commands occurred. */
  lemma Room(s: seq<Cmd>, max: nat)
    ensures |FirstDistinct(s, max)| < max <==> |Elements(s)| < max
  {
    FirstDistinctFacts(s, max);
    DistinctSize(FirstDistinct(s, max));
    FewerOf(Elements(FirstDistinct(s, max)), Elements(s));
  }

  lemma Occurs(s: seq<Cmd>, max: nat, c: Cmd)
    requires c in FirstDistinct(s, max)
    ensures c in s
  {
    FirstDistinctFacts(s, max);
    assert c in Elements(FirstDistinct(s, max));
  }

  lemma Fresh(s: seq<Cmd>, max: nat, c: Cmd)
    requires c !in FirstDistinct(s, max) && |FirstDistinct(s, max)| < max
    ensures c !in s
  {
    FirstDistinctFacts(s, max);
    assert c in s ==> c in Elements(s);
  }

  // ---------------------------------------------------------------- who is ahead

  /** The threshold is the least integer, from 1, above nodes * (1 - gamma) + faults; for gamma above 1, for
      which the program rounds the other way, the least one not below that and 1 more. */
  lemma ThresholdExactly(faults: int, nodes: int, gamma: real)
    ensures var t := Threshold(faults, nodes, gamma);
            var bound := (if nodes < 1 then 1 else nodes) as real * (1.0 - gamma) + faults as real;
            && t >= 1
            && (gamma <= 1.0 ==> t as real > bound && (t == 1 || (t - 1) as real <= bound))
            && (gamma > 1.0 ==> t as real >= bound + 1.0 && (t == 1 || (t - 1) as real < bound + 1.0))
  {
    var n := if nodes < 1 then 1 else nodes;
    SignOf(n as real, 1.0 - gamma);
  }

  lemma SignOf(n: real, share: real)
    requires n >= 1.0
    ensures n * share >= 0.0 <==> share >= 0.0
  {
  }

  lemma {:induction false} MappedPrecedesBack(list: seq<Cmd>, ids: seq<Cmd>, x: nat, y: nat)
    requires Distinct(ids) && x < |ids| && y < |ids| && Precedes(Mapped(list, Index(ids)), x, y)
    ensures Precedes(list, ids[x], ids[y])
  {
    var m := Mapped(list, Index(ids));
    var k, l :| 0 <= k < l < |m| && m[k] == x && m[l] == y;
    var init, last := list[..|list| - 1], list[|list| - 1];
    var n := Mapped(init, Index(ids));
    IndexMeaning(ids, last);
    if l < |n| {
      assert n[k] == x && n[l] == y;
      MappedPrecedesBack(init, ids, x, y);
      var i, j :| 0 <= i < j < |init| && init[i] == ids[x] && init[j] == ids[y];
      assert list[i] == ids[x] && list[j] == ids[y];
    } else {
      assert n[k] == x && x in n;
      MappedMembers(init, ids, x);
      var i :| 0 <= i < |init| && init[i] == ids[x];
      assert list[i] == ids[x] && list[|init|] == ids[y];
    }
  }

  /** The index lists say of two indices what the lists say of the commands. */
  lemma MappedPreferring(lists: seq<seq<Cmd>>, ids: seq<Cmd>, x: nat, y: nat)
    requires Distinct(ids) && x < |ids| && y < |ids|
    ensures Preferring(MapAll(lists, Index(ids)), x, y) == Preferring(lists, ids[x], ids[y])
  {
    forall i | 0 <= i < |lists|
      ensures Precedes(Mapped(lists[i], Index(ids)), x, y) <==> Precedes(lists[i], ids[x], ids[y])
    {
      if Precedes(lists[i], ids[x], ids[y]) { MappedPrecedes(lists[i], ids, x, y); }
      if Precedes(Mapped(lists[i], Index(ids)), x, y) { MappedPrecedesBack(lists[i], ids, x, y); }
    }
  }

  lemma MappedDupFree(lists: seq<seq<Cmd>>, ids: seq<Cmd>)
    requires Distinct(ids) && DupFree(lists)
    ensures DupFree(MapAll(lists, Index(ids)))
  {
    forall i | 0 <= i < |lists| ensures Distinct(Mapped(lists[i], Index(ids))) { MappedDistinct(lists[i], ids); }
  }

  /** A command counts as ahead of another exactly if more than nodes * (1 - gamma) + faults lists put it
      first. */
  lemma AheadExactly(lists: seq<seq<Cmd>>, ids: seq<Cmd>, faults: nat, nodes: int, gamma: real, o: nat, x: nat)
    requires Distinct(ids) && DupFree(lists) && |lists| < WRAP && o < |ids| && x < |ids|
    requires nodes >= 1 && 0.0 <= gamma <= 1.0
    ensures o in Ahead(MapAll(lists, Index(ids)), |ids|, Threshold(faults, nodes, gamma), x)
            <==> o != x && |Preferring(lists, ids[o], ids[x])| as real > nodes as real * (1.0 - gamma) + faults as real
  {
    var mapped, t := MapAll(lists, Index(ids)), Threshold(faults, nodes, gamma);
    MappedDupFree(lists, ids);
    MappedPreferring(lists, ids, o, x);
    PrefCount(mapped, o, x);
    ThresholdReached(faults, nodes, gamma, |Preferring(lists, ids[o], ids[x])|);
    AheadMeaning(mapped, |ids|, t, o, x);
  }

  lemma AheadMeaning(lists: seq<seq<nat>>, n: nat, t: int, o: nat, x: nat)
    requires o < n
    ensures o in Ahead(lists, n, t, x) <==> o != x && Pref(lists, o, x) >= t
  {
  }

  lemma ThresholdReached(faults: nat, nodes: int, gamma: real, count: nat)
    requires nodes >= 1 && 0.0 <= gamma <= 1.0
    ensures count >= Threshold(faults, nodes, gamma) <==> count as real > nodes as real * (1.0 - gamma) + faults as real
  {
    ThresholdExactly(faults, nodes, gamma);
    SignOf(nodes as real, 1.0 - gamma);
    LeastAbove(Threshold(faults, nodes, gamma), nodes as real * (1.0 - gamma) + faults as real, count);
  }

  lemma LeastAbove(t: int, bound: real, count: int)
    requires t as real > bound >= 0.0 && (t == 1 || (t - 1) as real <= bound)
    ensures count >= t <==> count as real > bound
  {
    if count < t { assert count as real <= (t - 1) as real; }
  }

  // ---------------------------------------------------------------- scores and weights

  /** Who put a member of `left` before a member of `right`, and which ones. */
  ghost function Orders(lists: seq<seq<nat>>, left: seq<nat>, right: seq<nat>): set<(nat, nat, nat)> {
    set l, a, b | 0 <= l < |lists| && a in left && b in right && Precedes(lists[l], a, b) :: (l, a, b)
  }

  ghost function Tagged(ls: set<nat>, a: nat, b: nat): set<(nat, nat, nat)> {
    set l | l in ls :: (l, a, b)
  }

  lemma {:induction false} TaggedSize(ls: set<nat>, a: nat, b: nat)
    ensures |Tagged(ls, a, b)| == |ls|
    decreases |ls|
  {
    if ls != {} {
      var l :| l in ls;
      TaggedSize(ls - {l}, a, b);
      assert Tagged(ls, a, b) == Tagged(ls - {l}, a, b) + {(l, a, b)};
      assert (l, a, b) !in Tagged(ls - {l}, a, b);
    }
  }

  lemma OrdersRight(lists: seq<seq<nat>>, a: nat, right: seq<nat>, b: nat)
    requires b !in right
    ensures Orders(lists, [a], right + [b]) == Orders(lists, [a], right) + Tagged(Preferring(lists, a, b), a, b)
    ensures Orders(lists, [a], right) !! Tagged(Preferring(lists, a, b), a, b)
  {
  }

  lemma OrdersLeft(lists: seq<seq<nat>>, left: seq<nat>, a: nat, right: seq<nat>)
    requires a !in left
    ensures Orders(lists, left + [a], right) == Orders(lists, left, right) + Orders(lists, [a], right)
    ensures Orders(lists, left, right) !! Orders(lists, [a], right)
  {
  }

  lemma {:induction false} RowWeightCounts(lists: seq<seq<nat>>, a: nat, bs: seq<nat>)
    requires DupFree(lists) && |lists| < WRAP && Distinct(bs)
    ensures RowWeight(lists, a, bs) == |Orders(lists, [a], bs)|
  {
    if bs != [] {
      var init, b := bs[..|bs| - 1], bs[|bs| - 1];
      assert bs == init + [b];
      RowWeightCounts(lists, a, init);
      OrdersRight(lists, a, init, b);
      TaggedSize(Preferring(lists, a, b), a, b);
      PrefCount(lists, a, b);
    }
  }

  /** The weight of one cluster over another is how often a list puts a member of the one before a member of
      the other. */
  lemma {:induction false} WeightCounts(lists: seq<seq<nat>>, left: seq<nat>, right: seq<nat>)
    requires DupFree(lists) && |lists| < WRAP && Distinct(left) && Distinct(right)
    ensures Weight(lists, left, right) == |Orders(lists, left, right)|
  {
    if left != [] {
      var init, a := left[..|left| - 1], left[|left| - 1];
      assert left == init + [a];
      WeightCounts(lists, init, right);
      RowWeightCounts(lists, a, right);
      OrdersLeft(lists, init, a, right);
    }
  }

  lemma {:induction false} NetIsDifference(lists: seq<seq<nat>>, m: nat, members: seq<nat>)
    requires Pref(lists, m, m) == 0
    ensures Net(lists, m, members) == RowWeight(lists, m, members) - Weight(lists, members, [m])
  {
    if members != [] {
      var o := members[|members| - 1];
      NetIsDifference(lists, m, members[..|members| - 1]);
      assert RowWeight(lists, o, [m]) == Pref(lists, o, m) by { assert [m][..0] == []; assert RowWeight(lists, o, [m][..0]) == 0; }
    }
  }

  /** The score by which a cluster is sorted: how often a list puts the command before another member, less
      how often after one. */
  lemma NetCounts(lists: seq<seq<nat>>, m: nat, members: seq<nat>)
    requires DupFree(lists) && |lists| < WRAP && Distinct(members)
    ensures Net(lists, m, members) == |Orders(lists, [m], members)| - |Orders(lists, members, [m])|
  {
    PrefCount(lists, m, m);
    forall l | 0 <= l < |lists| ensures !Precedes(lists[l], m, m) {}
    assert Preferring(lists, m, m) == {};
    NetIsDifference(lists, m, members);
    RowWeightCounts(lists, m, members);
    WeightCounts(lists, members, [m]);
  }

  /** A cluster comes before another by the dependencies exactly if its weight over that is more than 1.2
      times that one's over it. */
  lemma DependsExactly(lists: seq<seq<nat>>, clusters: seq<seq<nat>>, i: nat, j: nat)
    requires DupFree(lists) && |lists| < WRAP && i < |clusters| && j < |clusters|
    requires Distinct(clusters[i]) && Distinct(clusters[j])
    ensures Edge(DependencyGraph(lists, clusters), i, j) <==>
              i != j && |Orders(lists, clusters[i], clusters[j])| as real > 1.2 * |Orders(lists, clusters[j], clusters[i])| as real
  {
    WeightCounts(lists, clusters[i], clusters[j]);
    WeightCounts(lists, clusters[j], clusters[i]);
  }
}
