/** Where Themis' pruning departs from keeping what is solid: a solid transaction can be dropped and a
    removed one stay behind, on given lists; and exactly which solid transactions are kept for sure. */
module Pruning {
  import opened Graphs
  import opened Condensation
  import opened LocalOrders
  import opened Sequences
  import opened FairProposal
  import opened FairOrdering

  // ---------------------------------------------------------------- a solid transaction dropped

  /** How often a transaction is mentioned, one list after the other. */
  lemma MentionsMore(init: seq<seq<Tx>>, last: seq<Tx>, x: Tx)
    ensures Mentions(init + [last], x) == Mentions(init, x) + multiset(last)[x]
  {
    assert (init + [last])[..|init|] == init;
  }

  lemma VotesMore(init: seq<seq<Tx>>, last: seq<Tx>, a: Tx, b: Tx)
    ensures Votes(init + [last], a, b) == Votes(init, a, b) + Pairs(last, |last|, a, b)
  {
    assert (init + [last])[..|init|] == init;
  }

  /** Lists of one transaction each put nothing before anything. */
  lemma {:induction false} SinglesVotes(lists: seq<seq<Tx>>, a: Tx, b: Tx)
    requires forall i :: 0 <= i < |lists| ==> |lists[i]| == 1
    ensures Votes(lists, a, b) == 0
  {
    if lists != [] {
      var last := lists[|lists| - 1];
      SinglesVotes(lists[..|lists| - 1], a, b);
      assert last[1..] == [];
      assert Pairs(last, 0, a, b) == 0;
    }
  }

  /** Five replicas of which one may be faulty, heard from about two transactions in two and three lists. */
  ghost predicate TwoAgainstThree(lists: seq<seq<Tx>>, cfg: Config) {
    lists == [[0], [0], [1], [1], [1]] && cfg == Config(5, 4, 1.0)
  }

  lemma Thresholds(cfg: Config)
    requires cfg == Config(5, 4, 1.0)
    ensures cfg.Valid() && cfg.SolidThreshold() == 3.0 && cfg.EdgeThreshold() == 2.0 && cfg.NonBlankThreshold() == 2.0
  {
  }

  lemma TwoAgainstThreeCounts(lists: seq<seq<Tx>>, x: Tx)
    requires lists == [[0], [0], [1], [1], [1]]
    ensures Mentions(lists, x) == if x == 0 then 2 else if x == 1 then 3 else 0
  {
    var two: seq<seq<Tx>> := [[0], [0]];
    MentionsMore([], [0], x);
    MentionsMore([[0]], [0], x);
    assert [] + [[0]] == [[0]] && [[0]] + [[0]] == two;
    assert Mentions(two, x) == 2 * multiset([0])[x];
    var four := two + [[1]] + [[1]];
    MentionsMore(two, [1], x);
    MentionsMore(two + [[1]], [1], x);
    MentionsMore(four, [1], x);
    assert lists == four + [[1]];
  }

  lemma TwoAgainstThreeGraph(lists: seq<seq<Tx>>, cfg: Config, full: Graph)
    requires TwoAgainstThree(lists, cfg) && full == map[0 := {}, 1 := {}]
    ensures cfg.Valid() && IsProposalGraph(lists, cfg, full)
    ensures Solid(lists, cfg, 1) && (set x | x in full && Solid(lists, cfg, x)) == {1}
  {
    Thresholds(cfg);
    forall x ensures (NonBlank(lists, cfg, x) <==> x == 0 || x == 1) && (Solid(lists, cfg, x) <==> x == 1) {
      TwoAgainstThreeCounts(lists, x);
    }
    forall a, b ensures !Weighs(lists, cfg, a, b) { SinglesVotes(lists, a, b); }
  }

  lemma NoEdgesReach(g: Graph, u: Tx, w: Tx)
    requires u in g && forall x :: x in g ==> g[x] == {}
    ensures Mutual(g, u, w) <==> u == w
  {
    ReachRefl(g, u);
    if Reach(g, u, w) { ReachSplit(g, u, w); }
  }

  lemma TwoLoneParts(full: Graph, first: Tx, second: Tx)
    requires full == map[first := {}, second := {}] && first != second
    ensures IsCondensation(full, [[first], [second]])
  {
    forall u, w | u in full ensures Mutual(full, u, w) <==> u == w { NoEdgesReach(full, u, w); }
    var parts := [[first], [second]];
    assert parts[0] == [first] && parts[1] == [second];
  }

  /** The order of the components decides whether the solid transaction is proposed. */
  lemma SolidDropped(lists: seq<seq<Tx>>, cfg: Config, full: Graph)
    requires lists == [[0], [0], [1], [1], [1]] && cfg == Config(5, 4, 1.0) && full == map[0 := {}, 1 := {}]
    ensures ToleratedFaults(5, 1.0) == 1 && cfg.Valid() && Solid(lists, cfg, 1)
    ensures IsPruned(lists, cfg, full, [[0], [1]], 0, map[])
    ensures IsPruned(lists, cfg, full, [[1], [0]], 1, map[1 := {}])
  {
    TwoAgainstThreeGraph(lists, cfg, full);
    TwoLoneParts(full, 0, 1);
    TwoLoneParts(full, 1, 0);
    AllRemoved(full);
    OneRemoved(full);
    SolidFirst({1});
  }

  lemma SolidFirst(solid: set<Tx>)
    requires solid == {1}
    ensures IsCut([[0], [1]], solid, 0) && IsCut([[1], [0]], solid, 1)
  {
    var parts := [[1], [0]];
    assert 1 in parts[0] && parts[1] == [0];
  }

  lemma AllRemoved(full: Graph)
    requires full == map[0 := {}, 1 := {}]
    ensures Removed(full, Concat([[0], [1]][0..]), map[])
  {
    var parts: seq<seq<Tx>> := [[0], [1]];
    assert parts[0..] == parts;
    TwoParts(parts);
  }

  lemma OneRemoved(full: Graph)
    requires full == map[0 := {}, 1 := {}]
    ensures Removed(full, Concat([[1], [0]][1..]), map[1 := {}])
  {
    var parts: seq<seq<Tx>> := [[1], [0]];
    assert parts[1..] == [[0]] && parts[1..][..0] == [];
    assert Concat(parts[1..]) == [0];
  }

  // ---------------------------------------------------------------- a removed transaction that stays

  lemma PairVotes(a: Tx, b: Tx)
    ensures Pairs([0, 1], 2, a, b) == if a == 0 && b == 1 then 1 else 0
  {
    assert [0, 1][1..] == [1] && [0, 1][2..] == [];
    assert Pairs([0, 1], 0, a, b) == 0;
    assert Pairs([0, 1], 1, a, b) == if a == 0 then multiset([1])[b] else 0;
  }

  lemma TwoOfFourCounts(lists: seq<seq<Tx>>, x: Tx)
    requires lists == [[0, 1], [0, 1], [], []]
    ensures Mentions(lists, x) == if x <= 1 then 2 else 0
  {
    var pair: seq<Tx> := [0, 1];
    assert multiset(pair)[x] == if x <= 1 then 1 else 0;
    MentionsMore([], pair, x);
    MentionsMore([pair], pair, x);
    assert [] + [pair] == [pair];
    var two := [pair] + [pair];
    MentionsMore(two, [], x);
    MentionsMore(two + [[]], [], x);
    assert lists == two + [[]] + [[]];
  }

  lemma TwoOfFourVotes(lists: seq<seq<Tx>>, a: Tx, b: Tx)
    requires lists == [[0, 1], [0, 1], [], []]
    ensures Votes(lists, a, b) == if a == 0 && b == 1 then 2 else 0
  {
    var pair: seq<Tx> := [0, 1];
    PairVotes(a, b);
    VotesMore([], pair, a, b);
    VotesMore([pair], pair, a, b);
    assert [] + [pair] == [pair];
    var two := [pair] + [pair];
    VotesMore(two, [], a, b);
    VotesMore(two + [[]], [], a, b);
    assert lists == two + [[]] + [[]];
  }

  lemma TwoOfFourGraph(lists: seq<seq<Tx>>, cfg: Config, full: Graph)
    requires lists == [[0, 1], [0, 1], [], []] && cfg == Config(5, 4, 1.0) && full == map[0 := {1}, 1 := {}]
    ensures cfg.Valid() && IsProposalGraph(lists, cfg, full) && forall x :: !Solid(lists, cfg, x)
  {
    Thresholds(cfg);
    forall x ensures (NonBlank(lists, cfg, x) <==> x <= 1) && !Solid(lists, cfg, x) { TwoOfFourCounts(lists, x); }
    forall a, b ensures Weighs(lists, cfg, a, b) <==> a == 0 && b == 1 { TwoOfFourVotes(lists, a, b); }
  }

  lemma OneEdgeParts(full: Graph)
    requires full == map[0 := {1}, 1 := {}]
    ensures IsCondensation(full, [[0], [1]])
  {
    var parts: seq<seq<Tx>> := [[0], [1]];
    assert parts[0] == [0] && parts[1] == [1];
    forall u, w | u in full ensures Mutual(full, u, w) <==> u == w {
      ReachRefl(full, u);
      if Reach(full, 1, 0) { ReachSplit(full, 1, 0); }
      if Reach(full, u, w) { ClosedSet(full, {0, 1}, u, w); }
    }
  }

  lemma OneEdgeRemoved(full: Graph)
    requires full == map[0 := {1}, 1 := {}]
    ensures Removed(full, Concat([[0], [1]][0..]), map[0 := {}])
  {
    var parts: seq<seq<Tx>> := [[0], [1]];
    assert parts[0..] == parts;
    TwoParts(parts);
    var gone := Concat(parts);
    assert gone == [0, 1] && gone[0] == 0 && gone[1] == 1;
    assert ComesBack(full, gone, 0) && !ComesBack(full, gone, 1);
  }

  /** Nothing is solid and all is removed, yet the parent of a removed transaction stays as a vertex. */
  lemma RemovedStays(lists: seq<seq<Tx>>, cfg: Config, full: Graph)
    requires lists == [[0, 1], [0, 1], [], []] && cfg == Config(5, 4, 1.0) && full == map[0 := {1}, 1 := {}]
    ensures cfg.Valid() && !Solid(lists, cfg, 0) && !Solid(lists, cfg, 1)
    ensures IsPruned(lists, cfg, full, [[0], [1]], 0, map[0 := {}])
  {
    TwoOfFourGraph(lists, cfg, full);
    OneEdgeParts(full);
    OneEdgeRemoved(full);
    NothingSolid(set x | x in full && Solid(lists, cfg, x));
  }

  lemma NothingSolid(solid: set<Tx>)
    requires solid == {}
    ensures IsCut([[0], [1]], solid, 0)
  {
  }

  // ---------------------------------------------------------------- orders of the components

  lemma {:induction false} ListOf(s: set<Tx>) returns (list: seq<Tx>)
    ensures Distinct(list) && Elements(list) == s
    decreases |s|
  {
    if s == {} {
      list := [];
    } else {
      var x :| x in s;
      var init := ListOf(s - {x});
      assert x !in Elements(init);
      list := init + [x];
      assert Elements(list) == Elements(init) + {x};
    }
  }

  /** A component to which only components in `before` lead. */
  lemma {:induction false} FirstComponent(g: Graph, before: set<Tx>, x: Tx) returns (root: Tx)
    requires x in g && x !in before
    ensures root in g && root !in before && Reach(g, root, x)
    ensures forall y :: y in g && y !in before && Reach(g, y, root) ==> Reach(g, root, y)
    decreases |set y | y in g && Reach(g, y, x)|
  {
    ReachRefl(g, x);
    if y :| y in g && y !in before && Reach(g, y, x) && !Reach(g, x, y) {
      var all, above := set u | u in g && Reach(g, u, x), set u | u in g && Reach(g, u, y);
      forall u | u in above ensures u in all { ReachTrans(g, u, y, x); }
      StrictlyFewer(above, all, x);
      root := FirstComponent(g, before, y);
      ReachTrans(g, root, y, x);
    } else {
      root := x;
    }
  }

  /** The next component after those found, inside a set that contains all that leads to it. */
  lemma NextComponent(g: Graph, before: set<Tx>, parts: seq<seq<Tx>>, to: set<Tx>, x: Tx)
    returns (root: Tx, after: set<Tx>, longer: seq<seq<Tx>>)
    requires PartsSoFar(g, before, parts) && UpClosed(g, before) && UpClosed(g, to) && before <= to <= g.Keys
    requires x in to && x !in before
    ensures before <= after <= to && UpClosed(g, after) && root in after && root !in before
    ensures parts <= longer && PartsSoFar(g, after, longer)
  {
    root := FirstComponent(g, before, x);
    UpClosedReach(g, to, root, x);
    var found := set u | u in g && Mutual(g, u, root);
    ReachRefl(g, root);
    forall u | u in found ensures u in to && u !in before {
      UpClosedReach(g, to, u, root);
      if u in before { UpClosedReach(g, before, root, u); }
    }
    after := before + found;
    forall u, w | Edge(g, u, w) && w in after ensures u in after {
      if w in found {
        ReachEdge(g, u, w);
        ReachTrans(g, u, w, root);
      }
    }
    var part := ListOf(found);
    assert root in Elements(part);
    assert after - before == found;
    AddPart(g, before, parts, after, part);
    longer := parts + [part];
  }

  lemma {:induction false} ExtendParts(g: Graph, before: set<Tx>, parts: seq<seq<Tx>>, to: set<Tx>)
    returns (longer: seq<seq<Tx>>)
    requires PartsSoFar(g, before, parts) && UpClosed(g, before) && UpClosed(g, to) && before <= to <= g.Keys
    ensures parts <= longer && PartsSoFar(g, to, longer)
    decreases |to - before|
  {
    if before == to {
      longer := parts;
    } else {
      var x :| x in to && x !in before;
      var root, after, next := NextComponent(g, before, parts, to, x);
      StrictlyFewer(to - after, to - before, root);
      longer := ExtendParts(g, after, next, to);
    }
  }

  /** A condensation that lists everything that reaches `y` before anything else. */
  lemma UpwardFirst(g: Graph, y: Tx) returns (first: seq<seq<Tx>>, parts: seq<seq<Tx>>)
    requires y in g
    ensures PartsSoFar(g, (set u | u in g && Reach(g, u, y)), first)
    ensures first <= parts && IsCondensation(g, parts)
  {
    var above := set u | u in g && Reach(g, u, y);
    forall u, w | Edge(g, u, w) && w in above ensures u in above {
      ReachEdge(g, u, w);
      ReachTrans(g, u, w, y);
    }
    first := ExtendParts(g, {}, [], above);
    parts := ExtendParts(g, above, first, g.Keys);
    PartsComplete(g, g.Keys, parts);
  }

  lemma PlacedBefore(g: Graph, y: Tx, x: Tx, first: seq<seq<Tx>>, parts: seq<seq<Tx>>) returns (k: nat, i: nat)
    requires x in g && y in g && !Reach(g, x, y)
    requires PartsSoFar(g, (set u | u in g && Reach(g, u, y)), first) && first <= parts && IsCondensation(g, parts)
    ensures k < i < |parts| && y in parts[k] && x in parts[i]
  {
    var above := set u | u in g && Reach(g, u, y);
    ReachRefl(g, y);
    assert y in above;
    k :| 0 <= k < |first| && y in first[k];
    i :| 0 <= i < |parts| && x in parts[i];
    NotAmong(g, above, first, parts, x, i);
  }

  lemma NotAmong(g: Graph, above: set<Tx>, first: seq<seq<Tx>>, parts: seq<seq<Tx>>, x: Tx, i: nat)
    requires PartsSoFar(g, above, first) && first <= parts && i < |parts| && x in parts[i]
    ensures i < |first| ==> x in above
  {
    if i < |first| { assert PartOk(g, above, first[i]) && parts[i] == first[i]; }
  }

  lemma CutExists(parts: seq<seq<Tx>>, solid: set<Tx>) returns (cut: nat)
    ensures IsCut(parts, solid, cut)
  {
    cut := 0;
    while cut < |parts| && HasSolid(parts[cut], solid)
      invariant cut <= |parts| && forall i :: 0 <= i < cut ==> HasSolid(parts[i], solid)
    {
      cut := cut + 1;
    }
  }

  // ---------------------------------------------------------------- which solid transactions are kept

  /** The component of `y` holds a solid transaction. */
  ghost predicate SolidComponent(g: Graph, solid: set<Tx>, y: Tx) {
    exists z :: z in g && z in solid && Mutual(g, y, z)
  }

  lemma ReachAscends(g: Graph, parts: seq<seq<Tx>>, x: Tx, y: Tx, i: nat, j: nat)
    requires Closed(g) && IsCondensation(g, parts) && i < |parts| && j < |parts| && x in parts[i] && y in parts[j] && Reach(g, x, y)
    ensures i <= j
  {
    var later := set u | u in g && !Kept(parts, i, u);
    forall a, b | a in later && Edge(g, a, b) ensures b in later {
      if Kept(parts, i, b) { KeptUpwards(g, parts, i, a, b); }
    }
    ClosedSet(g, later, x, y);
    assert j < i ==> Kept(parts, i, y);
  }

  lemma KeptUpwards(g: Graph, parts: seq<seq<Tx>>, i: nat, a: Tx, b: Tx)
    requires IsCondensation(g, parts) && i <= |parts| && Edge(g, a, b) && Kept(parts, i, b)
    ensures Kept(parts, i, a)
  {
    var m :| 0 <= m < i && b in parts[m];
    var n :| 0 <= n < |parts| && a in parts[n];
  }

  lemma PartSolid(g: Graph, solid: set<Tx>, parts: seq<seq<Tx>>, k: nat, y: Tx)
    requires IsCondensation(g, parts) && k < |parts| && y in parts[k]
    ensures HasSolid(parts[k], solid) <==> SolidComponent(g, solid, y)
  {
    if HasSolid(parts[k], solid) {
      var z :| z in parts[k] && z in solid;
      assert z in g && Mutual(g, y, z);
    }
    if SolidComponent(g, solid, y) {
      var z :| z in g && z in solid && Mutual(g, y, z);
      assert z in parts[k];
    }
  }

  lemma SolidNotAtCut(parts: seq<seq<Tx>>, solid: set<Tx>, cut: nat, i: nat, x: Tx)
    requires IsCut(parts, solid, cut) && i < |parts| && x in parts[i] && x in solid
    ensures i != cut
  {
    assert HasSolid(parts[i], solid);
  }

  lemma KeptForSure(g: Graph, solid: set<Tx>, x: Tx, parts: seq<seq<Tx>>, cut: nat)
    requires Closed(g) && x in g && x in solid && IsCondensation(g, parts) && IsCut(parts, solid, cut)
    requires forall y :: y in g && !Reach(g, x, y) ==> SolidComponent(g, solid, y)
    ensures Kept(parts, cut, x)
  {
    var i :| 0 <= i < |parts| && x in parts[i];
    SolidNotAtCut(parts, solid, cut, i, x);
    if cut < i {
      var y := parts[cut][0];
      assert y in parts[cut];
      PartSolid(g, solid, parts, cut, y);
      ReachAscends(g, parts, x, y, i, cut);
    }
  }

  lemma DroppedInSomeOrder(g: Graph, solid: set<Tx>, x: Tx, y: Tx) returns (parts: seq<seq<Tx>>, cut: nat)
    requires Closed(g) && x in g && y in g && !Reach(g, x, y) && !SolidComponent(g, solid, y)
    ensures IsCondensation(g, parts) && IsCut(parts, solid, cut) && !Kept(parts, cut, x)
  {
    var first;
    first, parts := UpwardFirst(g, y);
    var k, i := PlacedBefore(g, y, x, first, parts);
    cut := CutExists(parts, solid);
    PartSolid(g, solid, parts, k, y);
  }

  /** A solid transaction survives the pruning whatever the order of the components exactly if every
      component that its own does not reach holds a solid transaction. */
  lemma SolidKeptExactly(g: Graph, solid: set<Tx>, x: Tx)
    requires Closed(g) && x in g && x in solid
    ensures (forall parts, cut :: IsCondensation(g, parts) && IsCut(parts, solid, cut) ==> Kept(parts, cut, x))
            <==> forall y :: y in g && !Reach(g, x, y) ==> SolidComponent(g, solid, y)
  {
    if forall y :: y in g && !Reach(g, x, y) ==> SolidComponent(g, solid, y) {
      forall parts, cut | IsCondensation(g, parts) && IsCut(parts, solid, cut) ensures Kept(parts, cut, x) {
        KeptForSure(g, solid, x, parts, cut);
      }
    } else {
      var y :| y in g && !Reach(g, x, y) && !SolidComponent(g, solid, y);
      var parts, cut := DroppedInSomeOrder(g, solid, x, y);
    }
  }
}
