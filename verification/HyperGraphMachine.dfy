/** `HyperGraph` as an object whose stages fill its fields in place, each proved to produce what the
    relations of module `FlashOrder` allow. */
module HyperGraphMachine {
  import opened Graphs
  import opened Sequences
  import opened LocalOrders
  import opened Sorting
  import T = TopologicalSort
  import opened FlashOrder
  import opened FlashOrderTheorems
  import opened FlashOrderCounts

  // ---------------------------------------------------------------- the flat matrix

  lemma {:induction false} TimesMonotone(x: nat, y: nat, n: nat)
    requires x <= y
    ensures x * n <= y * n
  {
    if x < y { TimesMonotone(x, y - 1, n); }
  }

  /** The place of row `a`, column `b` in a flat square matrix. */
  function Cell(n: nat, a: nat, b: nat): (c: nat)
    requires a < n && b < n
    ensures c < n * n
  {
    TimesMonotone(a + 1, n, n);
    a * n + b
  }

  lemma CellsDiffer(n: nat, a: nat, b: nat, c: nat, d: nat)
    requires a < n && b < n && c < n && d < n && (a != c || b != d)
    ensures Cell(n, a, b) != Cell(n, c, d)
  {
    if a < c { RowsAscend(n, a, b, c, d); }
    if c < a { RowsAscend(n, c, d, a, b); }
  }

  lemma RowsAscend(n: nat, a: nat, b: nat, c: nat, d: nat)
    requires a < c < n && b < n && d < n
    ensures Cell(n, a, b) < Cell(n, c, d)
  {
    TimesMonotone(a + 1, c, n);
    assert (a + 1) * n == a * n + n;
  }

  /** The matrix holds the counts of the lists `done` and of the first `from` places of `list`. */
  ghost predicate CountedIn(pref: seq<nat>, n: nat, done: seq<seq<nat>>, list: seq<nat>, from: nat)
    requires from <= |list|
  {
    && |pref| == n * n
    && forall a, b {:trigger Cell(n, a, b)} :: 0 <= a < n && 0 <= b < n ==>
         pref[Cell(n, a, b)] == (Votes(done, a, b) + Pairs(list, from, a, b)) % WRAP
  }

  ghost predicate Holds(pref: seq<nat>, n: nat, lists: seq<seq<nat>>) {
    && |pref| == n * n
    && forall a, b {:trigger Cell(n, a, b)} :: 0 <= a < n && 0 <= b < n ==> pref[Cell(n, a, b)] == Pref(lists, a, b)
  }

  ghost predicate AllBelow(s: seq<nat>, n: nat) {
    forall i :: 0 <= i < |s| ==> s[i] < n
  }

  // ---------------------------------------------------------------- lists considered

  /** `compute_preferences` sorts a list only if its timestamps are out of order, and then only if there
      is one for each command. */
  ghost predicate Considered(cmds: seq<Cmd>, timestamps: seq<nat>, order: seq<Cmd>) {
    if |cmds| == |timestamps| && !Ascending(timestamps)
    then exists timestamps' :: ByTime(cmds, timestamps, order, timestamps')
    else order == cmds
  }

  /** The order considered is always one by time, if each command has its timestamp, and the list as it is
      otherwise. */
  lemma ConsideredByTime(cmds: seq<Cmd>, timestamps: seq<nat>, order: seq<Cmd>)
    requires Considered(cmds, timestamps, order)
    ensures |order| == |cmds| && (Distinct(cmds) ==> Distinct(order))
    ensures if |cmds| != |timestamps| then order == cmds
            else exists times: seq<nat> ::
              |times| == |order| && Ascending(times)
              && forall c: Cmd, t: nat :: Stamped(order, times, c, t) <==> Stamped(cmds, timestamps, c, t)
  {
    if |cmds| == |timestamps| {
      if Ascending(timestamps) {
        assert forall c: Cmd, t: nat :: Stamped(order, timestamps, c, t) <==> Stamped(cmds, timestamps, c, t);
      } else {
        var times :| ByTime(cmds, timestamps, order, times);
        ByTimeKeeps(cmds, timestamps, order, times);
      }
    }
  }

  method IsAscending(s: seq<nat>) returns (ascending: bool)
    ensures ascending <==> Ascending(s)
  {
    var i := 1;
    while i < |s|
      invariant forall j, k :: 0 <= j < k < i && k < |s| ==> s[j] <= s[k]
    {
      if s[i] < s[i - 1] { return false; }
      i := i + 1;
    }
    return true;
  }

  datatype HyperEdge = HyperEdge(members: seq<nat>, internalOrder: seq<nat>)

  class HyperGraph {
    const maxCmds: nat
    const canonicalPos: array<int>
    var pref: seq<nat>
    var hyperedges: seq<HyperEdge>
    var heAdj: seq<seq<nat>>
    var heIndeg: seq<nat>
    var cmdToId: map<Cmd, nat>
    var idToCmd: seq<Cmd>
    var nTxns: nat
    var threshold: int

    constructor (maxCmds: nat)
      ensures this.maxCmds == maxCmds && canonicalPos.Length == maxCmds && fresh(canonicalPos) && nTxns == 0
    {
      this.maxCmds := maxCmds;
      canonicalPos := new int[maxCmds];
      pref, hyperedges, heAdj, heIndeg, cmdToId, idToCmd, nTxns, threshold := [], [], [], [], map[], [], 0, 1;
    }

    // ---- compute_preferences

    method SortLists(lists: seq<OrderedList>)
      requires Distinct(lists)
      modifies set list | list in lists
      ensures forall i :: 0 <= i < |lists| ==> Considered(old(lists[i].cmds), old(lists[i].timestamps), lists[i].cmds)
    {
      for r := 0 to |lists|
        invariant forall i :: 0 <= i < r ==> Considered(old(lists[i].cmds), old(lists[i].timestamps), lists[i].cmds)
        invariant forall i :: r <= i < |lists| ==> lists[i].cmds == old(lists[i].cmds) && lists[i].timestamps == old(lists[i].timestamps)
      {
        var ascending := IsAscending(lists[r].timestamps);
        if |lists[r].timestamps| >= 2 && !ascending {
          lists[r].SortCmds();
        }
      }
    }

    /** The identifiers given out for the commands seen. */
    ghost predicate IdsFor(seen: seq<Cmd>)
      reads this
    {
      idToCmd == FirstDistinct(seen, maxCmds) && cmdToId == Index(idToCmd) && nTxns == |idToCmd|
    }

    method AssignIds(orders: seq<seq<Cmd>>)
      modifies this`cmdToId, this`idToCmd, this`nTxns
      ensures IdsFor(Concat(orders))
    {
      cmdToId, idToCmd, nTxns := map[], [], 0;
      for r := 0 to |orders|
        invariant IdsFor(Concat(orders[..r]))
      {
        assert orders[..r + 1][..r] == orders[..r];
        AssignFrom(orders[r], Concat(orders[..r]));
      }
      assert orders[..|orders|] == orders;
    }

    method AssignFrom(list: seq<Cmd>, ghost before: seq<Cmd>)
      requires IdsFor(before)
      modifies this`cmdToId, this`idToCmd, this`nTxns
      ensures IdsFor(before + list)
    {
      assert before + list[..0] == before;
      for i := 0 to |list|
        invariant IdsFor(before + list[..i])
      {
        ghost var seen := before + list[..i];
        assert before + list[..i + 1] == seen + [list[i]];
        var full := AssignOne(list[i], seen);
        if full {
          FullStays(seen, list[i..], maxCmds);
          assert seen + list[i..] == before + list;
          break;
        }
      }
      assert before + list[..|list|] == before + list;
    }

    method AssignOne(cmd: Cmd, ghost seen: seq<Cmd>) returns (full: bool)
      requires IdsFor(seen)
      modifies this`cmdToId, this`idToCmd, this`nTxns
      ensures full ==> nTxns >= maxCmds && IdsFor(seen)
      ensures !full ==> IdsFor(seen + [cmd])
    {
      full := false;
      FirstDistinctFacts(seen, maxCmds);
      FirstDistinctStep(seen, cmd, maxCmds);
      IndexMeaning(idToCmd, cmd);
      if cmd !in cmdToId {
        if nTxns >= maxCmds { return true; }
        IndexAppend(idToCmd, cmd);
        cmdToId := cmdToId[cmd := nTxns];
        idToCmd := idToCmd + [cmd];
        nTxns := nTxns + 1;
      }
    }

    method MapIds(orders: seq<seq<Cmd>>) returns (mapped: seq<seq<nat>>)
      ensures mapped == MapAll(orders, cmdToId)
    {
      mapped := [];
      for r := 0 to |orders|
        invariant |mapped| == r && forall i :: 0 <= i < r ==> mapped[i] == Mapped(orders[i], cmdToId)
      {
        var ids := MapList(orders[r]);
        mapped := mapped + [ids];
      }
    }

    method MapList(list: seq<Cmd>) returns (ids: seq<nat>)
      ensures ids == Mapped(list, cmdToId)
    {
      ids := [];
      for i := 0 to |list|
        invariant ids == Mapped(list[..i], cmdToId)
      {
        assert list[..i + 1][..i] == list[..i];
        if list[i] in cmdToId { ids := ids + [cmdToId[list[i]]]; }
      }
      assert list[..|list|] == list;
    }

    method CountPreferences(mapped: seq<seq<nat>>)
      requires forall r :: 0 <= r < |mapped| ==> AllBelow(mapped[r], nTxns)
      modifies this`pref
      ensures Holds(pref, nTxns, mapped)
    {
      TimesMonotone(0, nTxns, nTxns);
      pref := seq(nTxns * nTxns, i => 0);
      for r := 0 to |mapped|
        invariant CountedIn(pref, nTxns, mapped[..r], [], 0)
      {
        assert mapped[..r + 1][..r] == mapped[..r];
        CountList(mapped[r], mapped[..r]);
      }
      assert mapped[..|mapped|] == mapped;
    }

    method CountList(list: seq<nat>, ghost done: seq<seq<nat>>)
      requires AllBelow(list, nTxns) && CountedIn(pref, nTxns, done, [], 0)
      modifies this`pref
      ensures CountedIn(pref, nTxns, done, list, |list|)
    {
      for i := 0 to |list|
        invariant CountedIn(pref, nTxns, done, list, i)
      {
        CountFrom(list, i, done);
      }
    }

    /** The counts of one row: what follows place `from` of the list. */
    method CountFrom(list: seq<nat>, from: nat, ghost done: seq<seq<nat>>)
      requires from < |list| && AllBelow(list, nTxns) && CountedIn(pref, nTxns, done, list, from)
      modifies this`pref
      ensures CountedIn(pref, nTxns, done, list, from + 1)
    {
      var row := list[from];
      ghost var was := pref;
      var next := from + 1;
      RowStarts(was, nTxns, done, list, from, next);
      for j := next to |list|
        invariant RowCounted(pref, was, nTxns, list, from, j)
      {
        var cell := Cell(nTxns, row, list[j]);
        RowAdvances(pref, was, nTxns, list, from, j, cell);
        pref := pref[cell := (pref[cell] + 1) % WRAP];
      }
      RowFinished(pref, was, nTxns, done, list, from);
    }

    /** The commands of the lists, as `compute_preferences` finds them after sorting. */
    function CmdsOf(lists: seq<OrderedList>): (orders: seq<seq<Cmd>>)
      reads set list | list in lists
      ensures |orders| == |lists| && forall i :: 0 <= i < |lists| ==> orders[i] == lists[i].cmds
    {
      if lists == [] then [] else CmdsOf(lists[..|lists| - 1]) + [lists[|lists| - 1].cmds]
    }

    method ComputePreferences(lists: seq<OrderedList>) returns (ghost orders: seq<seq<Cmd>>)
      requires Distinct(lists)
      modifies this`pref, this`cmdToId, this`idToCmd, this`nTxns, set list | list in lists
      ensures |orders| == |lists|
      ensures forall i :: 0 <= i < |lists| ==> Considered(old(lists[i].cmds), old(lists[i].timestamps), orders[i])
      ensures idToCmd == FirstDistinct(Concat(orders), maxCmds) && nTxns == |idToCmd| <= maxCmds
      ensures nTxns > 0 ==> Holds(pref, nTxns, MapAll(orders, Index(idToCmd)))
    {
      SortLists(lists);
      var cmds := CmdsOf(lists);
      orders := cmds;
      AssignIds(cmds);
      FirstDistinctFacts(Concat(cmds), maxCmds);
      if nTxns == 0 { return; }
      var mapped := MapIds(cmds);
      forall r | 0 <= r < |mapped| ensures AllBelow(mapped[r], nTxns) { MappedBelow(cmds[r], idToCmd); }
      CountPreferences(mapped);
    }

    // ---- compute_canonical_positions

    method ComputeCanonicalPositions(ghost lists: seq<seq<nat>>)
      requires nTxns <= canonicalPos.Length && Holds(pref, nTxns, lists)
      modifies canonicalPos
      ensures canonicalPos[..nTxns] == Positions(lists, nTxns, threshold)
      ensures forall x :: nTxns <= x < canonicalPos.Length ==> canonicalPos[x] == 0
    {
      forall x | 0 <= x < canonicalPos.Length { canonicalPos[x] := 0; }
      for other := 0 to nTxns
        invariant forall x :: 0 <= x < nTxns ==> canonicalPos[x] == Position(lists, other, threshold, x)
        invariant forall x :: nTxns <= x < canonicalPos.Length ==> canonicalPos[x] == 0
      {
        for tx := 0 to nTxns
          invariant forall x :: 0 <= x < tx ==> canonicalPos[x] == Position(lists, other + 1, threshold, x)
          invariant forall x :: tx <= x < nTxns ==> canonicalPos[x] == Position(lists, other, threshold, x)
          invariant forall x :: nTxns <= x < canonicalPos.Length ==> canonicalPos[x] == 0
        {
          PositionStep(lists, other, threshold, tx);
          if other != tx && pref[Cell(nTxns, other, tx)] >= threshold {
            canonicalPos[tx] := canonicalPos[tx] + 1;
          }
        }
      }
    }

    // ---- detect_clusters_refined

    /** `delta` comes from `compute_delta`, of which only `delta >= 1` matters. */
    method DetectClusters(delta: int) returns (ghost sid: seq<nat>)
      requires nTxns <= canonicalPos.Length
      modifies this`hyperedges
      ensures IsSorting(Iota(nTxns), At(canonicalPos[..nTxns]), sid)
      ensures IsClustering(sid, At(canonicalPos[..nTxns]), delta, MembersOf(hyperedges))
    {
      var ids := SortBy(Iota(nTxns), At(canonicalPos[..nTxns]));
      sid := ids;
      SortingLength(Iota(nTxns), At(canonicalPos[..nTxns]), ids);
      forall i | 0 <= i < nTxns ensures ids[i] < nTxns { assert ids[i] in ids; }
      CutAtGaps(ids, delta);
    }

    method CutAtGaps(ids: seq<nat>, delta: int)
      requires nTxns <= canonicalPos.Length && |ids| == nTxns && AllBelow(ids, nTxns)
      modifies this`hyperedges
      ensures IsClustering(ids, At(canonicalPos[..nTxns]), delta, MembersOf(hyperedges))
    {
      hyperedges := [];
      if nTxns == 0 { return; }
      var curr: seq<nat> := [ids[0]];
      ghost var pos := At(canonicalPos[..nTxns]);
      StartClustering(ids, pos, delta);
      for i := 1 to nTxns
        invariant IsClustering(ids[..i], pos, delta, MembersOf(hyperedges) + [curr])
      {
        curr := Place(ids, i, delta, curr);
      }
      assert ids[..nTxns] == ids;
      MembersAppend(hyperedges, HyperEdge(curr, []));
      hyperedges := hyperedges + [HyperEdge(curr, [])];
    }

    /** The body of the loop: extends the current cluster or starts a new one. */
    method Place(ids: seq<nat>, i: nat, delta: int, curr: seq<nat>) returns (curr': seq<nat>)
      requires nTxns <= canonicalPos.Length && 0 < i < |ids| == nTxns && AllBelow(ids, nTxns)
      requires IsClustering(ids[..i], At(canonicalPos[..nTxns]), delta, MembersOf(hyperedges) + [curr])
      modifies this`hyperedges
      ensures IsClustering(ids[..i + 1], At(canonicalPos[..nTxns]), delta, MembersOf(hyperedges) + [curr'])
    {
      NextInOrder(ids, i, At(canonicalPos[..nTxns]), delta, MembersOf(hyperedges), curr);
      if canonicalPos[ids[i]] - canonicalPos[ids[i - 1]] < delta {
        curr' := curr + [ids[i]];
      } else {
        MembersAppend(hyperedges, HyperEdge(curr, []));
        hyperedges := hyperedges + [HyperEdge(curr, [])];
        curr' := [ids[i]];
      }
    }

    // ---- build_hypergraph

    method NetScore(m: nat, members: seq<nat>, ghost lists: seq<seq<nat>>) returns (net: int)
      requires Holds(pref, nTxns, lists) && AllBelow(members, nTxns) && m < nTxns
      ensures net == Net(lists, m, members)
    {
      net := 0;
      for k := 0 to |members|
        invariant net == Net(lists, m, members[..k])
      {
        assert members[..k + 1][..k] == members[..k];
        var o := members[k];
        if m != o {
          var there: int, back: int := pref[Cell(nTxns, m, o)], pref[Cell(nTxns, o, m)];
          net := net + (there - back);
        }
      }
      assert members[..|members|] == members;
    }

    method OrderMembers(members: seq<nat>, ghost lists: seq<seq<nat>>) returns (order: seq<nat>)
      requires Holds(pref, nTxns, lists) && AllBelow(members, nTxns)
      ensures IsSorting(members, ByNet(lists, members), order)
    {
      if |members| <= 1 {
        order := members;
        return;
      }
      var nets: map<nat, int> := map[];
      for k := 0 to |members|
        invariant forall i :: 0 <= i < k ==> members[i] in nets
        invariant forall m :: m in nets ==> nets[m] == Net(lists, m, members)
      {
        var net := NetScore(members[k], members, lists);
        nets := nets[members[k] := net];
      }
      var key: Key := m => if m in nets then -nets[m] else 0;
      order := SortBy(members, key);
      SameKeys(members, key, ByNet(lists, members), order);
    }

    method OrderInside(ghost lists: seq<seq<nat>>)
      requires Holds(pref, nTxns, lists) && forall i :: 0 <= i < |hyperedges| ==> AllBelow(hyperedges[i].members, nTxns)
      modifies this`hyperedges
      ensures MembersOf(hyperedges) == MembersOf(old(hyperedges))
      ensures forall i :: 0 <= i < |hyperedges| ==>
                IsSorting(hyperedges[i].members, ByNet(lists, hyperedges[i].members), hyperedges[i].internalOrder)
    {
      for i := 0 to |hyperedges|
        invariant |hyperedges| == |old(hyperedges)|
        invariant forall k :: 0 <= k < |hyperedges| ==> hyperedges[k].members == old(hyperedges)[k].members
        invariant forall k :: 0 <= k < i ==>
                    IsSorting(hyperedges[k].members, ByNet(lists, hyperedges[k].members), hyperedges[k].internalOrder)
      {
        var he := hyperedges[i];
        var order := OrderMembers(he.members, lists);
        hyperedges := hyperedges[i := HyperEdge(he.members, order)];
      }
    }

    method Weights(xs: seq<nat>, ys: seq<nat>, ghost lists: seq<seq<nat>>) returns (there: nat, back: nat)
      requires Holds(pref, nTxns, lists) && AllBelow(xs, nTxns) && AllBelow(ys, nTxns)
      ensures there == Weight(lists, xs, ys) && back == Weight(lists, ys, xs)
    {
      there, back := 0, 0;
      WeightOfNone(lists, ys);
      for i := 0 to |xs|
        invariant there == Weight(lists, xs[..i], ys) && back == Weight(lists, ys, xs[..i])
      {
        assert xs[..i + 1][..i] == xs[..i] && xs[..i + 1] == xs[..i] + [xs[i]];
        ghost var there0, back0 := there, back;
        for j := 0 to |ys|
          invariant there == there0 + RowWeight(lists, xs[i], ys[..j]) && back == back0 + ColumnWeight(lists, ys[..j], xs[i])
        {
          assert ys[..j + 1][..j] == ys[..j];
          there := there + pref[Cell(nTxns, xs[i], ys[j])];
          back := back + pref[Cell(nTxns, ys[j], xs[i])];
        }
        assert ys[..|ys|] == ys;
        WeightColumn(lists, ys, xs[..i], xs[i]);
      }
      assert xs[..|xs|] == xs;
    }

    /** The dependency, if any, between the clusters `i` and `j`. */
    method LinkPair(i: nat, j: nat, ghost lists: seq<seq<nat>>, ghost g: Graph) returns (ghost g': Graph)
      requires Holds(pref, nTxns, lists) && (forall k :: 0 <= k < |hyperedges| ==> AllBelow(hyperedges[k].members, nTxns))
      requires i < j < |hyperedges| == |heAdj|
      requires T.Represents(heAdj, heIndeg, g) && LinkedUpTo(lists, MembersOf(hyperedges), g, i, j)
      modifies this`heAdj, this`heIndeg
      ensures |heAdj| == |hyperedges|
      ensures T.Represents(heAdj, heIndeg, g') && LinkedUpTo(lists, MembersOf(hyperedges), g', i, j + 1)
    {
      ghost var clusters := MembersOf(hyperedges);
      var sIJ, sJI := Weights(hyperedges[i].members, hyperedges[j].members, lists);
      NotYetLinked(lists, clusters, g, i, j);
      g' := g;
      if Beats(sIJ, sJI) {
        EdgeRepresented(heAdj, heIndeg, g, i, j);
        heAdj, heIndeg := heAdj[i := heAdj[i] + [j]], heIndeg[j := heIndeg[j] + 1];
        g' := WithEdge(g, i, j);
      } else if Beats(sJI, sIJ) {
        EdgeRepresented(heAdj, heIndeg, g, j, i);
        heAdj, heIndeg := heAdj[j := heAdj[j] + [i]], heIndeg[i := heIndeg[i] + 1];
        g' := WithEdge(g, j, i);
      }
      LinkStep(lists, clusters, g, i, j, g');
    }

    /** The dependencies between a cluster and the later ones. */
    method LinkRow(i: nat, ghost lists: seq<seq<nat>>, ghost g: Graph) returns (ghost g': Graph)
      requires Holds(pref, nTxns, lists) && (forall k :: 0 <= k < |hyperedges| ==> AllBelow(hyperedges[k].members, nTxns))
      requires i < |hyperedges| == |heAdj| && T.Represents(heAdj, heIndeg, g)
      requires LinkedUpTo(lists, MembersOf(hyperedges), g, i, i + 1)
      modifies this`heAdj, this`heIndeg
      ensures |heAdj| == |hyperedges| && T.Represents(heAdj, heIndeg, g')
      ensures LinkedUpTo(lists, MembersOf(hyperedges), g', i + 1, i + 2)
    {
      ghost var clusters := MembersOf(hyperedges);
      g' := g;
      for j := i + 1 to |hyperedges|
        invariant |heAdj| == |hyperedges|
        invariant T.Represents(heAdj, heIndeg, g') && LinkedUpTo(lists, clusters, g', i, j)
      {
        g' := LinkPair(i, j, lists, g');
      }
      NextRow(lists, clusters, g', i);
    }

    method LinkClusters(ghost lists: seq<seq<nat>>)
      requires Holds(pref, nTxns, lists) && (forall k :: 0 <= k < |hyperedges| ==> AllBelow(hyperedges[k].members, nTxns))
      modifies this`heAdj, this`heIndeg
      ensures T.Represents(heAdj, heIndeg, DependencyGraph(lists, MembersOf(hyperedges)))
    {
      var H := |hyperedges|;
      heAdj, heIndeg := seq(H, i => []), seq(H, i => 0);
      ghost var clusters := MembersOf(hyperedges);
      ghost var g := Edgeless(H);
      NoEdgesRepresented(heAdj, heIndeg, g);
      NothingLinked(lists, clusters, g);
      if H <= 1 {
        AllLinked(lists, clusters, g, 0);
        return;
      }
      for i := 0 to H
        invariant |heAdj| == H
        invariant T.Represents(heAdj, heIndeg, g) && LinkedUpTo(lists, clusters, g, i, i + 1)
      {
        g := LinkRow(i, lists, g);
      }
      AllLinked(lists, clusters, g, H);
    }

    // ---- finalize

    method Emit(order: seq<nat>) returns (result: seq<Cmd>)
      requires forall k :: 0 <= k < |order| ==> order[k] < |hyperedges|
      requires forall k :: 0 <= k < |hyperedges| ==> AllBelow(hyperedges[k].internalOrder, |idToCmd|)
      ensures Within(order, |InnerOf(hyperedges)|)
      ensures var out := Concat(Select(InnerOf(hyperedges), order)); Within(out, |idToCmd|) && result == Commands(idToCmd, out)
    {
      result := [];
      ghost var out: seq<nat> := [];
      for k := 0 to |order|
        invariant Within(order[..k], |hyperedges|) && out == Concat(Select(InnerOf(hyperedges), order[..k]))
        invariant Within(out, |idToCmd|) && result == Commands(idToCmd, out)
      {
        SelectStep(InnerOf(hyperedges), order, k);
        result := EmitCluster(hyperedges[order[k]].internalOrder, result, out);
        out := out + hyperedges[order[k]].internalOrder;
      }
      assert order[..|order|] == order;
    }

    method EmitCluster(inner: seq<nat>, before: seq<Cmd>, ghost out: seq<nat>) returns (result: seq<Cmd>)
      requires AllBelow(inner, |idToCmd|) && Within(out, |idToCmd|) && before == Commands(idToCmd, out)
      ensures Within(out + inner, |idToCmd|) && result == Commands(idToCmd, out + inner)
    {
      result := before;
      assert out + inner[..0] == out;
      for m := 0 to |inner|
        invariant Within(out + inner[..m], |idToCmd|) && result == Commands(idToCmd, out + inner[..m])
      {
        assert out + inner[..m + 1] == out + inner[..m] + [inner[m]];
        result := result + [idToCmd[inner[m]]];
      }
      assert inner[..|inner|] == inner;
    }

    /** Clusters, sorted inside, and their dependencies. */
    method BuildStages(delta: int, ghost lists: seq<seq<nat>>) returns (ghost sid: seq<nat>)
      requires nTxns <= canonicalPos.Length && Holds(pref, nTxns, lists)
      modifies this`hyperedges, this`heAdj, this`heIndeg, canonicalPos
      ensures IsSorting(Iota(nTxns), At(Positions(lists, nTxns, threshold)), sid)
      ensures IsClustering(sid, At(Positions(lists, nTxns, threshold)), delta, MembersOf(hyperedges))
      ensures forall i :: 0 <= i < |hyperedges| ==>
                && AllBelow(hyperedges[i].internalOrder, nTxns)
                && IsSorting(hyperedges[i].members, ByNet(lists, hyperedges[i].members), hyperedges[i].internalOrder)
      ensures T.Represents(heAdj, heIndeg, DependencyGraph(lists, MembersOf(hyperedges)))
    {
      ComputeCanonicalPositions(lists);
      sid := DetectClusters(delta);
      ghost var clusters := MembersOf(hyperedges);
      ClustersBelow(nTxns, At(canonicalPos[..nTxns]), sid, delta, clusters);
      forall i | 0 <= i < |hyperedges| ensures AllBelow(hyperedges[i].members, nTxns) {
        assert AllBelow(clusters[i], nTxns);
      }
      OrderInside(lists);
      forall i | 0 <= i < |hyperedges| ensures AllBelow(hyperedges[i].members, nTxns) && AllBelow(hyperedges[i].internalOrder, nTxns) {
        assert hyperedges[i].members == clusters[i];
        InnerBelow(lists, nTxns, clusters[i], hyperedges[i].internalOrder);
      }
      LinkClusters(lists);
    }

    /** The stages after the preferences, for two or more commands. */
    method RunStages(delta: int, ghost lists: seq<seq<nat>>) returns (result: seq<Cmd>, ghost st: Stages)
      requires nTxns <= canonicalPos.Length && nTxns == |idToCmd| && Holds(pref, nTxns, lists)
      modifies this`hyperedges, this`heAdj, this`heIndeg, canonicalPos
      ensures AreStages(lists, nTxns, threshold, delta, st) && Emits(idToCmd, st, result)
    {
      ghost var sid := BuildStages(delta, lists);
      var order: seq<nat> := T.Sort(heAdj, heIndeg, DependencyGraph(lists, MembersOf(hyperedges)));
      ghost var g := DependencyGraph(lists, MembersOf(hyperedges));
      ghost var sorted, rest :| order == sorted + rest && T.IsTopologicalSort(g, sorted, rest) && T.InTurn(g, sorted);
      st := Stages(sid, MembersOf(hyperedges), InnerOf(hyperedges), sorted, rest);
      OrderOfClusters(lists, nTxns, threshold, delta, st);
      forall k | 0 <= k < |order| ensures order[k] < |hyperedges| { assert order[k] in order; }
      result := Emit(order);
    }

    /** The result is one that the stages allow for the lists as they are after sorting by time. */
    method Finalize(lists: seq<OrderedList>, nFaulty: int, nNodes: int, gamma: real, delta: int)
      returns (result: seq<Cmd>, ghost orders: seq<seq<Cmd>>)
      requires Distinct(lists) && canonicalPos.Length == maxCmds
      modifies this, canonicalPos, set list | list in lists
      ensures |orders| == |lists|
      ensures forall i :: 0 <= i < |lists| ==> Considered(old(lists[i].cmds), old(lists[i].timestamps), orders[i])
      ensures IsOutcome(orders, maxCmds, threshold, delta, result) && threshold == Threshold(nFaulty, nNodes, gamma) >= 1
      ensures var bound := (if nNodes < 1 then 1 else nNodes) as real * (1.0 - gamma) + nFaulty as real;
              && (gamma <= 1.0 ==> threshold as real > bound && (threshold == 1 || (threshold - 1) as real <= bound))
              && (gamma > 1.0 ==> threshold as real >= bound + 1.0 && (threshold == 1 || (threshold - 1) as real < bound + 1.0))
    {
      threshold := Threshold(nFaulty, nNodes, gamma);
      ThresholdExactly(nFaulty, nNodes, gamma);
      orders := ComputePreferences(lists);
      if nTxns == 0 {
        return [], orders;
      }
      if nTxns == 1 {
        return [idToCmd[0]], orders;
      }
      ghost var st;
      result, st := RunStages(delta, MapAll(orders, Index(idToCmd)));
      assert IsOutcomeOf(orders, idToCmd, threshold, delta, st, result);
    }
  }

  // ---------------------------------------------------------------- clusters

  ghost function MembersOf(edges: seq<HyperEdge>): (r: seq<seq<nat>>)
    ensures |r| == |edges| && forall i :: 0 <= i < |edges| ==> r[i] == edges[i].members
  {
    seq(|edges|, i requires 0 <= i < |edges| => edges[i].members)
  }

  ghost function InnerOf(edges: seq<HyperEdge>): (r: seq<seq<nat>>)
    ensures |r| == |edges| && forall i :: 0 <= i < |edges| ==> r[i] == edges[i].internalOrder
  {
    seq(|edges|, i requires 0 <= i < |edges| => edges[i].internalOrder)
  }

  lemma MembersAppend(edges: seq<HyperEdge>, e: HyperEdge)
    ensures MembersOf(edges + [e]) == MembersOf(edges) + [e.members]
  {
  }

  lemma StartClustering(ids: seq<nat>, pos: Key, delta: int)
    requires ids != []
    ensures IsClustering(ids[..1], pos, delta, MembersOf([]) + [[ids[0]]])
  {
    ConcatAppend([], [ids[0]]);
    assert ids[..1] == [ids[0]] && MembersOf([]) + [[ids[0]]] == [[ids[0]]];
  }

  lemma ConcatAppend(parts: seq<seq<nat>>, part: seq<nat>)
    ensures Concat(parts + [part]) == Concat(parts) + part
  {
    assert (parts + [part])[..|parts|] == parts;
  }

  lemma LastOfCluster(s: seq<nat>, pos: Key, delta: int, done: seq<seq<nat>>, curr: seq<nat>)
    requires IsClustering(s, pos, delta, done + [curr])
    ensures curr != [] && s != [] && s[|s| - 1] == curr[|curr| - 1]
  {
    assert (done + [curr])[|done|] == curr;
    ConcatAppend(done, curr);
  }

  lemma NextInOrder(ids: seq<nat>, i: nat, pos: Key, delta: int, done: seq<seq<nat>>, curr: seq<nat>)
    requires 0 < i < |ids| && IsClustering(ids[..i], pos, delta, done + [curr])
    ensures pos(ids[i]) - pos(ids[i - 1]) < delta ==> IsClustering(ids[..i + 1], pos, delta, done + [curr + [ids[i]]])
    ensures pos(ids[i]) - pos(ids[i - 1]) >= delta ==> IsClustering(ids[..i + 1], pos, delta, done + [curr] + [[ids[i]]])
  {
    assert ids[..i + 1] == ids[..i] + [ids[i]];
    LastOfCluster(ids[..i], pos, delta, done, curr);
    if pos(ids[i]) - pos(ids[i - 1]) < delta {
      ExtendCluster(ids[..i], pos, delta, done, curr, ids[i]);
    } else {
      NewCluster(ids[..i], pos, delta, done, curr, ids[i]);
    }
  }

  lemma ExtendCluster(s: seq<nat>, pos: Key, delta: int, done: seq<seq<nat>>, curr: seq<nat>, x: nat)
    requires IsClustering(s, pos, delta, done + [curr]) && curr != [] && pos(x) - pos(curr[|curr| - 1]) < delta
    ensures IsClustering(s + [x], pos, delta, done + [curr + [x]])
  {
    var before, after := done + [curr], done + [curr + [x]];
    assert before[|done|] == curr;
    ConcatAppend(done, curr);
    ConcatAppend(done, curr + [x]);
    assert Concat(after) == s + [x];
    forall i | 0 <= i < |after| ensures |after[i]| > 0 && Dense(after[i], pos, delta) {
      assert |before[i]| > 0 && Dense(before[i], pos, delta);
    }
    forall i | 0 < i < |after| ensures Gap(after[i - 1], after[i], pos, delta) {
      assert Gap(before[i - 1], before[i], pos, delta);
    }
  }

  lemma NewCluster(s: seq<nat>, pos: Key, delta: int, done: seq<seq<nat>>, curr: seq<nat>, x: nat)
    requires IsClustering(s, pos, delta, done + [curr]) && curr != [] && pos(x) - pos(curr[|curr| - 1]) >= delta
    ensures IsClustering(s + [x], pos, delta, done + [curr] + [[x]])
  {
    var before, after := done + [curr], done + [curr] + [[x]];
    ConcatAppend(before, [x]);
    forall i | 0 <= i < |after| ensures |after[i]| > 0 && Dense(after[i], pos, delta) {
      if i < |before| { assert |before[i]| > 0 && Dense(before[i], pos, delta); }
    }
    forall i | 0 < i < |after| ensures Gap(after[i - 1], after[i], pos, delta) {
      if i < |before| { assert Gap(before[i - 1], before[i], pos, delta); }
    }
  }

  lemma ClustersBelow(n: nat, pos: Key, sid: seq<nat>, delta: int, clusters: seq<seq<nat>>)
    requires IsSorting(Iota(n), pos, sid) && IsClustering(sid, pos, delta, clusters)
    ensures forall i :: 0 <= i < |clusters| ==> AllBelow(clusters[i], n)
  {
    SortingLength(Iota(n), pos, sid);
    IotaMembers(n);
    forall i, k | 0 <= i < |clusters| && 0 <= k < |clusters[i]| ensures clusters[i][k] < n {
      ConcatMembers(clusters, clusters[i][k]);
      assert clusters[i][k] in clusters[i];
    }
  }

  lemma InnerBelow(lists: seq<seq<nat>>, n: nat, cluster: seq<nat>, inner: seq<nat>)
    requires AllBelow(cluster, n) && IsSorting(cluster, ByNet(lists, cluster), inner)
    ensures AllBelow(inner, n)
  {
    SortingLength(cluster, ByNet(lists, cluster), inner);
    forall k | 0 <= k < |inner| ensures inner[k] < n { assert inner[k] in inner; }
  }

  lemma SelectStep(parts: seq<seq<nat>>, order: seq<nat>, k: nat)
    requires k < |order| && forall i :: 0 <= i < |order| ==> order[i] < |parts|
    ensures Within(order[..k], |parts|) && Within(order[..k + 1], |parts|)
    ensures Concat(Select(parts, order[..k + 1])) == Concat(Select(parts, order[..k])) + parts[order[k]]
  {
    assert Select(parts, order[..k + 1])[..k] == Select(parts, order[..k]);
  }

  lemma SameKeys(items: seq<nat>, key: Key, other: Key, out: seq<nat>)
    requires IsSorting(items, key, out) && forall x :: x in items ==> key(x) == other(x)
    ensures IsSorting(items, other, out)
  {
    SortingLength(items, key, out);
    forall i | 0 <= i < |out| ensures key(out[i]) == other(out[i]) { assert out[i] in out; }
  }

  // ---------------------------------------------------------------- weights between clusters

  ghost function ColumnWeight(lists: seq<seq<nat>>, ys: seq<nat>, x: nat): nat {
    if ys == [] then 0 else ColumnWeight(lists, ys[..|ys| - 1], x) + Pref(lists, ys[|ys| - 1], x)
  }

  lemma {:induction false} WeightOfNone(lists: seq<seq<nat>>, ys: seq<nat>)
    ensures Weight(lists, ys, []) == 0
  {
    if ys != [] { WeightOfNone(lists, ys[..|ys| - 1]); }
  }

  lemma {:induction false} WeightColumn(lists: seq<seq<nat>>, ys: seq<nat>, xs: seq<nat>, x: nat)
    ensures Weight(lists, ys, xs + [x]) == Weight(lists, ys, xs) + ColumnWeight(lists, ys, x)
  {
    if ys != [] {
      WeightColumn(lists, ys[..|ys| - 1], xs, x);
      assert (xs + [x])[..|xs|] == xs;
    }
  }

  lemma BeatsOnce(x: nat, y: nat)
    ensures !(Beats(x, y) && Beats(y, x))
  {
  }

  // ---------------------------------------------------------------- the dependency graph

  ghost function WithEdge(g: Graph, u: nat, v: nat): Graph
    requires u in g
  {
    g[u := g[u] + {v}]
  }

  lemma EdgeRepresented(adj: seq<seq<nat>>, indeg: seq<nat>, g: Graph, u: nat, v: nat)
    requires T.Represents(adj, indeg, g) && u < |adj| && v < |adj| && forall x :: x in g[u] ==> x < v
    ensures T.Represents(adj[u := adj[u] + [v]], indeg[v := indeg[v] + 1], WithEdge(g, u, v))
  {
    var g' := WithEdge(g, u, v);
    forall x: nat | x < |adj| ensures |Preds(g', x)| == if x == v then |Preds(g, x)| + 1 else |Preds(g, x)| {
      PredsWithEdge(g, u, v, x);
    }
    forall a, b | Edge(g', a, b) ensures b in g' { assert Edge(g, a, b) || b == v; }
    assert forall k :: 0 <= k < |adj[u]| ==> adj[u][k] in g[u];
  }

  lemma PredsWithEdge(g: Graph, u: nat, v: nat, x: nat)
    requires u in g && v !in g[u]
    ensures |Preds(WithEdge(g, u, v), x)| == if x == v then |Preds(g, x)| + 1 else |Preds(g, x)|
  {
    assert Preds(WithEdge(g, u, v), x) == Preds(g, x) + if x == v then {u} else {};
  }

  ghost function Edgeless(n: nat): (g: Graph)
    ensures forall u: nat :: u in g <==> u < n
    ensures forall u :: u in g ==> g[u] == {}
  {
    if n == 0 then map[] else Edgeless(n - 1)[n - 1 := {}]
  }

  lemma NoEdgesRepresented(adj: seq<seq<nat>>, indeg: seq<nat>, g: Graph)
    requires |adj| == |indeg| && (forall u: nat :: u in g <==> u < |adj|) && forall u :: u in g ==> g[u] == {}
    requires forall u :: 0 <= u < |adj| ==> adj[u] == [] && indeg[u] == 0
    ensures T.Represents(adj, indeg, g)
  {
    forall v ensures Preds(g, v) == {} {}
  }

  /** The pairs of clusters dealt with before the pair of `i` and `j`. */
  ghost predicate PairDone(u: nat, v: nat, i: nat, j: nat) {
    if u < v then u < i || (u == i && v < j) else v < i || (v == i && u < j)
  }

  ghost predicate LinkedUpTo(lists: seq<seq<nat>>, clusters: seq<seq<nat>>, g: Graph, i: nat, j: nat) {
    && (forall u: nat :: u in g <==> u < |clusters|)
    && (forall u: nat, v: nat :: Edge(g, u, v) <==> u < |clusters| && v < |clusters| && PairDone(u, v, i, j) && Depends(lists, clusters, u, v))
  }

  lemma NothingLinked(lists: seq<seq<nat>>, clusters: seq<seq<nat>>, g: Graph)
    requires (forall u: nat :: u in g <==> u < |clusters|) && forall u :: u in g ==> g[u] == {}
    ensures LinkedUpTo(lists, clusters, g, 0, 1)
  {
    forall u: nat, v: nat | u < |clusters| && v < |clusters| && PairDone(u, v, 0, 1) ensures !Depends(lists, clusters, u, v) {}
  }

  /** So far the two clusters have links only to earlier ones. */
  lemma NotYetLinked(lists: seq<seq<nat>>, clusters: seq<seq<nat>>, g: Graph, i: nat, j: nat)
    requires LinkedUpTo(lists, clusters, g, i, j) && i < j < |clusters|
    ensures i in g && j in g && (forall x :: x in g[i] ==> x < j) && (forall x :: x in g[j] ==> x < i)
  {
    forall x | x in g[i] ensures x < j { assert Edge(g, i, x); }
    forall x | x in g[j] ensures x < i { assert Edge(g, j, x); }
  }

  lemma LinkStep(lists: seq<seq<nat>>, clusters: seq<seq<nat>>, g: Graph, i: nat, j: nat, g': Graph)
    requires LinkedUpTo(lists, clusters, g, i, j) && i < j < |clusters|
    requires g' == if Depends(lists, clusters, i, j) then WithEdge(g, i, j)
                   else if Depends(lists, clusters, j, i) then WithEdge(g, j, i) else g
    ensures LinkedUpTo(lists, clusters, g', i, j + 1)
  {
    BeatsOnce(Weight(lists, clusters[i], clusters[j]), Weight(lists, clusters[j], clusters[i]));
    forall u: nat, v: nat
      ensures Edge(g', u, v) <==> u < |clusters| && v < |clusters| && PairDone(u, v, i, j + 1) && Depends(lists, clusters, u, v)
    {
      assert Edge(g, u, v) <==> u < |clusters| && v < |clusters| && PairDone(u, v, i, j) && Depends(lists, clusters, u, v);
    }
  }

  lemma NextRow(lists: seq<seq<nat>>, clusters: seq<seq<nat>>, g: Graph, i: nat)
    requires LinkedUpTo(lists, clusters, g, i, |clusters|) && i < |clusters|
    ensures LinkedUpTo(lists, clusters, g, i + 1, i + 2)
  {
    forall u: nat, v: nat
      ensures Edge(g, u, v) <==> u < |clusters| && v < |clusters| && PairDone(u, v, i + 1, i + 2) && Depends(lists, clusters, u, v)
    {
      assert Edge(g, u, v) <==> u < |clusters| && v < |clusters| && PairDone(u, v, i, |clusters|) && Depends(lists, clusters, u, v);
    }
  }

  lemma AllLinked(lists: seq<seq<nat>>, clusters: seq<seq<nat>>, g: Graph, i: nat)
    requires LinkedUpTo(lists, clusters, g, i, i + 1) && (i == |clusters| || |clusters| <= 1)
    ensures g == DependencyGraph(lists, clusters)
  {
    var d := DependencyGraph(lists, clusters);
    forall u | u in g ensures g[u] == d[u] {
      forall v: nat ensures v in g[u] <==> v in d[u] {
        assert Edge(g, u, v) <==> u < |clusters| && v < |clusters| && PairDone(u, v, i, i + 1) && Depends(lists, clusters, u, v);
      }
    }
  }

  lemma {:induction false} FullStays(s: seq<Cmd>, t: seq<Cmd>, max: nat)
    requires |FirstDistinct(s, max)| >= max
    ensures FirstDistinct(s + t, max) == FirstDistinct(s, max)
  {
    if t == [] {
      assert s + t == s;
    } else {
      assert (s + t)[..|s + t| - 1] == s + t[..|t| - 1];
      FullStays(s, t[..|t| - 1], max);
    }
  }

  lemma {:induction false} MappedBelow(list: seq<Cmd>, ids: seq<Cmd>)
    requires Distinct(ids)
    ensures AllBelow(Mapped(list, Index(ids)), |ids|)
  {
    if list != [] {
      MappedBelow(list[..|list| - 1], ids);
      IndexMeaning(ids, list[|list| - 1]);
    }
  }

  /** Pairs of place `from` with the places up to `to`. */
  ghost function RowCount(list: seq<nat>, from: nat, to: nat, a: nat, b: nat): nat
    requires from < to <= |list|
  {
    if a == list[from] then multiset(list[from + 1..to])[b] else 0
  }

  /** The cells hold what they held before, and the pairs of `list[from]` with what follows before `to`. */
  ghost predicate RowCounted(pref: seq<nat>, was: seq<nat>, n: nat, list: seq<nat>, from: nat, to: nat)
    requires from < to <= |list|
  {
    && |pref| == |was| == n * n
    && forall a, b {:trigger Cell(n, a, b)} :: 0 <= a < n && 0 <= b < n ==>
         pref[Cell(n, a, b)] == (was[Cell(n, a, b)] + RowCount(list, from, to, a, b)) % WRAP
  }

  lemma RowStarts(was: seq<nat>, n: nat, done: seq<seq<nat>>, list: seq<nat>, from: nat, next: nat)
    requires next == from + 1 <= |list| && CountedIn(was, n, done, list, from)
    ensures RowCounted(was, was, n, list, from, next)
  {
    assert list[from + 1..next] == [];
    forall a, b | 0 <= a < n && 0 <= b < n
      ensures was[Cell(n, a, b)] == (was[Cell(n, a, b)] + RowCount(list, from, next, a, b)) % WRAP
    {
      CountSum(Votes(done, a, b) + Pairs(list, from, a, b), 0);
    }
  }

  lemma RowAdvances(pref: seq<nat>, was: seq<nat>, n: nat, list: seq<nat>, from: nat, j: nat, cell: nat)
    requires from < j < |list| && list[from] < n && list[j] < n && cell == Cell(n, list[from], list[j])
    requires RowCounted(pref, was, n, list, from, j)
    ensures RowCounted(pref[cell := (pref[cell] + 1) % WRAP], was, n, list, from, j + 1)
  {
    var next := pref[cell := (pref[cell] + 1) % WRAP];
    forall a, b | 0 <= a < n && 0 <= b < n
      ensures next[Cell(n, a, b)] == (was[Cell(n, a, b)] + RowCount(list, from, j + 1, a, b)) % WRAP
    {
      if a != list[from] || b != list[j] { CellsDiffer(n, a, b, list[from], list[j]); }
      RowCountStep(list, from, j, a, b);
      CountMore(was[Cell(n, a, b)] + RowCount(list, from, j, a, b));
    }
  }

  lemma RowFinished(pref: seq<nat>, was: seq<nat>, n: nat, done: seq<seq<nat>>, list: seq<nat>, from: nat)
    requires from < |list| && CountedIn(was, n, done, list, from) && RowCounted(pref, was, n, list, from, |list|)
    ensures CountedIn(pref, n, done, list, from + 1)
  {
    var next := from + 1;
    forall a, b | 0 <= a < n && 0 <= b < n ensures pref[Cell(n, a, b)] == (Votes(done, a, b) + Pairs(list, next, a, b)) % WRAP {
      RowOfPairs(list, from, next, a, b);
      CountSum(Votes(done, a, b) + Pairs(list, from, a, b), RowCount(list, from, |list|, a, b));
    }
  }

  lemma RowOfPairs(list: seq<nat>, from: nat, next: nat, a: nat, b: nat)
    requires next == from + 1 <= |list|
    ensures Pairs(list, next, a, b) == Pairs(list, from, a, b) + RowCount(list, from, |list|, a, b)
  {
    assert list[next..|list|] == list[next..];
  }

  lemma RowCountStep(list: seq<nat>, from: nat, j: nat, a: nat, b: nat)
    requires from < j < |list|
    ensures RowCount(list, from, j + 1, a, b) == RowCount(list, from, j, a, b) + if a == list[from] && b == list[j] then 1 else 0
  {
    assert list[from + 1..j + 1] == list[from + 1..j] + [list[j]];
  }

  lemma CountMore(x: nat)
    ensures (x % WRAP + 1) % WRAP == (x + 1) % WRAP
  {
  }

  lemma CountSum(x: nat, y: nat)
    ensures (x % WRAP + y) % WRAP == (x + y) % WRAP
  {
  }

  lemma PositionStep(lists: seq<seq<nat>>, other: nat, threshold: int, x: nat)
    ensures Position(lists, other + 1, threshold, x)
            == Position(lists, other, threshold, x) + if other != x && Pref(lists, other, x) >= threshold then 1 else 0
  {
    assert Ahead(lists, other + 1, threshold, x)
        == Ahead(lists, other, threshold, x) + if other != x && Pref(lists, other, x) >= threshold then {other} else {};
  }
}
