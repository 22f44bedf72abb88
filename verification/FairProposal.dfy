/** The leader's side of Themis: counting local orders into a graph over the transactions, and pruning
    that graph from its first component without a solid transaction on. */
module FairProposal {
  import opened Graphs
  import opened Condensation
  import opened LocalOrders
  import opened Sequences

  // ---------------------------------------------------------------- thresholds

  datatype Config = Config(n: nat, nmajority: nat, gamma: real) {
    ghost predicate Valid() { nmajority <= n }

    function Faulty(): nat
      requires nmajority <= n
    {
      n - nmajority
    }

    function SolidThreshold(): real
      requires nmajority <= n
    {
      n as real - 2.0 * Faulty() as real
    }

    function EdgeThreshold(): real
      requires nmajority <= n
    {
      n as real * (1.0 - gamma) + Faulty() as real + 1.0
    }

    function NonBlankThreshold(): real
      requires nmajority <= n
    {
      if SolidThreshold() > EdgeThreshold() then EdgeThreshold() else SolidThreshold()
    }
  }

  /** The number of faulty replicas that a system of `n` tolerates, computed at start-up. */
  function ToleratedFaults(n: nat, gamma: real): nat
    requires n > 0 && gamma >= 0.5
  {
    assert (n - 1) as real * (2.0 * gamma - 1.0) >= 0.0;
    ((n - 1) as real * (2.0 * gamma - 1.0) / 4.0).Floor
  }

  // ---------------------------------------------------------------- counting

  ghost predicate Counted(m: map<Tx, nat>, x: Tx, count: nat) {
    && (x in m <==> count > 0)
    && (x in m ==> m[x] == count % WRAP)
  }

  function Increment(m: map<Tx, nat>, x: Tx): map<Tx, nat> {
    m[x := ((if x in m then m[x] else 0) + 1) % WRAP]
  }

  lemma IncrementCounts(m: map<Tx, nat>, x: Tx, y: Tx, count: nat)
    requires Counted(m, y, count)
    ensures Counted(Increment(m, x), y, if x == y then count + 1 else count)
  {
  }

  type EdgeCount = map<Tx, map<Tx, nat>>

  function Row(edges: EdgeCount, a: Tx): map<Tx, nat> {
    if a in edges then edges[a] else map[]
  }

  method CountTransactions(lists: seq<seq<Tx>>) returns (txCount: map<Tx, nat>)
    ensures forall x :: Counted(txCount, x, Mentions(lists, x))
  {
    txCount := map[];
    for i := 0 to |lists|
      invariant forall x :: Counted(txCount, x, Mentions(lists[..i], x))
    {
      assert lists[..i + 1][..i] == lists[..i];
      txCount := CountList(txCount, lists[i], lists[..i]);
    }
    assert lists[..|lists|] == lists;
  }

  method CountList(before: map<Tx, nat>, list: seq<Tx>, ghost done: seq<seq<Tx>>) returns (txCount: map<Tx, nat>)
    requires forall x :: Counted(before, x, Mentions(done, x))
    ensures forall x :: Counted(txCount, x, Mentions(done, x) + multiset(list)[x])
  {
    ghost var base := CountedBefore(done);
    txCount := before;
    for k := 0 to |list|
      invariant CountedWith(txCount, base, list, 0, k)
    {
      CountOne(txCount, base, list, 0, k);
      txCount := Increment(txCount, list[k]);
    }
    assert list[0..|list|] == list;
    forall x ensures Counted(txCount, x, Mentions(done, x) + multiset(list)[x]) {
      assert Counted(txCount, x, base(x) + multiset(list[0..|list|])[x]);
    }
  }

  ghost function CountedBefore(done: seq<seq<Tx>>): Tx -> nat {
    (x: Tx) => Mentions(done, x)
  }

  /** The counters hold what was counted before, and the elements of a stretch of the list. */
  ghost predicate CountedWith(m: map<Tx, nat>, base: Tx -> nat, list: seq<Tx>, from: nat, to: nat)
    requires from <= to <= |list|
  {
    forall x :: Counted(m, x, base(x) + multiset(list[from..to])[x])
  }

  lemma CountOne(m: map<Tx, nat>, base: Tx -> nat, list: seq<Tx>, from: nat, to: nat)
    requires from <= to < |list| && CountedWith(m, base, list, from, to)
    ensures CountedWith(Increment(m, list[to]), base, list, from, to + 1)
  {
    forall x ensures Counted(Increment(m, list[to]), x, base(x) + multiset(list[from..to + 1])[x]) {
      SliceCount(list, from, to, x);
      IncrementCounts(m, list[to], x, base(x) + multiset(list[from..to])[x]);
    }
  }

  lemma SliceCount(list: seq<Tx>, from: nat, to: nat, x: Tx)
    requires from <= to < |list|
    ensures multiset(list[from..to + 1])[x] == multiset(list[from..to])[x] + if x == list[to] then 1 else 0
  {
    assert list[from..to + 1] == list[from..to] + [list[to]];
  }

  lemma NothingCounted(m: map<Tx, nat>, base: Tx -> nat, list: seq<Tx>, from: nat)
    requires from <= |list| && forall x :: Counted(m, x, base(x))
    ensures CountedWith(m, base, list, from, from)
  {
    forall x ensures Counted(m, x, base(x) + multiset(list[from..from])[x]) {
      assert Counted(m, x, base(x)) && multiset(list[from..from])[x] == 0;
    }
  }

  method CountEdges(lists: seq<seq<Tx>>) returns (edges: EdgeCount)
    ensures forall a, b :: Counted(Row(edges, a), b, Votes(lists, a, b))
  {
    edges := map[];
    for i := 0 to |lists|
      invariant forall a, b :: Counted(Row(edges, a), b, Votes(lists[..i], a, b))
    {
      assert lists[..i + 1][..i] == lists[..i];
      edges := CountPairs(edges, lists[i], lists[..i]);
    }
    assert lists[..|lists|] == lists;
  }

  method CountPairs(before: EdgeCount, list: seq<Tx>, ghost done: seq<seq<Tx>>) returns (edges: EdgeCount)
    requires forall a, b :: Counted(Row(before, a), b, Votes(done, a, b))
    ensures forall a, b :: Counted(Row(edges, a), b, Votes(done, a, b) + Pairs(list, |list|, a, b))
  {
    edges := before;
    for from := 0 to |list|
      invariant forall a, b :: Counted(Row(edges, a), b, Votes(done, a, b) + Pairs(list, from, a, b))
    {
      edges := CountFrom(edges, list, from, done);
    }
  }

  ghost function VotesBefore(list: seq<Tx>, from: nat, done: seq<seq<Tx>>): Tx -> nat
    requires from < |list|
  {
    (b: Tx) => Votes(done, list[from], b) + Pairs(list, from, list[from], b)
  }

  method CountRow(before: map<Tx, nat>, list: seq<Tx>, from: nat, ghost done: seq<seq<Tx>>) returns (row: map<Tx, nat>)
    requires from < |list|
    requires forall b :: Counted(before, b, Votes(done, list[from], b) + Pairs(list, from, list[from], b))
    ensures CountedWith(row, VotesBefore(list, from, done), list, from + 1, |list|)
  {
    row := before;
    ghost var votes := VotesBefore(list, from, done);
    var next := from + 1;
    NothingCounted(before, votes, list, next);
    for to := next to |list|
      invariant CountedWith(row, votes, list, next, to)
    {
      CountOne(row, votes, list, next, to);
      row := Increment(row, list[to]);
    }
  }

  method CountFrom(before: EdgeCount, list: seq<Tx>, from: nat, ghost done: seq<seq<Tx>>) returns (edges: EdgeCount)
    requires from < |list|
    requires forall a, b :: Counted(Row(before, a), b, Votes(done, a, b) + Pairs(list, from, a, b))
    ensures forall a, b :: Counted(Row(edges, a), b, Votes(done, a, b) + Pairs(list, from + 1, a, b))
  {
    var a := list[from];
    var row := CountRow(Row(before, a), list, from, done);
    edges := before[a := row];
    forall c, b ensures Counted(Row(edges, c), b, Votes(done, c, b) + Pairs(list, from + 1, c, b)) {
      RowCounted(before, row, list, from, done, c, b);
    }
  }

  /** The row of `list[from]` is counted, the others are as before. */
  lemma RowCounted(before: EdgeCount, row: map<Tx, nat>, list: seq<Tx>, from: nat, done: seq<seq<Tx>>, c: Tx, b: Tx)
    requires from < |list| && Counted(Row(before, c), b, Votes(done, c, b) + Pairs(list, from, c, b))
    requires CountedWith(row, VotesBefore(list, from, done), list, from + 1, |list|)
    ensures Counted(Row(before[list[from] := row], c), b, Votes(done, c, b) + Pairs(list, from + 1, c, b))
  {
    assert list[from + 1..|list|] == list[from + 1..];
  }

  // ---------------------------------------------------------------- edges

  ghost predicate Heavy(edges: EdgeCount, threshold: real, a: Tx, b: Tx) {
    b in Row(edges, a) && edges[a][b] as real >= threshold
  }

  /** `g` has been given the edges among `done` that reach the threshold, each pair of transactions in
      one direction at most. */
  ghost predicate EdgesAdded(keys: set<Tx>, edges: EdgeCount, threshold: real, done: set<(Tx, Tx)>, g: Graph) {
    && (forall a: Tx, b: Tx :: Edge(g, a, b) ==> (a, b) in done && Heavy(edges, threshold, a, b))
    && (forall a: Tx, b: Tx :: (a, b) in done && Heavy(edges, threshold, a, b) ==> Edge(g, a, b) || Edge(g, b, a))
    && (forall a: Tx, b: Tx :: Edge(g, a, b) && Edge(g, b, a) ==> a == b)
    && (forall x :: x in g <==> x in keys || TouchesHeavy(edges, threshold, done, x))
  }

  ghost predicate TouchesHeavy(edges: EdgeCount, threshold: real, done: set<(Tx, Tx)>, x: Tx) {
    || (exists y :: (x, y) in done && Heavy(edges, threshold, x, y))
    || (exists y :: (y, x) in done && Heavy(edges, threshold, y, x))
  }

  ghost function CountedPairs(edges: EdgeCount, froms: set<Tx>): set<(Tx, Tx)> {
    set a, b | a in edges && b in edges[a] && a in froms :: (a, b)
  }

  ghost function RowPairs(a: Tx, tos: set<Tx>): set<(Tx, Tx)> {
    set b | b in tos :: (a, b)
  }

  lemma RowPairsStep(a: Tx, tos: set<Tx>, b: Tx)
    ensures RowPairs(a, tos + {b}) == RowPairs(a, tos) + {(a, b)}
  {
  }

  lemma CountedPairsStep(edges: EdgeCount, froms: set<Tx>, a: Tx)
    requires a in edges
    ensures CountedPairs(edges, froms + {a}) == CountedPairs(edges, froms) + RowPairs(a, edges[a].Keys)
  {
  }

  /** Goes through the counted pairs in whatever order the hash maps yield them. */
  method AddEdges(start: Graph, edges: EdgeCount, threshold: real) returns (g: Graph)
    requires forall x :: x in start ==> start[x] == {}
    ensures EdgesAdded(start.Keys, edges, threshold, CountedPairs(edges, edges.Keys), g)
  {
    g := start;
    var froms := edges.Keys;
    ghost var done: set<Tx> := {};
    assert CountedPairs(edges, done) == {};
    while froms != {}
      invariant froms !! done && froms + done == edges.Keys
      invariant EdgesAdded(start.Keys, edges, threshold, CountedPairs(edges, done), g)
    {
      var from :| from in froms;
      g := AddEdgesFrom(start.Keys, g, edges, threshold, from, CountedPairs(edges, done));
      CountedPairsStep(edges, done, from);
      froms := froms - {from};
      done := done + {from};
    }
    assert done == edges.Keys;
  }

  method AddEdgesFrom(ghost keys: set<Tx>, start: Graph, edges: EdgeCount, threshold: real, from: Tx,
          ghost done: set<(Tx, Tx)>)
    returns (g: Graph)
    requires from in edges && EdgesAdded(keys, edges, threshold, done, start)
    ensures EdgesAdded(keys, edges, threshold, done + RowPairs(from, edges[from].Keys), g)
  {
    g := start;
    var tos := edges[from].Keys;
    ghost var added: set<Tx> := {};
    assert done + RowPairs(from, added) == done;
    while tos != {}
      invariant tos !! added && tos + added == edges[from].Keys
      invariant EdgesAdded(keys, edges, threshold, done + RowPairs(from, added), g)
    {
      var to :| to in tos;
      g := AddEdge(keys, g, edges, threshold, from, to, done + RowPairs(from, added));
      RowPairsStep(from, added, to);
      assert done + RowPairs(from, added) + {(from, to)} == done + RowPairs(from, added + {to});
      tos := tos - {to};
      added := added + {to};
    }
    assert added == edges[from].Keys;
  }

  method AddEdge(ghost keys: set<Tx>, start: Graph, edges: EdgeCount, threshold: real, from: Tx, to: Tx,
          ghost done: set<(Tx, Tx)>)
    returns (g: Graph)
    requires from in edges && to in edges[from] && EdgesAdded(keys, edges, threshold, done, start)
    ensures EdgesAdded(keys, edges, threshold, done + {(from, to)}, g)
  {
    g := start;
    if edges[from][to] as real >= threshold {
      // looking up a missing vertex inserts it
      if to !in g { g := g[to := {}]; }
      if from !in g[to] {
        g := g[from := (if from in g then g[from] else {}) + {to}];
      }
    }
    EdgeAdded(keys, start, edges, threshold, from, to, done, g);
  }

  lemma EdgeAdded(keys: set<Tx>, start: Graph, edges: EdgeCount, threshold: real, from: Tx, to: Tx,
          done: set<(Tx, Tx)>, g: Graph)
    requires from in edges && to in edges[from] && EdgesAdded(keys, edges, threshold, done, start)
    requires var heavy := Heavy(edges, threshold, from, to);
             && (forall x :: x in g <==> x in start || (heavy && (x == to || (x == from && !Edge(start, to, from)))))
             && (forall a, b :: Edge(g, a, b) <==> Edge(start, a, b) || (heavy && a == from && b == to && !Edge(start, to, from)))
    ensures EdgesAdded(keys, edges, threshold, done + {(from, to)}, g)
  {
    var next, heavy := done + {(from, to)}, Heavy(edges, threshold, from, to);
    forall x ensures TouchesHeavy(edges, threshold, next, x) <==> TouchesHeavy(edges, threshold, done, x) || (heavy && (x == from || x == to)) {
      if heavy { assert (from, to) in next; }
    }
    if Edge(start, to, from) {
      assert (to, from) in done;
      assert TouchesHeavy(edges, threshold, done, from);
    }
  }

  // ---------------------------------------------------------------- pruning

  /** `g` after the transactions in `gone` were removed from `full` one after the other. A removed
      transaction comes back, without edges, when a child of it is removed no earlier than it. */
  ghost predicate Removed(full: Graph, gone: seq<Tx>, g: Graph) {
    && (forall u :: u in full && u !in gone ==> u in g && forall w :: w in g[u] <==> w in full[u] && w !in gone)
    && (forall u :: u in g ==> u in full)
    && (forall u :: u in gone ==> (u in g <==> ComesBack(full, gone, u)))
    && (forall u :: u in gone && u in g ==> g[u] == {})
  }

  ghost predicate ComesBack(full: Graph, gone: seq<Tx>, u: Tx) {
    exists i, j :: 0 <= i <= j < |gone| && gone[i] == u && Edge(full, u, gone[j])
  }

  ghost predicate HasSolid(part: seq<Tx>, solid: set<Tx>) {
    exists x :: x in part && x in solid
  }

  /** The parts before the cut all contain a solid transaction; the part at the cut does not. */
  ghost predicate IsCut(parts: seq<seq<Tx>>, solid: set<Tx>, cut: nat) {
    && cut <= |parts|
    && (forall i :: 0 <= i < cut ==> HasSolid(parts[i], solid))
    && (cut < |parts| ==> !HasSolid(parts[cut], solid))
  }

  method FindCut(parts: seq<seq<Tx>>, solid: set<Tx>) returns (cut: nat)
    ensures IsCut(parts, solid, cut)
  {
    cut := 0;
    while cut < |parts|
      invariant cut <= |parts|
      invariant forall i :: 0 <= i < cut ==> HasSolid(parts[i], solid)
    {
      var solidFound := false;
      for k := 0 to |parts[cut]|
        invariant solidFound <==> exists x :: x in parts[cut][..k] && x in solid
      {
        assert parts[cut][..k + 1] == parts[cut][..k] + [parts[cut][k]];
        if parts[cut][k] in solid {
          solidFound := true;
          break;
        }
      }
      assert !solidFound ==> parts[cut][..|parts[cut]|] == parts[cut];
      if !solidFound { break; }
      cut := cut + 1;
    }
  }

  /** The parts list vertices of the graph, none of them twice. */
  ghost predicate ListOnce(full: Graph, parts: seq<seq<Tx>>) {
    Distinct(Concat(parts)) && forall x: Tx :: x in Concat(parts) ==> x in full
  }

  lemma CondensationListsOnce(full: Graph, parts: seq<seq<Tx>>)
    requires IsCondensation(full, parts)
    ensures ListOnce(full, parts)
  {
    ConcatDistinct(parts);
    forall x: Tx | x in Concat(parts) ensures x in full { ConcatMembers(parts, x); }
  }

  method RemoveAfter(full: Graph, utility: CondensationGraph, parts: seq<seq<Tx>>, cut: nat) returns (g: Graph)
    requires Closed(full) && utility.transposed == Transpose(full) && ListOnce(full, parts) && cut <= |parts|
    ensures Removed(full, Concat(parts[cut..]), g)
  {
    g := full;
    NothingRemoved(full);
    assert parts[cut..cut] == [];
    ghost var gone: seq<Tx> := [];
    for i := cut to |parts|
      invariant gone == Concat(parts[cut..i]) && Removed(full, gone, g)
    {
      NextPart(full, parts, cut, i);
      g := RemovePart(full, utility, g, parts[i], gone);
      gone := gone + parts[i];
    }
    assert parts[cut..|parts|] == parts[cut..];
  }

  lemma NothingRemoved(full: Graph)
    ensures Removed(full, [], full)
  {
  }

  lemma NextPart(full: Graph, parts: seq<seq<Tx>>, cut: nat, i: nat)
    requires ListOnce(full, parts) && cut <= i < |parts|
    ensures Distinct(parts[i]) && forall x :: x in parts[i] ==> x in full && x !in Concat(parts[cut..i])
    ensures Concat(parts[cut..i + 1]) == Concat(parts[cut..i]) + parts[i]
  {
    assert parts[cut..i + 1][..i - cut] == parts[cut..i];
    ConcatDistinct(parts);
    forall x | x in parts[i] ensures x in full && x !in Concat(parts[cut..i]) {
      ConcatMembers(parts, x);
      ConcatMembers(parts[cut..i], x);
      forall j | 0 <= j < |parts[cut..i]| ensures x !in parts[cut..i][j] { assert parts[cut..i][j] == parts[cut + j]; }
    }
  }

  method RemovePart(full: Graph, utility: CondensationGraph, start: Graph, part: seq<Tx>, ghost gone: seq<Tx>)
    returns (g: Graph)
    requires Closed(full) && utility.transposed == Transpose(full) && Removed(full, gone, start)
    requires Distinct(part) && forall x :: x in part ==> x in full && x !in gone
    ensures Removed(full, gone + part, g)
  {
    g := start;
    assert gone + part[..0] == gone;
    for k := 0 to |part|
      invariant Removed(full, gone + part[..k], g)
    {
      assert part[k] in part;
      NotYetGone(gone, part, k);
      g := RemoveOne(full, utility, g, part[k], gone + part[..k]);
      Regroup(gone, part, k);
    }
    assert part[..|part|] == part;
  }

  lemma NotYetGone(gone: seq<Tx>, part: seq<Tx>, k: nat)
    requires Distinct(part) && k < |part| && part[k] !in gone
    ensures part[k] !in gone + part[..k]
  {
  }

  lemma Regroup(a: seq<Tx>, b: seq<Tx>, k: nat)
    requires k < |b|
    ensures a + b[..k] + [b[k]] == a + b[..k + 1]
  {
  }

  /** Erases a transaction and its name from the edges of its parents; looking up a parent that was
      erased before inserts it again. */
  method RemoveOne(full: Graph, utility: CondensationGraph, start: Graph, tx: Tx, ghost gone: seq<Tx>)
    returns (g: Graph)
    requires Closed(full) && utility.transposed == Transpose(full) && Removed(full, gone, start)
    requires tx in full && tx !in gone
    ensures Removed(full, gone + [tx], g)
  {
    g := start - {tx};
    ghost var erased := g;
    var rest := utility.transposed[tx];
    ghost var parents := rest;
    while rest != {}
      invariant rest <= parents
      invariant forall u :: u in g <==> u in erased || u in parents - rest
      invariant forall u :: u in g && u in parents - rest ==> g[u] == (if u in erased then erased[u] else {}) - {tx}
      invariant forall u :: u in erased && u !in parents - rest ==> g[u] == erased[u]
    {
      var child :| child in rest;
      g := g[child := (if child in g then g[child] else {}) - {tx}];
      rest := rest - {child};
    }
    RemovedOne(full, gone, start, tx, g);
  }

  lemma RemovedOne(full: Graph, gone: seq<Tx>, start: Graph, tx: Tx, g: Graph)
    requires Closed(full) && Removed(full, gone, start) && tx in full && tx !in gone
    requires forall u :: u in g <==> (u in start && u != tx) || Edge(full, u, tx)
    requires forall u :: Edge(full, u, tx) ==> g[u] == (if u in start && u != tx then start[u] else {}) - {tx}
    requires forall u :: u in start && u != tx && !Edge(full, u, tx) ==> g[u] == start[u]
    ensures Removed(full, gone + [tx], g)
  {
    var next := gone + [tx];
    forall u ensures u in next <==> u in gone || u == tx {}
    forall u | u in next ensures u in g <==> ComesBack(full, next, u) {
      RemovedBack(full, gone, tx, u);
    }
    forall u | u in full && u !in next ensures u in g && forall w :: w in g[u] <==> w in full[u] && w !in next {
      assert u in start && (Edge(full, u, tx) || g[u] == start[u]);
    }
    forall u | u in next && u in g ensures g[u] == {} {
      assert u in start ==> u == tx || start[u] == {};
    }
  }

  lemma RemovedBack(full: Graph, gone: seq<Tx>, tx: Tx, u: Tx)
    requires u in gone + [tx] && tx !in gone
    ensures ComesBack(full, gone + [tx], u) <==> (u in gone && ComesBack(full, gone, u)) || Edge(full, u, tx)
  {
    var next := gone + [tx];
    if u in gone && ComesBack(full, gone, u) {
      var i, j :| 0 <= i <= j < |gone| && gone[i] == u && Edge(full, u, gone[j]);
      assert next[i] == u && next[j] == gone[j];
    }
    if Edge(full, u, tx) {
      var i :| 0 <= i < |next| && next[i] == u;
      assert next[|gone|] == tx;
    }
  }
}
