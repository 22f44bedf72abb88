/** The parts together: the worker threads of `ThreadPool`, run on the conflict graph of an order or on
    its transitive reduction, leave the accounts as executing the order one by one does. */
module ParallelExecution {
  import opened Graphs
  import opened ConflictDag
  import opened SerialEquivalence
  import opened Executor
  import opened Reduction
  import opened Sequences

  /** The transactions in the order in which the workers executed them. */
  ghost function Executed(run: seq<Pool>): seq<Tx>
    requires |run| > 0
  {
    run[|run| - 1].decided
  }

  /** A complete run executes the vertices in an order that is a linear extension of the graph. */
  lemma CompleteRunExtends(g: Graph, run: seq<Pool>)
    requires Closed(g) && Acyclic(g) && g != map[] && IsCompleteRun(g, run)
    ensures multiset(Executed(run)) == multiset(g.Keys) && IsLinearExtension(g, Executed(run))
  {
    CompleteRun(g, run);
    var d := Executed(run);
    forall p, c | Edge(g, p, c) ensures Precedes(d, p, c) {
      assert c in multiset(d);
      var k :| 0 <= k < |d| && d[k] == c;
      assert p in d[..k];
      var i :| 0 <= i < k && d[i] == p;
    }
  }

  /** What comes after `p` in a sequence. */
  ghost function After(other: seq<Tx>, p: Tx): set<Tx> {
    set j | 0 <= j < |other| && Precedes(other, p, other[j]) :: other[j]
  }

  /** A linear extension has everything that a vertex reaches after it. */
  lemma ReachExtends(g: Graph, order: seq<Tx>, p: Tx, c: Tx)
    requires Distinct(order) && IsLinearExtension(g, order) && Reach(g, p, c) && p != c
    ensures Precedes(order, p, c)
  {
    ReachSplit(g, p, c);
    var w :| Edge(g, p, w) && Reach(g, w, c);
    assert Precedes(order, p, w);
    forall a, b | a in After(order, p) && Edge(g, a, b) ensures b in After(order, p) {
      PrecedesTrans(order, p, a, b);
    }
    ClosedSet(g, After(order, p), w, c);
  }

  /** A linear extension of the reduced graph respects the edges that the reduction dropped. */
  lemma ReducedExtends(g: Graph, other: seq<Tx>)
    requires Closed(g) && Acyclic(g) && Distinct(other) && IsLinearExtension(Reduced(g), other)
    ensures IsLinearExtension(g, other)
  {
    var r := Reduced(g);
    forall p, c | Edge(g, p, c) ensures Precedes(other, p, c) {
      ReachEdge(g, p, c);
      ReducedReach(g, p, c);
      assert ReachPlus(g, p, c) by { ReachRefl(g, c); }
      AcyclicDistinct(g, p, c);
      ReachExtends(r, other, p, c);
    }
  }

  lemma ReducedIsDag(g: Graph)
    requires Closed(g) && Acyclic(g)
    ensures Closed(Reduced(g)) && Acyclic(Reduced(g)) && Reduced(g).Keys == g.Keys
  {
    var r := Reduced(g);
    forall u, v | Edge(r, u, v) ensures v in r { assert Edge(g, u, v); }
    forall u ensures !ReachPlus(r, u, u) {
      if ReachPlus(r, u, u) {
        var w :| Edge(r, u, w) && Reach(r, w, u);
        ReachMonotone(r, g, w, u);
        assert ReachPlus(g, u, u);
      }
    }
  }

  /** Serial equivalence of the parallel executor, for any number of workers and any interleaving. */
  lemma ParallelIsSerial<V(!new)>(txns: map<Tx, Txn<V>>, types: map<Tx, Usage>, order: seq<Tx>, dag: Graph,
          g: Graph, run: seq<Pool>, s: State<V>)
    requires Independent(txns) && Distinct(order) && order != []
    requires forall tx :: tx in order ==> tx in txns && txns[tx].usage == UsageOf(types, tx)
    requires IsConflictDag(order, types, dag)
    requires g == dag || g == Reduced(dag)
    requires IsCompleteRun(g, run)
    ensures forall tx :: tx in Executed(run) ==> tx in txns
    ensures Exec(txns, Executed(run), s) == Exec(txns, order, s)
  {
    ConflictDagAcyclic(order, types, dag);
    ReducedIsDag(dag);
    assert order[0] in dag;
    CompleteRunExtends(g, run);
    OnceEach(order, dag.Keys);
    DistinctMultiset(order, Executed(run));
    if g == Reduced(dag) { ReducedExtends(dag, Executed(run)); }
    LinearExtensionsAgree(txns, types, order, dag, Executed(run), s);
  }

  // ---------------------------------------------------------------- the graph of a block

  /** Of any two transactions that do not commute one reaches the other. */
  ghost predicate LinksAll<V(!new)>(txns: map<Tx, Txn<V>>, g: Graph)
    requires forall tx :: tx in g ==> tx in txns
  {
    forall p, c :: p in g && c in g && p != c ==> Commutes(txns[p], txns[c]) || Reach(g, p, c) || Reach(g, c, p)
  }

  /** Two linear extensions of such a graph order transactions that do not commute alike. */
  lemma ExtensionsRespect<V(!new)>(txns: map<Tx, Txn<V>>, g: Graph, order: seq<Tx>, other: seq<Tx>)
    requires (forall tx :: tx in g ==> tx in txns) && LinksAll(txns, g)
    requires multiset(order) == multiset(g.Keys) && multiset(other) == multiset(g.Keys)
    requires IsLinearExtension(g, order) && IsLinearExtension(g, other)
    ensures (forall tx :: tx in order ==> tx in txns) && Distinct(order) && Respects(txns, order, other)
  {
    KeysOnce(g, order);
    KeysOnce(g, other);
    forall i, j | 0 <= i < j < |order|
      ensures Commutes(txns[order[i]], txns[order[j]]) || Precedes(other, order[i], order[j])
    {
      var p, c := order[i], order[j];
      assert p in order && c in order && p != c && Precedes(order, p, c);
      PrecedesOnce(order, p, c);
      if Reach(g, p, c) {
        ReachExtends(g, other, p, c);
      } else if Reach(g, c, p) {
        ReachExtends(g, order, c, p);
      }
    }
  }

  lemma KeysOnce(g: Graph, order: seq<Tx>)
    requires multiset(order) == multiset(g.Keys)
    ensures Distinct(order) && forall tx :: tx in order <==> tx in g
  {
    forall tx ensures tx in order <==> tx in g { assert tx in multiset(order) <==> tx in multiset(g.Keys); }
    forall i, j | 0 <= i < j < |order| ensures order[i] != order[j] {
      if order[i] == order[j] { TwiceIn(order, i, j); }
    }
  }

  lemma RunExtends(g: Graph, h: Graph, run: seq<Pool>)
    requires Closed(g) && Acyclic(g) && g != map[] && (h == g || h == Reduced(g)) && IsCompleteRun(h, run)
    ensures multiset(Executed(run)) == multiset(g.Keys) && IsLinearExtension(g, Executed(run))
  {
    ReducedIsDag(g);
    assert h.Keys == g.Keys;
    CompleteRunExtends(h, run);
    KeysOnce(h, Executed(run));
    if h == Reduced(g) { ReducedExtends(g, Executed(run)); }
  }

  /** Replicas that execute one block agree: on any acyclic graph that leads between any two transactions
      that do not commute, or its reduction, any two complete runs leave the same accounts, whatever the
      numbers of workers and the interleavings. */
  lemma RunsAgree<V(!new)>(txns: map<Tx, Txn<V>>, g: Graph, h: Graph, k: Graph, run: seq<Pool>, other: seq<Pool>, s: State<V>)
    requires (forall tx :: tx in g ==> tx in txns) && LinksAll(txns, g)
    requires Closed(g) && Acyclic(g) && g != map[]
    requires (h == g || h == Reduced(g)) && IsCompleteRun(h, run)
    requires (k == g || k == Reduced(g)) && IsCompleteRun(k, other)
    ensures (forall tx :: tx in Executed(run) ==> tx in txns) && forall tx :: tx in Executed(other) ==> tx in txns
    ensures Exec(txns, Executed(run), s) == Exec(txns, Executed(other), s)
  {
    RunExtends(g, h, run);
    RunExtends(g, k, other);
    ExtensionsRespect(txns, g, Executed(run), Executed(other));
    KeysOnce(g, Executed(other));
    SameResult(txns, Executed(run), Executed(other), s);
  }
}
