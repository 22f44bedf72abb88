/** Themis `fair_finalize`: the order in which the transactions of a committed graph are executed, and
    the fairness that reaches it. */
module FairFinalization {
  import opened Graphs
  import opened Condensation
  import opened Sequences
  import opened FairProposal
  import opened FairOrdering

  /** Any two vertices have an edge. */
  ghost predicate Tournament(g: Graph) {
    forall u, w :: u in g && w in g && u != w ==> Edge(g, u, w) || Edge(g, w, u)
  }

  /** `fair_finalize` may return `order`. */
  ghost predicate IsFinalOrder(g: Graph, order: seq<Tx>) {
    if Tournament(g) then exists parts :: IsCondensation(g, parts) && order == Concat(parts) else order == []
  }

  /** The keys in the order of the hash map. */
  method Nodes(graph: Graph) returns (nodes: seq<Tx>)
    ensures Elements(nodes) == graph.Keys && Distinct(nodes)
  {
    nodes := [];
    var rest := graph.Keys;
    while rest != {}
      invariant Elements(nodes) == graph.Keys - rest && rest <= graph.Keys && Distinct(nodes)
    {
      var x :| x in rest;
      assert x !in Elements(nodes);
      assert Elements(nodes + [x]) == Elements(nodes) + {x};
      nodes := nodes + [x];
      rest := rest - {x};
    }
  }

  ghost predicate Adjacent(g: Graph, u: Tx, w: Tx) {
    Edge(g, u, w) || Edge(g, w, u)
  }

  method IsTournamentGraph(graph: Graph) returns (all: bool)
    ensures all <==> Tournament(graph)
  {
    var nodes := Nodes(graph);
    for i := 0 to |nodes|
      invariant forall k, l :: 0 <= k < i && k < l < |nodes| ==> Adjacent(graph, nodes[k], nodes[l])
    {
      for j := i + 1 to |nodes|
        invariant forall l :: i < l < j ==> Adjacent(graph, nodes[i], nodes[l])
      {
        assert nodes[i] in Elements(nodes) && nodes[j] in Elements(nodes);
        if nodes[j] !in graph[nodes[i]] && nodes[i] !in graph[nodes[j]] { return false; }
        assert Adjacent(graph, nodes[i], nodes[j]);
      }
    }
    forall u, w | u in graph && w in graph && u != w ensures Edge(graph, u, w) || Edge(graph, w, u) {
      assert u in Elements(nodes) && w in Elements(nodes);
      var k :| 0 <= k < |nodes| && nodes[k] == u;
      var l :| 0 <= l < |nodes| && nodes[l] == w;
      assert if k < l then Adjacent(graph, nodes[k], nodes[l]) else Adjacent(graph, nodes[l], nodes[k]);
    }
    return true;
  }

  method FairFinalize(graph: Graph) returns (order: seq<Tx>)
    requires Closed(graph)
    ensures IsFinalOrder(graph, order)
  {
    var tournament := IsTournamentGraph(graph);
    if !tournament { return []; }
    var utility := new CondensationGraph(graph);
    var parts := utility.GetCondensationGraph();
    order := [];
    for i := 0 to |parts|
      invariant order == Concat(parts[..i])
    {
      assert parts[..i + 1][..i] == parts[..i];
      order := order + parts[i];
    }
    assert parts[..|parts|] == parts;
  }

  // ---------------------------------------------------------------- the order of a tournament

  /** Every vertex once. */
  lemma FinalOnce(g: Graph, order: seq<Tx>)
    requires Tournament(g) && IsFinalOrder(g, order)
    ensures Distinct(order) && Elements(order) == g.Keys
  {
    var parts :| IsCondensation(g, parts) && order == Concat(parts);
    ConcatDistinct(parts);
    forall x ensures x in order <==> x in g { ConcatMembers(parts, x); }
  }

  /** An edge between two components is kept. */
  lemma EdgeKept(g: Graph, order: seq<Tx>, u: Tx, w: Tx)
    requires Closed(g) && Tournament(g) && IsFinalOrder(g, order) && Edge(g, u, w) && !Mutual(g, u, w)
    ensures Precedes(order, u, w)
  {
    var parts :| IsCondensation(g, parts) && order == Concat(parts);
    var i :| 0 <= i < |parts| && u in parts[i];
    var j :| 0 <= j < |parts| && w in parts[j];
    assert i <= j;
    ConcatAcross(parts, i, j, u, w);
  }

  /** In a tournament, two vertices that are on no common cycle come in the order of their edge,
      whatever the traversal; so only the order inside a component is open. */
  lemma FinalExactly(g: Graph, order: seq<Tx>, u: Tx, w: Tx)
    requires Closed(g) && Tournament(g) && IsFinalOrder(g, order) && u in g && w in g && u != w && !Mutual(g, u, w)
    ensures Precedes(order, u, w) <==> Edge(g, u, w)
  {
    FinalOnce(g, order);
    if Edge(g, u, w) {
      EdgeKept(g, order, u, w);
    } else {
      EdgeKept(g, order, w, u);
      PrecedesOnce(order, w, u);
    }
  }

  lemma ProposalClosed(lists: seq<seq<Tx>>, cfg: Config, graph: Graph)
    requires cfg.Valid() && IsProposal(lists, cfg, graph)
    ensures Closed(graph)
  {
    var full, parts, cut :| IsPruned(lists, cfg, full, parts, cut, graph);
    assert Closed(full);
    PrunedGraph(full, parts, cut, graph);
  }

  /** Batch-order fairness of the executed order: if enough replicas received `a` first, it comes before
      `b`, unless both are on one cycle. */
  lemma FinalFair(lists: seq<seq<Tx>>, cfg: Config, a: Tx, b: Tx, graph: Graph, order: seq<Tx>)
    requires cfg.Valid() && EnoughReplicas(cfg) && MostPutFirst(lists, cfg, a, b) && 0.0 <= cfg.gamma <= 1.0
    requires IsProposal(lists, cfg, graph) && Tournament(graph) && IsFinalOrder(graph, order)
    requires a in graph && b in graph
    ensures Precedes(order, a, b) || Mutual(graph, a, b)
  {
    ProposalFair(lists, cfg, a, b, graph);
    ProposalClosed(lists, cfg, graph);
    assert Edge(graph, a, b) || Edge(graph, b, a);
    if !Mutual(graph, a, b) { EdgeKept(graph, order, a, b); }
  }
}
