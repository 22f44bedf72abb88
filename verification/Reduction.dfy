/** `TransitiveReduction`: drops, in place, every edge of an acyclic graph that a longer path
    implies. */
module Reduction {
  import opened Graphs
  import opened Sequences

  /** A path of two or more edges from `u` to `w`. */
  ghost predicate Implied(g: Graph, u: Tx, w: Tx) {
    exists v :: Edge(g, u, v) && ReachPlus(g, v, w)
  }

  /** The edges that no longer path implies. */
  ghost function Reduced(g: Graph): Graph {
    map u | u in g :: Essential(g, u)
  }

  ghost function Essential(g: Graph, u: Tx): set<Tx>
    requires u in g
  {
    set w | w in g[u] && !Implied(g, u, w)
  }

  /** The vertices on paths from `u` to `w`. */
  ghost function Between(g: Graph, u: Tx, w: Tx): set<Tx> {
    set x | x in g && Reach(g, u, x) && Reach(g, x, w)
  }

  /** `h` keeps the essential edges of `g` and adds none. */
  ghost predicate BetweenGraphs(g: Graph, h: Graph) {
    && h.Keys == g.Keys
    && (forall u, w :: Edge(h, u, w) ==> Edge(g, u, w))
    && (forall u, w :: Edge(g, u, w) && !Implied(g, u, w) ==> Edge(h, u, w))
  }

  /** Dropping implied edges, all or some of them, loses no reachability. */
  lemma {:induction false} ReachPreserved(g: Graph, h: Graph, u: Tx, w: Tx)
    requires Closed(g) && Acyclic(g) && BetweenGraphs(g, h) && u in g && Reach(g, u, w)
    ensures Reach(h, u, w)
    decreases |Between(g, u, w)|
  {
    ReachSplit(g, u, w);
    if u == w {
      ReachRefl(h, u);
    } else {
      var v :| Edge(g, u, v) && Reach(g, v, w);
      if v != w {
        Halves(g, h, u, v, w);
      } else if Implied(g, u, w) {
        var x :| Edge(g, u, x) && ReachPlus(g, x, w);
        ReachPlusReach(g, x, w);
        AcyclicDistinct(g, x, w);
        Halves(g, h, u, x, w);
      } else {
        ReachEdge(h, u, w);
      }
    }
  }

  lemma Halves(g: Graph, h: Graph, u: Tx, x: Tx, w: Tx)
    requires Closed(g) && Acyclic(g) && BetweenGraphs(g, h) && u in g
    requires Edge(g, u, x) && Reach(g, x, w) && x != w
    ensures Reach(h, u, w)
    decreases |Between(g, u, w)|, 0
  {
    ReachEdge(g, u, x);
    ReachTrans(g, u, x, w);
    ReachSplit(g, x, w);
    AcyclicDistinct(g, x, w);
    assert ReachPlus(g, u, x) by { ReachRefl(g, x); }
    AcyclicDistinct(g, u, x);
    ReachRefl(g, u);
    ReachRefl(g, w);
    ReachInGraph(g, x, w);
    forall y | y in Between(g, u, x) ensures y in Between(g, u, w) && y != w {
      ReachTrans(g, y, x, w);
    }
    forall y | y in Between(g, x, w) ensures y in Between(g, u, w) && y != u {
      ReachTrans(g, u, x, y);
    }
    StrictlyFewer(Between(g, u, x), Between(g, u, w), w);
    StrictlyFewer(Between(g, x, w), Between(g, u, w), u);
    ReachPreserved(g, h, u, x);
    ReachPreserved(g, h, x, w);
    ReachTrans(h, u, x, w);
  }

  lemma ReachInGraph(g: Graph, u: Tx, w: Tx)
    requires Closed(g) && u in g && Reach(g, u, w)
    ensures w in g
  {
    ClosedSet(g, g.Keys, u, w);
  }

  /** The reduced graph reaches exactly what the graph reaches. */
  lemma ReducedReach(g: Graph, u: Tx, w: Tx)
    requires Closed(g) && Acyclic(g) && u in g
    ensures Reach(Reduced(g), u, w) <==> Reach(g, u, w)
  {
    if Reach(g, u, w) { ReachPreserved(g, Reduced(g), u, w); }
    if Reach(Reduced(g), u, w) { ReachMonotone(Reduced(g), g, u, w); }
  }

  /** No edge of the reduced graph can be dropped: without it, its end is out of reach. */
  lemma ReducedMinimal(g: Graph, u: Tx, w: Tx)
    requires Closed(g) && Acyclic(g) && Edge(Reduced(g), u, w)
    ensures var r := Reduced(g); !Reach(r[u := r[u] - {w}], u, w)
  {
    var r := Reduced(g);
    var cut := r[u := r[u] - {w}];
    if Reach(cut, u, w) {
      assert ReachPlus(g, u, w) by { ReachRefl(g, w); }
      AcyclicDistinct(g, u, w);
      ReachSplit(cut, u, w);
      var v :| Edge(cut, u, v) && Reach(cut, v, w);
      ReachMonotone(cut, g, v, w);
      ReachSplit(g, v, w);
      assert Implied(g, u, w);
    }
  }

  class TransitiveReduction {
    var graph: Graph

    constructor (g: Graph)
      ensures graph == g
    {
      graph := g;
    }

    /** Whatever the order in which vertices and children are visited, the result is the one reduced
        graph. */
    method Reduce() returns (reduced: Graph)
      requires Closed(graph) && Acyclic(graph)
      modifies this
      ensures graph == reduced == Reduced(old(graph))
    {
      ghost var g := graph;
      var todo := graph.Keys;
      while todo != {}
        invariant todo <= g.Keys && graph.Keys == g.Keys
        invariant forall u :: u in todo ==> graph[u] == g[u]
        invariant forall u :: u in g.Keys - todo ==> graph[u] == Essential(g, u)
      {
        var u :| u in todo;
        ReduceVertex(g, u);
        todo := todo - {u};
      }
      assert graph == Reduced(g);
      reduced := graph;
    }

    /** The body of the outer loop: a depth-first search from each original child of `u`. */
    method ReduceVertex(ghost g: Graph, u: Tx)
      requires Closed(g) && Acyclic(g) && BetweenGraphs(g, graph) && u in g && graph[u] == g[u]
      modifies this
      ensures graph == old(graph)[u := Essential(g, u)]
    {
      var children := graph[u];
      var rest := children;
      while rest != {}
        invariant rest <= children == g[u]
        invariant u in graph && graph == old(graph)[u := graph[u]]
        invariant forall w :: w in graph[u] <==> w in g[u] && !ImpliedBy(g, children - rest, w)
      {
        var v :| v in rest;
        ghost var h := graph;
        assert BetweenGraphs(g, h) by {
          forall w | Edge(g, u, w) && !Implied(g, u, w) ensures Edge(h, u, w) { }
        }
        SearchFrom(g, u, v);
        rest := rest - {v};
        assert children - rest == children - (rest + {v}) + {v};
      }
      assert graph[u] == Essential(g, u);
    }

    method SearchFrom(ghost g: Graph, u: Tx, v: Tx)
      requires Closed(g) && Acyclic(g) && BetweenGraphs(g, graph) && Edge(g, u, v)
      modifies this
      ensures u in graph && graph == old(graph)[u := graph[u]]
      ensures forall w :: w in graph[u] <==> w in old(graph)[u] && !ReachPlus(g, v, w)
    {
      ghost var h := graph;
      ghost var below := set x | x in g && Reach(g, v, x);
      ReachRefl(g, v);
      assert u !in below by {
        assert Reach(g, v, u) ==> ReachPlus(g, u, u);
      }
      forall x, y | x in below && Edge(h, x, y) ensures y in below {
        ReachEdge(g, x, y);
        ReachTrans(g, v, x, y);
      }
      ReachRefl(h, v);
      var visited := ReduceByDfs(u, v, {v}, h, below, v);
      forall w ensures w in visited <==> Reach(h, v, w) {
        if Reach(h, v, w) { ClosedSet(h, visited, v, w); }
        ReachRefl(h, v);
      }
      forall w ensures ReachPlus(g, v, w) <==> w in visited && w != v {
        if ReachPlus(g, v, w) {
          ReachPlusReach(g, v, w);
          AcyclicDistinct(g, v, w);
          ReachPreserved(g, h, v, w);
        }
        if w in visited && w != v {
          ReachMonotone(h, g, v, w);
          ReachSplit(g, v, w);
        }
      }
    }

    /** Erases from the edges of `u` everything newly visited from `node`. `h` is the graph before the
        search and `below` what the search may visit, which does not include `u`. */
    method ReduceByDfs(u: Tx, node: Tx, visited: set<Tx>, ghost h: Graph, ghost below: set<Tx>, ghost root: Tx)
      returns (visited': set<Tx>)
      requires u in graph && graph.Keys == h.Keys && (forall x :: x in h && x != u ==> graph[x] == h[x])
      requires u !in below && below <= h.Keys && node in visited && visited <= below && Reach(h, root, node)
      requires forall x, y :: x in below && Edge(h, x, y) ==> y in below
      modifies this
      ensures graph == old(graph)[u := old(graph)[u] - (visited' - visited)]
      ensures visited <= visited' <= below
      ensures forall x :: x in visited' - visited ==> Reach(h, root, x)
      ensures forall x, y :: (x == node || x in visited' - visited) && Edge(h, x, y) ==> y in visited'
      decreases below - visited
    {
      visited' := visited;
      assert graph[u] == graph[u] - (visited' - visited);
      var rest := graph[node];
      while rest != {}
        invariant rest <= h[node]
        invariant u in graph && graph == old(graph)[u := old(graph)[u] - (visited' - visited)]
        invariant visited <= visited' <= below
        invariant forall x :: x in visited' - visited ==> Reach(h, root, x)
        invariant forall x, y :: x in visited' - visited && Edge(h, x, y) ==> y in visited'
        invariant h[node] - rest <= visited'
      {
        var w :| w in rest;
        assert Edge(h, node, w);
        if w !in visited' {
          if w in graph[u] {
            graph := graph[u := graph[u] - {w}];
          }
          assert graph[u] == old(graph)[u] - (visited' - visited) - {w};
          ReachEdge(h, node, w);
          ReachTrans(h, root, node, w);
          ghost var before := visited';
          visited' := ReduceByDfs(u, w, visited' + {w}, h, below, root);
          assert old(graph)[u] - (before - visited) - {w} - (visited' - (before + {w})) == old(graph)[u] - (visited' - visited);
        }
        rest := rest - {w};
      }
    }
  }

  /** Some member of `vs` has a non-empty path to `w`. */
  ghost predicate ImpliedBy(g: Graph, vs: set<Tx>, w: Tx) {
    exists v :: v in vs && ReachPlus(g, v, w)
  }
}
