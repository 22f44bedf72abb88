/** `CondensationGraph`: strongly connected components in topological order, by two depth-first
    passes. */
module Condensation {
  import opened Graphs
  import opened Sequences

  /** In the order in which vertices finish, the edges of each vertex and of those finished before it
      lead to vertices finished by then, or to vertices that reach it. */
  ghost predicate FinishOrder(g: Graph, order: seq<Tx>) {
    forall k :: 0 <= k < |order| ==> FinishedAt(g, order, k)
  }

  ghost predicate FinishedAt(g: Graph, order: seq<Tx>, k: nat)
    requires k < |order|
  {
    forall i, w :: 0 <= i <= k && Edge(g, order[i], w) ==> w in order[..k + 1] || Reach(g, w, order[k])
  }

  /** The parts are the classes of mutual reachability: every vertex is listed once, two vertices
      share a part exactly when each reaches the other, and no edge leads to an earlier part. */
  ghost predicate IsCondensation(g: Graph, parts: seq<seq<Tx>>) {
    && (forall u :: u in g <==> exists i :: 0 <= i < |parts| && u in parts[i])
    && (forall i :: 0 <= i < |parts| ==> Distinct(parts[i]) && |parts[i]| > 0)
    && (forall i, j, u :: 0 <= i < |parts| && 0 <= j < |parts| && u in parts[i] && u in parts[j] ==> i == j)
    && (forall i, u, w :: 0 <= i < |parts| && u in parts[i] ==> (w in parts[i] <==> w in g && Mutual(g, u, w)))
    && (forall i, j, u, w :: 0 <= i < |parts| && 0 <= j < |parts| && u in parts[i] && w in parts[j] && Edge(g, u, w) ==> i <= j)
  }

  /** A vertex that reaches another shares its class with a vertex finishing no earlier than that
      other one. */
  lemma {:induction false} ClassFinishesLast(g: Graph, order: seq<Tx>, i: nat, j: nat) returns (k: nat)
    requires Closed(g) && FinishOrder(g, order) && Distinct(order) && Elements(order) == g.Keys
    requires i < |order| && j < |order| && Reach(g, order[i], order[j])
    ensures j <= k < |order| && Mutual(g, order[i], order[k])
    decreases |order| - i
  {
    if j <= i {
      ReachRefl(g, order[i]);
      k := i;
    } else {
      var a, b := ExitEdge(g, Elements(order[..i + 1]), order[i], order[j]);
      assert b in Elements(order);
      var m :| 0 <= m < |order| && order[m] == b;
      assert FinishedAt(g, order, i);
      ReachEdge(g, a, b);
      ReachTrans(g, order[i], a, b);
      k := ClassFinishesLast(g, order, m, j);
      ReachTrans(g, order[i], b, order[k]);
      ReachTrans(g, order[k], b, order[i]);
    }
  }

  /** The transposed graph after the vertices in `done`. */
  ghost predicate PartlyTransposed(g: Graph, t: Graph, done: set<Tx>) {
    && done <= t.Keys <= g.Keys
    && (forall v :: v in t ==> t[v] == Parents(g, done, v))
    && (forall v :: v in g && v !in t ==> Parents(g, done, v) == {})
  }

  lemma RowTransposed(g: Graph, start: Graph, t: Graph, vertex: Tx, done: set<Tx>)
    requires Closed(g) && vertex in g && vertex in start && PartlyTransposed(g, start, done)
    requires t.Keys == start.Keys + g[vertex]
    requires forall v :: v in g[vertex] ==> t[v] == Parents(g, done, v) + {vertex}
    requires forall v :: v in start && v !in g[vertex] ==> t[v] == start[v]
    ensures PartlyTransposed(g, t, done + {vertex})
  {
    forall v ensures Parents(g, done + {vertex}, v) == if Edge(g, vertex, v) then Parents(g, done, v) + {vertex} else Parents(g, done, v) {
      ParentsStep(g, done, vertex, v);
    }
    forall v | v in g[vertex] ensures v in g { assert Edge(g, vertex, v); }
  }

  class CondensationGraph {
    var graph: Graph
    /** the vertices whose `visited` flag is set */
    var visited: set<Tx>
    var transposed: Graph
    /** a stack, its top at the end */
    var orderByFinishTime: seq<Tx>
    var condensation: seq<seq<Tx>>

    constructor (g: Graph)
      requires Closed(g)
      ensures graph == g && visited == {} && transposed == Transpose(g)
      ensures orderByFinishTime == [] && condensation == []
    {
      graph := g;
      visited := {};
      transposed := map[];
      orderByFinishTime, condensation := [], [];
      new;
      CreateTransposedGraph();
    }

    method CreateTransposedGraph()
      requires Closed(graph) && transposed == map[]
      modifies this`transposed
      ensures transposed == Transpose(graph)
    {
      var todo := graph.Keys;
      while todo != {}
        invariant todo <= graph.Keys
        invariant PartlyTransposed(graph, transposed, graph.Keys - todo)
      {
        var vertex :| vertex in todo;
        TransposeChildren(vertex, graph.Keys - todo);
        todo := todo - {vertex};
        assert graph.Keys - todo == graph.Keys - (todo + {vertex}) + {vertex};
      }
      assert forall v :: v in transposed ==> transposed[v] == Transpose(graph)[v];
    }

    /** The inner loop of `create_transposed_graph`, for one vertex. */
    method TransposeChildren(vertex: Tx, ghost done: set<Tx>)
      requires Closed(graph) && vertex in graph && vertex !in done
      requires PartlyTransposed(graph, transposed, done)
      modifies this`transposed
      ensures PartlyTransposed(graph, transposed, done + {vertex})
    {
      if vertex !in transposed { transposed := transposed[vertex := {}]; }
      ghost var start := transposed;
      assert PartlyTransposed(graph, start, done);
      var rest := graph[vertex];
      while rest != {}
        invariant rest <= graph[vertex]
        invariant transposed.Keys == start.Keys + (graph[vertex] - rest)
        invariant forall v :: v in graph[vertex] - rest ==> transposed[v] == Parents(graph, done, v) + {vertex}
        invariant forall v :: v in start && v !in graph[vertex] - rest ==> transposed[v] == start[v]
      {
        var child :| child in rest;
        assert Edge(graph, vertex, child);
        AddParent(child, vertex, start, done);
        rest := rest - {child};
      }
      RowTransposed(graph, start, transposed, vertex, done);
    }

    method AddParent(child: Tx, vertex: Tx, ghost start: Graph, ghost done: set<Tx>)
      requires child in graph && PartlyTransposed(graph, start, done)
      requires child in transposed ==> child in start && transposed[child] == start[child]
      requires child !in transposed ==> child !in start
      modifies this`transposed
      ensures transposed == old(transposed)[child := Parents(graph, done, child) + {vertex}]
    {
      var known := if child in transposed then transposed[child] else {};
      assert known == Parents(graph, done, child);
      transposed := transposed[child := known + {vertex}];
    }

    /** The first pass, from `vertex`. `grey` are the vertices whose exploration is under way. */
    method CreateOrderByFinishTime(vertex: Tx, ghost grey: set<Tx>)
      requires Closed(graph) && vertex in graph && vertex !in visited && visited <= graph.Keys
      requires visited == Elements(orderByFinishTime) + grey && grey !! Elements(orderByFinishTime)
      requires forall u :: u in grey ==> Reach(graph, u, vertex)
      requires FinishOrder(graph, orderByFinishTime) && Distinct(orderByFinishTime)
      requires forall u, w :: u in orderByFinishTime && Edge(graph, u, w) ==> w in visited
      modifies this`visited, this`orderByFinishTime
      ensures visited <= graph.Keys && old(visited) + {vertex} <= visited
      ensures visited == Elements(orderByFinishTime) + grey && grey !! Elements(orderByFinishTime)
      ensures FinishOrder(graph, orderByFinishTime) && Distinct(orderByFinishTime)
      ensures forall u, w :: u in orderByFinishTime && Edge(graph, u, w) ==> w in visited
      decreases graph.Keys - visited
    {
      visited := visited + {vertex};
      var rest := graph[vertex];
      while rest != {}
        invariant rest <= graph[vertex]
        invariant visited <= graph.Keys && old(visited) + {vertex} <= visited
        invariant visited == Elements(orderByFinishTime) + grey + {vertex}
        invariant grey + {vertex} !! Elements(orderByFinishTime)
        invariant FinishOrder(graph, orderByFinishTime) && Distinct(orderByFinishTime)
        invariant forall u, w :: u in orderByFinishTime && Edge(graph, u, w) ==> w in visited
        invariant graph[vertex] - rest <= visited
      {
        var child :| child in rest;
        assert Edge(graph, vertex, child);
        if child !in visited {
          forall u | u in grey + {vertex} ensures Reach(graph, u, child) {
            ReachRefl(graph, vertex);
            ReachEdge(graph, vertex, child);
            ReachTrans(graph, u, vertex, child);
          }
          CreateOrderByFinishTime(child, grey + {vertex});
        }
        rest := rest - {child};
      }
      ghost var before := orderByFinishTime;
      orderByFinishTime := orderByFinishTime + [vertex];
      FinishVertex(graph, before, vertex, grey);
    }

    /** The second pass, from `vertex`: appends to `scc` what was not visited before. */
    method GenerateScc(vertex: Tx, scc: seq<Tx>) returns (grown: seq<Tx>)
      requires Closed(graph) && transposed == Transpose(graph)
      requires vertex in graph && vertex !in visited && visited <= graph.Keys
      requires Distinct(scc) && Elements(scc) <= visited
      modifies this`visited
      ensures old(visited) + {vertex} <= visited <= graph.Keys
      ensures Distinct(grown) && scc <= grown && Elements(grown) == Elements(scc) + (visited - old(visited))
      ensures forall u :: u in visited - old(visited) ==> Reach(graph, u, vertex)
      ensures forall u, w :: w in visited - old(visited) && Edge(graph, u, w) ==> u in visited
      decreases graph.Keys - visited
    {
      visited := visited + {vertex};
      grown := scc + [vertex];
      ReachRefl(graph, vertex);
      var rest := transposed[vertex];
      while rest != {}
        invariant rest <= transposed[vertex]
        invariant old(visited) + {vertex} <= visited <= graph.Keys
        invariant Distinct(grown) && scc <= grown && Elements(grown) == Elements(scc) + (visited - old(visited))
        invariant forall u :: u in visited - old(visited) ==> Reach(graph, u, vertex)
        invariant forall u, w :: w in visited - old(visited) - {vertex} && Edge(graph, u, w) ==> u in visited
        invariant transposed[vertex] - rest <= visited
      {
        var child :| child in rest;
        assert Edge(graph, child, vertex);
        if child !in visited {
          ghost var before := visited;
          grown := GenerateScc(child, grown);
          ReachEdge(graph, child, vertex);
          forall u | u in visited - before ensures Reach(graph, u, vertex) {
            ReachTrans(graph, u, child, vertex);
          }
        }
        rest := rest - {child};
      }
    }

    /** One component of the second pass. */
    method CollectScc(vertex: Tx, ghost order: seq<Tx>, ghost top: nat)
      requires Closed(graph) && transposed == Transpose(graph)
      requires FinishOrder(graph, order) && Distinct(order) && Elements(order) == graph.Keys
      requires top < |order| && order[top] == vertex && vertex !in visited && Elements(order[top + 1..]) <= visited <= graph.Keys
      requires UpClosed(graph, visited) && PartsSoFar(graph, visited, condensation)
      modifies this`visited, this`condensation
      ensures old(visited) + {vertex} <= visited <= graph.Keys
      ensures UpClosed(graph, visited) && PartsSoFar(graph, visited, condensation)
    {
      ghost var before := visited;
      assert vertex in Elements(order);
      var scc := GenerateScc(vertex, []);
      IsClass(graph, order, top, before, visited);
      AddPart(graph, before, condensation, visited, scc);
      condensation := condensation + [scc];
    }

    method GetCondensationGraph() returns (parts: seq<seq<Tx>>)
      requires Closed(graph) && transposed == Transpose(graph)
      requires visited == {} && orderByFinishTime == [] && condensation == []
      modifies this
      ensures graph == old(graph) && transposed == old(transposed)
      ensures parts == condensation && IsCondensation(graph, parts)
    {
      OrderVertices();
      visited := {};
      ghost var order := orderByFinishTime;
      while orderByFinishTime != []
        invariant graph == old(graph) && transposed == old(transposed)
        invariant |orderByFinishTime| <= |order| && orderByFinishTime == order[..|orderByFinishTime|]
        invariant Elements(order[|orderByFinishTime|..]) <= visited <= graph.Keys
        invariant UpClosed(graph, visited)
        invariant PartsSoFar(graph, visited, condensation)
      {
        var vertex := orderByFinishTime[|orderByFinishTime| - 1];
        orderByFinishTime := orderByFinishTime[..|orderByFinishTime| - 1];
        assert vertex == order[|orderByFinishTime|] && vertex in Elements(order);
        assert order[|orderByFinishTime|..] == [vertex] + order[|orderByFinishTime| + 1..];
        if vertex !in visited { CollectScc(vertex, order, |orderByFinishTime|); }
      }
      parts := condensation;
      PartsComplete(graph, visited, parts);
    }

    /** The loop over all vertices that fills the stack. */
    method OrderVertices()
      requires Closed(graph) && visited == {} && orderByFinishTime == []
      modifies this`visited, this`orderByFinishTime
      ensures FinishOrder(graph, orderByFinishTime) && Distinct(orderByFinishTime)
      ensures Elements(orderByFinishTime) == graph.Keys
    {
      var todo := graph.Keys;
      while todo != {}
        invariant todo <= graph.Keys
        invariant graph.Keys - todo <= visited <= graph.Keys && visited == Elements(orderByFinishTime)
        invariant FinishOrder(graph, orderByFinishTime) && Distinct(orderByFinishTime)
        invariant forall u, w :: u in orderByFinishTime && Edge(graph, u, w) ==> w in visited
      {
        var vertex :| vertex in todo;
        if vertex !in visited {
          CreateOrderByFinishTime(vertex, {});
        }
        todo := todo - {vertex};
      }
    }
  }

  /** What one call of the second pass collects, between `before` and `after`, is exactly the class
      of the vertex it starts from. */
  lemma IsClass(g: Graph, order: seq<Tx>, top: nat, before: set<Tx>, after: set<Tx>)
    requires Closed(g) && FinishOrder(g, order) && Distinct(order) && Elements(order) == g.Keys
    requires top < |order| && order[top] !in before
    requires Elements(order[top + 1..]) <= before && UpClosed(g, before)
    requires before + {order[top]} <= after <= g.Keys
    requires forall u :: u in after - before ==> Reach(g, u, order[top])
    requires forall u, w :: w in after - before && Edge(g, u, w) ==> u in after
    ensures UpClosed(g, after)
    ensures forall u :: u in after - before <==> u in g && Mutual(g, u, order[top])
  {
    var root := order[top];
    assert root in Elements(order);
    forall u | u in after - before ensures Mutual(g, u, root) {
      var i :| 0 <= i < |order| && order[i] == u by { assert u in Elements(order); }
      var k := ClassFinishesLast(g, order, i, top);
      if k > top {
        assert order[k] == order[top + 1..][k - top - 1];
        UpClosedReach(g, before, u, order[k]);
        assert false;
      }
    }
    forall u | u in g && Mutual(g, u, root) ensures u in after - before {
      UpClosedReach(g, after, u, root);
      if u in before { UpClosedReach(g, before, root, u); }
    }
  }

  /** The parts found so far cover exactly the visited vertices. */
  ghost predicate PartsSoFar(g: Graph, visited: set<Tx>, parts: seq<seq<Tx>>) {
    && (forall u :: u in visited ==> exists i :: 0 <= i < |parts| && u in parts[i])
    && (forall i :: 0 <= i < |parts| ==> PartOk(g, visited, parts[i]))
    && (forall i, j, u :: 0 <= i < |parts| && 0 <= j < |parts| && u in parts[i] && u in parts[j] ==> i == j)
    && (forall i, j, u, w :: 0 <= i < |parts| && 0 <= j < |parts| && u in parts[i] && w in parts[j] && Edge(g, u, w) ==> i <= j)
  }

  ghost predicate PartOk(g: Graph, visited: set<Tx>, part: seq<Tx>) {
    && Distinct(part) && |part| > 0
    && (forall u :: u in part ==> u in visited && u in g)
    && (forall u, w :: u in part ==> (w in part <==> w in g && Mutual(g, u, w)))
  }

  lemma AddPart(g: Graph, before: set<Tx>, parts: seq<seq<Tx>>, after: set<Tx>, part: seq<Tx>)
    requires PartsSoFar(g, before, parts) && UpClosed(g, before) && before <= after <= g.Keys
    requires Distinct(part) && |part| > 0 && Elements(part) == after - before
    requires exists root :: root in g && forall u :: u in after - before <==> u in g && Mutual(g, u, root)
    ensures PartsSoFar(g, after, parts + [part])
  {
    var next := parts + [part];
    var root :| root in g && forall u :: u in after - before <==> u in g && Mutual(g, u, root);
    NewPartOk(g, before, after, part, root);
    forall u | u in after ensures exists i :: 0 <= i < |next| && u in next[i] {
      if u in before {
        var i :| 0 <= i < |parts| && u in parts[i];
        assert u in next[i];
      } else {
        assert u in Elements(part);
        assert u in next[|parts|];
      }
    }
    forall i | 0 <= i < |next| ensures PartOk(g, after, next[i]) {
      if i < |parts| { assert PartOk(g, before, parts[i]); }
    }
    NextApart(g, before, parts, after, part);
  }

  /** The new part shares no vertex with an earlier one, and no edge leads back from it. */
  lemma NextApart(g: Graph, before: set<Tx>, parts: seq<seq<Tx>>, after: set<Tx>, part: seq<Tx>)
    requires PartsSoFar(g, before, parts) && UpClosed(g, before) && Elements(part) == after - before
    ensures var next := parts + [part];
            && (forall i, j, u :: 0 <= i < |next| && 0 <= j < |next| && u in next[i] && u in next[j] ==> i == j)
            && (forall i, j, u, w :: 0 <= i < |next| && 0 <= j < |next| && u in next[i] && w in next[j] && Edge(g, u, w) ==> i <= j)
  {
    forall i, u | 0 <= i < |parts| && u in parts[i] ensures u in before {
      assert PartOk(g, before, parts[i]);
    }
    forall u | u in part ensures u !in before { assert u in Elements(part); }
  }

  lemma NewPartOk(g: Graph, before: set<Tx>, after: set<Tx>, part: seq<Tx>, root: Tx)
    requires before <= after <= g.Keys && Distinct(part) && |part| > 0 && Elements(part) == after - before
    requires forall u :: u in after - before <==> u in g && Mutual(g, u, root)
    ensures PartOk(g, after, part)
  {
    forall u ensures u in part <==> u in g && Mutual(g, u, root) { assert u in part <==> u in Elements(part); }
    forall u, w | u in part ensures w in part <==> w in g && Mutual(g, u, w) {
      if w in g && Mutual(g, u, w) {
        ReachTrans(g, w, u, root);
        ReachTrans(g, root, u, w);
      } else if w in part {
        ReachTrans(g, u, root, w);
        ReachTrans(g, w, root, u);
      }
    }
  }

  lemma PartsComplete(g: Graph, visited: set<Tx>, parts: seq<seq<Tx>>)
    requires PartsSoFar(g, visited, parts) && visited == g.Keys
    ensures IsCondensation(g, parts)
  {
    forall i | 0 <= i < |parts| ensures PartOk(g, visited, parts[i]) {}
  }

  /** Pushing a vertex whose edges all lead to finished vertices or to ones that reach it. */
  lemma FinishVertex(g: Graph, order: seq<Tx>, vertex: Tx, grey: set<Tx>)
    requires FinishOrder(g, order)
    requires forall u, w :: (u in order || u == vertex) && Edge(g, u, w) ==> w in order || w in grey || w == vertex
    requires forall u :: u in grey ==> Reach(g, u, vertex)
    ensures FinishOrder(g, order + [vertex])
  {
    var next := order + [vertex];
    forall k | 0 <= k < |next| ensures FinishedAt(g, next, k) {
      if k < |order| {
        assert FinishedAt(g, order, k);
        assert next[..k + 1] == order[..k + 1];
      } else {
        assert next[..k + 1] == next;
      }
    }
  }
}
