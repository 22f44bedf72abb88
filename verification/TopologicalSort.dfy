/** The topological sort of FlashOrder: Kahn's algorithm with a first-in first-out queue, followed by
    whatever lies on or behind a cycle in index order. */
module TopologicalSort {
  import opened Graphs
  import opened Sequences

  /** Ascending adjacency lists and in-degrees describe the graph `g` on the vertices below their length. */
  ghost predicate Represents(adj: seq<seq<Tx>>, indeg: seq<nat>, g: Graph) {
    && |indeg| == |adj| && Closed(g)
    && (forall u: nat :: u in g <==> u < |adj|)
    && (forall u :: 0 <= u < |adj| ==> Increasing(adj[u]) && forall v :: v in adj[u] <==> v in g[u])
    && (forall v :: 0 <= v < |adj| ==> indeg[v] == |Preds(g, v)|)
  }

  /** Every predecessor of an element comes before it. */
  ghost predicate PredsFirst(g: Graph, order: seq<Tx>) {
    forall k :: 0 <= k < |order| ==> Preds(g, order[k]) <= Elements(order[..k])
  }

  ghost predicate Blocked(g: Graph, rest: seq<Tx>, x: Tx) {
    exists p :: p in rest && Edge(g, p, x)
  }

  /** `sorted` and then `rest` list every vertex once; the sorted ones each after all their
      predecessors; each of the rest, in ascending order, has a predecessor among the rest. */
  ghost predicate IsTopologicalSort(g: Graph, sorted: seq<Tx>, rest: seq<Tx>) {
    && Distinct(sorted) && Increasing(rest)
    && Elements(sorted) !! Elements(rest) && Elements(sorted) + Elements(rest) == g.Keys
    && PredsFirst(g, sorted)
    && (forall x {:trigger Blocked(g, rest, x)} :: x in rest ==> Blocked(g, rest, x))
  }

  /** How much of `order` it takes to hold all predecessors of `v`: up to the last of them. */
  ghost function ReadyAt(g: Graph, order: seq<Tx>, v: Tx): (m: nat)
    ensures m <= |order|
  {
    if order == [] then 0
    else if Preds(g, v) <= Elements(order[..|order| - 1]) then ReadyAt(g, order[..|order| - 1], v)
    else |order|
  }

  /** `v` enters the queue before `w`: the last of its predecessors is sorted earlier, or it is released by
      the same one and has the smaller index. */
  ghost predicate Sooner(g: Graph, order: seq<Tx>, v: Tx, w: Tx) {
    var m, n := ReadyAt(g, order, v), ReadyAt(g, order, w);
    m < n || (m == n && v < w)
  }

  /** The vertices are sorted in the order in which they enter the queue. */
  ghost predicate InTurn(g: Graph, sorted: seq<Tx>) {
    forall i, j :: 0 <= i < j < |sorted| ==> Sooner(g, sorted, sorted[i], sorted[j])
  }

  /** `order` is the topological sort that the queue makes, with its fallback. */
  ghost predicate IsSortOf(g: Graph, order: seq<Tx>) {
    exists sorted, rest :: order == sorted + rest && IsTopologicalSort(g, sorted, rest) && InTurn(g, sorted)
  }

  /** All of the graph is sorted by Kahn's algorithm exactly when it has no cycle. */
  lemma SortedExactlyIfAcyclic(g: Graph, sorted: seq<Tx>, rest: seq<Tx>)
    requires Closed(g) && IsTopologicalSort(g, sorted, rest)
    ensures rest == [] <==> Acyclic(g)
  {
    if rest == [] {
      assert Elements(rest) == {};
      forall u ensures !ReachPlus(g, u, u) { NoCycleThrough(g, sorted, u); }
    } else {
      RestHasCycle(g, sorted, rest);
    }
  }

  lemma RestHasCycle(g: Graph, sorted: seq<Tx>, rest: seq<Tx>)
    requires Closed(g) && IsTopologicalSort(g, sorted, rest) && rest != []
    ensures !Acyclic(g)
  {
    forall x | x in rest ensures Preds(g, x) * Elements(rest) != {} {
      assert Blocked(g, rest, x);
      var p :| p in rest && Edge(g, p, x);
      assert p in Preds(g, x) * Elements(rest);
    }
    assert rest[0] in Elements(rest);
    if Acyclic(g) {
      var top := Topmost(g, Elements(rest), rest[0]);
    }
  }

  lemma NoCycleThrough(g: Graph, order: seq<Tx>, u: Tx)
    requires Closed(g) && Distinct(order) && Elements(order) == g.Keys && PredsFirst(g, order)
    ensures !ReachPlus(g, u, u)
  {
    if ReachPlus(g, u, u) {
      var w :| Edge(g, u, w) && Reach(g, w, u);
      assert w in Elements(order);
      var j :| 0 <= j < |order| && order[j] == w;
      assert u in Preds(g, order[j]);
      var later := Elements(order[j..]);
      forall a, b | a in later && Edge(g, a, b) ensures b in later {
        EdgeAscends(g, order, j, a, b);
      }
      assert order[j] in order[j..];
      ClosedSet(g, later, w, u);
      NotBothSides(order, j, u);
    }
  }

  lemma NotBothSides(order: seq<Tx>, j: nat, u: Tx)
    requires Distinct(order) && j <= |order|
    ensures u in order[..j] ==> u !in order[j..]
  {
  }

  lemma EdgeAscends(g: Graph, order: seq<Tx>, j: nat, a: Tx, b: Tx)
    requires Closed(g) && Distinct(order) && Elements(order) == g.Keys && PredsFirst(g, order)
    requires j <= |order| && a in order[j..] && Edge(g, a, b)
    ensures b in order[j..]
  {
    assert b in Elements(order);
    var q :| 0 <= q < |order| && order[q] == b;
    assert a in Preds(g, order[q]);
    LaterThan(order, j, q, a);
    assert order[j..][q - j] == b;
  }

  lemma LaterThan(order: seq<Tx>, j: nat, q: nat, a: Tx)
    requires Distinct(order) && j <= |order| && q <= |order| && a in order[j..] && a in order[..q]
    ensures j < q
  {
  }

  /** The predecessors of `v` that are not yet sorted. */
  ghost function Pending(g: Graph, order: seq<Tx>, v: Tx): set<Tx> {
    set p | p in Preds(g, v) && p !in order
  }

  lemma PendingStep(g: Graph, order: seq<Tx>, u: Tx, v: Tx)
    requires u in g && u !in order
    ensures |Pending(g, order + [u], v)| == |Pending(g, order, v)| - if Edge(g, u, v) then 1 else 0
  {
    assert Pending(g, order + [u], v) == Pending(g, order, v) - {u};
    assert u in Pending(g, order, v) <==> Edge(g, u, v);
  }

  /** Kahn's algorithm part way: `d` counts the predecessors not yet sorted, and the queue holds what
      has none left. */
  ghost predicate Sorting(g: Graph, d: seq<nat>, queue: seq<Tx>, order: seq<Tx>) {
    Shape(g, d, queue, order) && AllCount(g, d, queue, order) && PredsFirst(g, order)
  }

  ghost predicate Shape(g: Graph, d: seq<nat>, queue: seq<Tx>, order: seq<Tx>) {
    && (forall u: nat :: u in g <==> u < |d|)
    && Distinct(order) && Distinct(queue)
    && (forall x :: x in queue ==> x !in order && x in g)
    && (forall x :: x in order ==> x in g)
  }

  ghost predicate AllCount(g: Graph, d: seq<nat>, queue: seq<Tx>, order: seq<Tx>)
    requires forall u :: u in g ==> u < |d|
  {
    forall v :: v in g ==> Counts(g, d, queue, order, v)
  }

  ghost predicate Counts(g: Graph, d: seq<nat>, queue: seq<Tx>, order: seq<Tx>, v: Tx)
    requires v < |d|
  {
    d[v] == |Pending(g, order, v)| && (v in order || v in queue <==> d[v] == 0)
  }

  /** `u` has left the queue and is being released from the counts of its children, `done` of which
      have been dealt with. */
  ghost predicate Releasing(g: Graph, d: seq<nat>, queue: seq<Tx>, order: seq<Tx>, u: Tx, done: set<Tx>) {
    && u in g && u !in order && u !in queue && done <= g[u]
    && Shape(g, d, queue, order) && AllReleased(g, d, queue, order, u, done)
  }

  ghost predicate AllReleased(g: Graph, d: seq<nat>, queue: seq<Tx>, order: seq<Tx>, u: Tx, done: set<Tx>)
    requires forall x :: x in g ==> x < |d|
  {
    forall v :: v in g ==> Released(g, d, queue, order, u, done, v)
  }

  ghost predicate Released(g: Graph, d: seq<nat>, queue: seq<Tx>, order: seq<Tx>, u: Tx, done: set<Tx>, v: Tx)
    requires v < |d|
  {
    && d[v] == |Pending(g, if v in done then order + [u] else order, v)|
    && (v in order || v in queue || v == u <==> d[v] == 0)
  }

  lemma StartRelease(g: Graph, d: seq<nat>, queue: seq<Tx>, order: seq<Tx>)
    requires queue != [] && Sorting(g, d, queue, order)
    ensures Releasing(g, d, queue[1..], order, queue[0], {})
    ensures Preds(g, queue[0]) <= Elements(order)
  {
    var u, left := queue[0], queue[1..];
    assert queue == [u] + left;
    forall v | v in g ensures Released(g, d, left, order, u, {}, v) {
      assert Counts(g, d, queue, order, v);
    }
    assert u in queue && Shape(g, d, left, order);
    assert Counts(g, d, queue, order, u);
    forall p | p in Preds(g, u) ensures p in order { assert p !in Pending(g, order, u); }
  }

  lemma ReleaseStep(g: Graph, d: seq<nat>, queue: seq<Tx>, order: seq<Tx>, u: Tx, done: set<Tx>, v: Tx)
    requires Closed(g) && Releasing(g, d, queue, order, u, done) && Edge(g, u, v) && v !in done
    ensures v < |d| && d[v] > 0
    ensures Releasing(g, d[v := d[v] - 1], if d[v] == 1 then queue + [v] else queue, order, u, done + {v})
  {
    assert Released(g, d, queue, order, u, done, v);
    PendingStep(g, order, u, v);
    var d', queue' := d[v := d[v] - 1], if d[v] == 1 then queue + [v] else queue;
    assert v !in queue && v !in order && d[v] > 0;
    ShapeStep(g, d, queue, order, v, d', queue');
    forall x | x in g ensures Released(g, d', queue', order, u, done + {v}, x) {
      assert Released(g, d, queue, order, u, done, x);
      OneReleased(g, d, queue, order, u, done, v, d', queue', x);
    }
    assert AllReleased(g, d', queue', order, u, done + {v});
  }

  lemma ShapeStep(g: Graph, d: seq<nat>, queue: seq<Tx>, order: seq<Tx>, v: Tx, d': seq<nat>, queue': seq<Tx>)
    requires Shape(g, d, queue, order) && v in g && v !in queue && v !in order
    requires |d'| == |d| && (queue' == queue + [v] || queue' == queue)
    ensures Shape(g, d', queue', order)
  {
  }

  lemma OneReleased(g: Graph, d: seq<nat>, queue: seq<Tx>, order: seq<Tx>, u: Tx, done: set<Tx>, v: Tx,
          d': seq<nat>, queue': seq<Tx>, x: Tx)
    requires v < |d| && d[v] > 0 && v !in queue && v !in order && v !in done && x < |d| && Released(g, d, queue, order, u, done, x)
    requires |Pending(g, order + [u], v)| == |Pending(g, order, v)| - 1
    requires d' == d[v := d[v] - 1] && queue' == if d[v] == 1 then queue + [v] else queue
    requires d[v] == |Pending(g, order, v)| && u != v
    ensures Released(g, d', queue', order, u, done + {v}, x)
  {
    if x == v { assert v in queue' <==> d'[v] == 0; }
  }

  lemma EndRelease(g: Graph, d: seq<nat>, queue: seq<Tx>, order: seq<Tx>, u: Tx)
    requires u in g && Releasing(g, d, queue, order, u, g[u]) && Preds(g, u) <= Elements(order) && PredsFirst(g, order)
    ensures Sorting(g, d, queue, order + [u])
  {
    var next := order + [u];
    assert Shape(g, d, queue, next);
    forall v | v in g ensures Counts(g, d, queue, next, v) {
      assert Released(g, d, queue, order, u, g[u], v);
      CountsAgain(g, d, queue, order, u, v);
    }
    PredsFirstStep(g, order, u);
    assert AllCount(g, d, queue, next);
  }

  lemma CountsAgain(g: Graph, d: seq<nat>, queue: seq<Tx>, order: seq<Tx>, u: Tx, v: Tx)
    requires u in g && u !in order && v < |d| && Released(g, d, queue, order, u, g[u], v)
    ensures Counts(g, d, queue, order + [u], v)
  {
    PendingStep(g, order, u, v);
  }

  lemma PredsFirstStep(g: Graph, order: seq<Tx>, u: Tx)
    requires PredsFirst(g, order) && Preds(g, u) <= Elements(order)
    ensures PredsFirst(g, order + [u])
  {
    var next := order + [u];
    forall k | 0 <= k < |next| ensures Preds(g, next[k]) <= Elements(next[..k]) {
      assert next[..k] == order[..k];
    }
  }

  // ---------------------------------------------------------------- the order of the queue

  lemma ReadyKept(g: Graph, order: seq<Tx>, u: Tx, x: Tx)
    requires Preds(g, x) <= Elements(order)
    ensures ReadyAt(g, order + [u], x) == ReadyAt(g, order, x) <= |order|
  {
    assert (order + [u])[..|order|] == order;
  }

  lemma ReadyNow(g: Graph, order: seq<Tx>, u: Tx, x: Tx)
    requires Edge(g, u, x) && u !in order
    ensures ReadyAt(g, order + [u], x) == |order| + 1
  {
    assert (order + [u])[..|order|] == order;
    assert u in Preds(g, x);
  }

  /** All of `all`, the sorted vertices and the queue, are ready, and in the order in which they became so. */
  ghost predicate Queued(g: Graph, order: seq<Tx>, all: seq<Tx>) {
    && (forall x :: x in all ==> Preds(g, x) <= Elements(order))
    && (forall i, j :: 0 <= i < j < |all| ==> Sooner(g, order, all[i], all[j]))
  }

  /** While `u` is being released: whatever it made ready is among the children dealt with. */
  ghost predicate Turning(g: Graph, order: seq<Tx>, u: Tx, all: seq<Tx>, done: set<Tx>) {
    Queued(g, order + [u], all) && forall x :: x in all && ReadyAt(g, order + [u], x) > |order| ==> x in done
  }

  lemma TurnStart(g: Graph, order: seq<Tx>, u: Tx, all: seq<Tx>)
    requires Queued(g, order, all)
    ensures Turning(g, order, u, all, {})
  {
    forall x | x in all ensures ReadyAt(g, order + [u], x) == ReadyAt(g, order, x) <= |order| && Preds(g, x) <= Elements(order + [u]) {
      ReadyKept(g, order, u, x);
    }
    forall i, j | 0 <= i < j < |all| ensures Sooner(g, order + [u], all[i], all[j]) {
      assert Sooner(g, order, all[i], all[j]) && all[i] in all && all[j] in all;
    }
  }

  lemma TurnStep(g: Graph, order: seq<Tx>, u: Tx, all: seq<Tx>, done: set<Tx>, v: Tx)
    requires Turning(g, order, u, all, done) && Edge(g, u, v) && u !in order && Preds(g, v) <= Elements(order + [u])
    requires forall x :: x in done ==> x < v
    ensures Turning(g, order, u, all + [v], done + {v})
  {
    var next, more := order + [u], all + [v];
    ReadyNow(g, order, u, v);
    forall i, j | 0 <= i < j < |more| ensures Sooner(g, next, more[i], more[j]) {
      assert more[i] == all[i] && all[i] in all;
    }
  }

  lemma TurnSkip(g: Graph, order: seq<Tx>, u: Tx, all: seq<Tx>, done: set<Tx>, v: Tx)
    requires Turning(g, order, u, all, done)
    ensures Turning(g, order, u, all, done + {v})
  {
  }

  lemma NonePending(g: Graph, order: seq<Tx>, v: Tx)
    requires |Pending(g, order, v)| == 0
    ensures Preds(g, v) <= Elements(order)
  {
    forall p | p in Preds(g, v) ensures p in order { assert p !in Pending(g, order, v); }
  }

  /** What the release of one child does to the order of the queue. */
  lemma ChildInTurn(g: Graph, d: seq<nat>, queue: seq<Tx>, order: seq<Tx>, u: Tx, done: set<Tx>, v: Tx, d': seq<nat>, queue': seq<Tx>)
    requires Edge(g, u, v) && v in g && v < |d'| && forall x :: x in done ==> x < v
    requires Turning(g, order, u, order + [u] + queue, done)
    requires Releasing(g, d', queue', order, u, done + {v}) && queue' == if d'[v] == 0 then queue + [v] else queue
    ensures Turning(g, order, u, order + [u] + queue', done + {v})
  {
    var all := order + [u] + queue;
    if d'[v] == 0 {
      ReadyChild(g, d', queue', order, u, done + {v}, v);
      TurnStep(g, order, u, all, done, v);
      assert order + [u] + queue' == all + [v];
    } else {
      TurnSkip(g, order, u, all, done, v);
    }
  }

  lemma ReadyChild(g: Graph, d: seq<nat>, queue: seq<Tx>, order: seq<Tx>, u: Tx, done: set<Tx>, v: Tx)
    requires Releasing(g, d, queue, order, u, done) && v in g && v < |d| && v in done && d[v] == 0
    ensures u !in order && Preds(g, v) <= Elements(order + [u])
  {
    assert Released(g, d, queue, order, u, done, v);
    NonePending(g, order + [u], v);
  }

  /** The loop over the children of `u`. */
  method ReleaseChildren(adj: seq<seq<Tx>>, d: seq<nat>, queue: seq<Tx>, u: Tx, ghost g: Graph, ghost order: seq<Tx>)
    returns (d': seq<nat>, queue': seq<Tx>)
    requires Closed(g) && u < |adj| && u in g && Increasing(adj[u]) && (forall v :: v in adj[u] <==> v in g[u])
    requires Releasing(g, d, queue, order, u, {}) && Turning(g, order, u, order + [u] + queue, {})
    ensures Releasing(g, d', queue', order, u, g[u]) && |d'| == |d|
    ensures Queued(g, order + [u], order + [u] + queue')
  {
    d', queue' := d, queue;
    assert Elements(adj[u][..0]) == {};
    for k := 0 to |adj[u]|
      invariant |d'| == |d| && Releasing(g, d', queue', order, u, Elements(adj[u][..k]))
      invariant Turning(g, order, u, order + [u] + queue', Elements(adj[u][..k]))
    {
      var v := adj[u][k];
      NextChild(adj[u], k);
      assert v in adj[u];
      ghost var done, before, left := Elements(adj[u][..k]), d', queue';
      ReleaseStep(g, d', queue', order, u, done, v);
      d' := d'[v := d'[v] - 1];
      if d'[v] == 0 { queue' := queue' + [v]; }
      ChildInTurn(g, before, left, order, u, done, v, d', queue');
    }
    assert adj[u][..|adj[u]|] == adj[u] && Elements(adj[u]) == g[u];
  }

  lemma NextChild(children: seq<Tx>, k: nat)
    requires Increasing(children) && k < |children|
    ensures forall x :: x in children[..k] ==> x < children[k]
    ensures Elements(children[..k + 1]) == Elements(children[..k]) + {children[k]}
  {
    assert children[..k + 1] == children[..k] + [children[k]];
  }

  /** One turn of the queue: its first vertex is sorted and released from the counts of its children. */
  method Turn(adj: seq<seq<Tx>>, d: seq<nat>, queue: seq<Tx>, order: seq<Tx>, ghost indeg: seq<nat>, ghost g: Graph)
    returns (d': seq<nat>, queue': seq<Tx>, order': seq<Tx>)
    requires Represents(adj, indeg, g) && |d| == |adj| && queue != []
    requires Sorting(g, d, queue, order) && Queued(g, order, order + queue)
    ensures |d'| == |adj| && |order| < |order'| <= |adj|
    ensures Sorting(g, d', queue', order') && Queued(g, order', order' + queue')
  {
    var u := queue[0];
    TurnBegins(g, d, queue, order, u, queue[1..]);
    d', queue' := ReleaseChildren(adj, d, queue[1..], u, g, order);
    EndRelease(g, d', queue', order, u);
    order' := order + [u];
  }

  lemma TurnBegins(g: Graph, d: seq<nat>, queue: seq<Tx>, order: seq<Tx>, u: Tx, left: seq<Tx>)
    requires queue != [] && u == queue[0] && left == queue[1..]
    requires Sorting(g, d, queue, order) && Queued(g, order, order + queue)
    ensures u in g && Preds(g, u) <= Elements(order) && PredsFirst(g, order) && |order| < |d|
    ensures Releasing(g, d, left, order, u, {}) && Turning(g, order, u, order + [u] + left, {})
  {
    StartRelease(g, d, queue, order);
    RoomLeft(g, d, left, order, u);
    assert order + queue == order + [u] + left;
    TurnStart(g, order, u, order + queue);
  }

  method Sort(adj: seq<seq<Tx>>, indeg: seq<nat>, ghost g: Graph) returns (order: seq<Tx>)
    requires Represents(adj, indeg, g)
    ensures IsSortOf(g, order)
  {
    var d := indeg;
    var queue := Sources(d, g);
    order := [];
    assert order + queue == queue;
    while queue != []
      invariant |d| == |adj| && Sorting(g, d, queue, order) && Queued(g, order, order + queue)
      decreases |adj| - |order|
    {
      d, queue, order := Turn(adj, d, queue, order, indeg, g);
    }
    assert order + queue == order;
    var rest := Unsorted(d, order, g);
    order := order + rest;
  }

  lemma RoomLeft(g: Graph, d: seq<nat>, queue: seq<Tx>, order: seq<Tx>, u: Tx)
    requires Releasing(g, d, queue, order, u, {})
    ensures |order| < |d|
  {
    AtMost(|d|, order + [u]);
  }

  lemma AtMost(n: nat, s: seq<Tx>)
    requires Distinct(s) && forall x: nat :: x in s ==> x < n
    ensures |s| <= n
  {
    DistinctSize(s);
    DistinctSize(Iota(n));
    forall x | x in Elements(s) ensures x in Elements(Iota(n)) { assert Iota(n)[x] == x; }
    FewerOf(Elements(s), Elements(Iota(n)));
  }

  method Sources(d: seq<nat>, ghost g: Graph) returns (queue: seq<Tx>)
    requires (forall u: nat :: u in g <==> u < |d|) && forall v :: v in g ==> d[v] == |Preds(g, v)|
    ensures Sorting(g, d, queue, []) && Queued(g, [], queue)
  {
    queue := [];
    for i := 0 to |d|
      invariant Increasing(queue) && forall v: nat :: v in queue <==> v < i && d[v] == 0
    {
      assert forall k :: 0 <= k < |queue| ==> queue[k] in queue;
      if d[i] == 0 { queue := queue + [i]; }
    }
    SourcesSorting(g, d, queue);
    SourcesQueued(g, queue);
  }

  lemma SourcesSorting(g: Graph, d: seq<nat>, queue: seq<Tx>)
    requires (forall u: nat :: u in g <==> u < |d|) && forall v :: v in g ==> d[v] == |Preds(g, v)|
    requires Increasing(queue) && forall v: nat :: v in queue <==> v < |d| && d[v] == 0
    ensures Sorting(g, d, queue, []) && forall v :: v in queue ==> Preds(g, v) == {}
  {
    forall v | v in g ensures Counts(g, d, queue, [], v) {
      assert Pending(g, [], v) == Preds(g, v);
    }
    assert Shape(g, d, queue, []) && AllCount(g, d, queue, []) && PredsFirst(g, []);
  }

  lemma SourcesQueued(g: Graph, queue: seq<Tx>)
    requires Increasing(queue) && forall v :: v in queue ==> Preds(g, v) == {}
    ensures Queued(g, [], queue)
  {
  }

  /** The vertices that Kahn's algorithm did not reach, in index order. */
  method Unsorted(d: seq<nat>, sorted: seq<Tx>, ghost g: Graph) returns (rest: seq<Tx>)
    requires Sorting(g, d, [], sorted)
    ensures IsTopologicalSort(g, sorted, rest)
  {
    rest := [];
    if |sorted| != |d| {
      var vis: set<Tx> := {};
      for k := 0 to |sorted|
        invariant vis == Elements(sorted[..k])
      {
        assert sorted[..k + 1] == sorted[..k] + [sorted[k]];
        vis := vis + {sorted[k]};
      }
      assert sorted[..|sorted|] == sorted;
      rest := Unvisited(|d|, vis);
    } else {
      AllSorted(|d|, sorted);
    }
    RestBlocked(g, d, sorted, rest);
  }

  method Unvisited(n: nat, vis: set<Tx>) returns (rest: seq<Tx>)
    ensures forall x: nat :: x in rest <==> x < n && x !in vis
    ensures Increasing(rest)
  {
    rest := [];
    for i := 0 to n
      invariant forall x: nat :: x in rest <==> x < i && x !in vis
      invariant Increasing(rest)
    {
      if i !in vis {
        assert forall j :: 0 <= j < |rest| ==> rest[j] in rest;
        rest := rest + [i];
      }
    }
  }

  lemma AllSorted(n: nat, sorted: seq<Tx>)
    requires Distinct(sorted) && (forall x: nat :: x in sorted ==> x < n) && |sorted| == n
    ensures forall x: nat :: x < n ==> x in sorted
  {
    DistinctSize(sorted);
    DistinctSize(Iota(n));
    forall x | x in Elements(sorted) ensures x in Elements(Iota(n)) { assert Iota(n)[x] == x; }
    forall x: nat | x < n ensures x in sorted {
      if x !in sorted {
        assert Iota(n)[x] == x;
        StrictlyFewer(Elements(sorted), Elements(Iota(n)), x);
      }
    }
  }

  lemma RestBlocked(g: Graph, d: seq<nat>, sorted: seq<Tx>, rest: seq<Tx>)
    requires Sorting(g, d, [], sorted) && Increasing(rest)
    requires forall x: nat :: x in rest <==> x < |d| && x !in sorted
    ensures IsTopologicalSort(g, sorted, rest)
  {
    forall v | v in rest ensures Blocked(g, rest, v) {
      assert Counts(g, d, [], sorted, v);
      var p :| p in Pending(g, sorted, v);
      assert p in rest && Edge(g, p, v);
    }
    assert Elements(sorted) + Elements(rest) == g.Keys;
  }
}
