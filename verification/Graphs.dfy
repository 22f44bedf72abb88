/** Directed graphs kept as adjacency maps, as all graph code here keeps them, and reachability. */
module Graphs {
  import opened Sequences

  /** Transaction hashes are opaque identities; their order is the order of the hashes. */
  type Tx = nat

  type Graph = map<Tx, set<Tx>>

  predicate Edge(g: Graph, u: Tx, v: Tx) {
    u in g && v in g[u]
  }

  /** Every child is itself a key. */
  ghost predicate Closed(g: Graph) {
    forall u, v :: Edge(g, u, v) ==> v in g
  }

  ghost predicate IsPath(g: Graph, p: seq<Tx>) {
    |p| > 0 && forall i :: 0 <= i < |p| - 1 ==> Edge(g, p[i], p[i + 1])
  }

  ghost predicate PathFromTo(g: Graph, p: seq<Tx>, u: Tx, v: Tx) {
    IsPath(g, p) && p[0] == u && p[|p| - 1] == v
  }

  /** `v` can be reached from `u` by zero or more edges. */
  ghost predicate Reach(g: Graph, u: Tx, v: Tx) {
    exists p :: PathFromTo(g, p, u, v)
  }

  /** `v` can be reached from `u` by one or more edges. */
  ghost predicate ReachPlus(g: Graph, u: Tx, v: Tx) {
    exists w :: Edge(g, u, w) && Reach(g, w, v)
  }

  ghost predicate Mutual(g: Graph, u: Tx, v: Tx) {
    Reach(g, u, v) && Reach(g, v, u)
  }

  ghost predicate Acyclic(g: Graph) {
    forall u :: !ReachPlus(g, u, u)
  }

  ghost function Transpose(g: Graph): Graph {
    map v | v in g :: set u | u in g && v in g[u]
  }

  /** The members of `done` with an edge to `v`. */
  function Parents(g: Graph, done: set<Tx>, v: Tx): set<Tx> {
    set u | u in done && Edge(g, u, v)
  }

  lemma ParentsStep(g: Graph, done: set<Tx>, u: Tx, v: Tx)
    ensures Parents(g, done + {u}, v) == if Edge(g, u, v) then Parents(g, done, v) + {u} else Parents(g, done, v)
  {
  }

  lemma ReachRefl(g: Graph, u: Tx)
    ensures Reach(g, u, u)
  {
    assert PathFromTo(g, [u], u, u);
  }

  lemma ReachTrans(g: Graph, u: Tx, v: Tx, w: Tx)
    requires Reach(g, u, v) && Reach(g, v, w)
    ensures Reach(g, u, w)
  {
    var p :| PathFromTo(g, p, u, v);
    var q :| PathFromTo(g, q, v, w);
    var r := p + q[1..];
    forall i | 0 <= i < |r| - 1 ensures Edge(g, r[i], r[i + 1]) {
      if i >= |p| - 1 {
        assert r[i] == q[i - |p| + 1] && r[i + 1] == q[i - |p| + 2];
      }
    }
    assert PathFromTo(g, r, u, w);
  }

  lemma ReachEdge(g: Graph, u: Tx, v: Tx)
    requires Edge(g, u, v)
    ensures Reach(g, u, v)
  {
    assert PathFromTo(g, [u, v], u, v);
  }

  /** A path out of a set leaves it through some edge. */
  lemma {:induction false} ExitEdge(g: Graph, s: set<Tx>, u: Tx, v: Tx) returns (a: Tx, b: Tx)
    requires Reach(g, u, v) && u in s && v !in s
    ensures a in s && b !in s && Edge(g, a, b) && Reach(g, u, a) && Reach(g, b, v)
  {
    var p :| PathFromTo(g, p, u, v);
    var i := 0;
    while p[i + 1] in s
      invariant 0 <= i < |p| - 1 && p[i] in s
      decreases |p| - i
    {
      i := i + 1;
    }
    a, b := p[i], p[i + 1];
    assert PathFromTo(g, p[..i + 1], u, a);
    assert PathFromTo(g, p[i + 1..], b, v);
  }

  /** A set closed under edges is closed under reachability. */
  lemma ClosedSet(g: Graph, s: set<Tx>, u: Tx, v: Tx)
    requires u in s && Reach(g, u, v)
    requires forall a, b :: a in s && Edge(g, a, b) ==> b in s
    ensures v in s
  {
    if v !in s {
      var a, b := ExitEdge(g, s, u, v);
    }
  }

  /** A set that contains every predecessor of its members. */
  ghost predicate UpClosed(g: Graph, s: set<Tx>) {
    forall u, w :: Edge(g, u, w) && w in s ==> u in s
  }

  lemma UpClosedReach(g: Graph, s: set<Tx>, u: Tx, w: Tx)
    requires UpClosed(g, s) && Reach(g, u, w) && w in s
    ensures u in s
  {
    if u !in s {
      ReachSplit(g, u, w);
      var outside := set x | x in g && x !in s;
      var a, b := ExitEdge(g, outside, u, w);
      ReachSplit(g, b, w);
    }
  }

  lemma ReachSplit(g: Graph, u: Tx, v: Tx)
    requires Reach(g, u, v)
    ensures u == v || ReachPlus(g, u, v)
  {
    if u != v {
      var a, b := ExitEdge(g, {u}, u, v);
    }
  }

  lemma ReachPlusReach(g: Graph, u: Tx, v: Tx)
    requires ReachPlus(g, u, v)
    ensures Reach(g, u, v)
  {
    var w :| Edge(g, u, w) && Reach(g, w, v);
    ReachEdge(g, u, w);
    ReachTrans(g, u, w, v);
  }

  lemma PlusThenReach(g: Graph, u: Tx, v: Tx, w: Tx)
    requires ReachPlus(g, u, v) && Reach(g, v, w)
    ensures ReachPlus(g, u, w)
  {
    var x :| Edge(g, u, x) && Reach(g, x, v);
    ReachTrans(g, x, v, w);
  }

  /** Fewer edges reach no more. */
  lemma ReachMonotone(g: Graph, h: Graph, u: Tx, v: Tx)
    requires Reach(g, u, v) && forall a, b :: Edge(g, a, b) ==> Edge(h, a, b)
    ensures Reach(h, u, v)
  {
    var p :| PathFromTo(g, p, u, v);
    assert PathFromTo(h, p, u, v);
  }

  lemma AcyclicDistinct(g: Graph, u: Tx, v: Tx)
    requires Acyclic(g) && ReachPlus(g, u, v)
    ensures u != v && !Reach(g, v, u)
  {
    if Reach(g, v, u) {
      PlusThenReach(g, u, v, u);
    }
  }

  function Preds(g: Graph, x: Tx): set<Tx> {
    Parents(g, g.Keys, x)
  }

  /** A non-empty set of vertices that are on no cycle has a member without predecessors in it. */
  lemma {:induction false} Topmost(g: Graph, s: set<Tx>, x: Tx) returns (top: Tx)
    requires Closed(g) && s <= g.Keys && x in s && forall y :: y in s ==> !ReachPlus(g, y, y)
    ensures top in s && Preds(g, top) !! s
    decreases |set y | y in g && Reach(g, y, x)|
  {
    if Preds(g, x) !! s {
      top := x;
    } else {
      var p :| p in Preds(g, x) && p in s;
      assert Edge(g, p, x);
      ReachEdge(g, p, x);
      ReachRefl(g, x);
      assert ReachPlus(g, p, x);
      var all, above := set y | y in g && Reach(g, y, x), set y | y in g && Reach(g, y, p);
      forall y | y in above ensures y in all { ReachTrans(g, y, p, x); }
      if x in above { PlusThenReach(g, p, x, p); }
      StrictlyFewer(above, all, x);
      top := Topmost(g, s, p);
    }
  }

  /** The last edge of a path with at least one. */
  lemma LastEdge(g: Graph, u: Tx, v: Tx) returns (p: Tx)
    requires ReachPlus(g, u, v)
    ensures Reach(g, u, p) && Edge(g, p, v)
  {
    var w :| Edge(g, u, w) && Reach(g, w, v);
    if w == v {
      ReachRefl(g, u);
      p := u;
    } else {
      var q :| PathFromTo(g, q, w, v);
      p := q[|q| - 2];
      assert Edge(g, q[|q| - 2], q[|q| - 2 + 1]);
      assert PathFromTo(g, q[..|q| - 1], w, p);
      ReachEdge(g, u, w);
      ReachTrans(g, u, w, p);
    }
  }
}
