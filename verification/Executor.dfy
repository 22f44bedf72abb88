/** `ThreadPool`: worker threads that execute the transactions of a dependency graph, each after its
    predecessors. A step is what one worker does under one lock, or between two locks. */
module Executor {
  import opened Graphs
  import opened Sequences

  /** Where a worker stands in the loop of `execute`:
      `Idle`: at the loop test or waiting in `pop`.
      `Popped`: `pop` returned a transaction.
      `Testing`: past the termination test, before the lock on `n_incoming`.
      `Claimed`: about to execute the transaction.
      `AtLeaf`: executed a transaction without children, before the lock on `leaf_count`.
      `Pushing`: executed a transaction, children of which are left to push.
      `Stopped`: returned. */
  datatype Worker =
    | Idle
    | Popped(tx: Tx)
    | Testing(tx: Tx)
    | Claimed(tx: Tx)
    | AtLeaf(tx: Tx)
    | Pushing(tx: Tx, rest: set<Tx>)
    | Stopped

  /** The shared state. New transactions enter the queue at its front and leave at its back;
      `decided` lists the calls of `do_decide`. */
  datatype Pool = Pool(
    queue: seq<Tx>,
    incoming: map<Tx, nat>,
    leafCount: nat,
    terminated: bool,
    workers: seq<Worker>,
    decided: seq<Tx>)

  function Roots(g: Graph): set<Tx> {
    set x | x in g && Preds(g, x) == {}
  }

  function Leaves(g: Graph): set<Tx> {
    LeavesIn(g, g.Keys)
  }

  function LeavesIn(g: Graph, done: set<Tx>): set<Tx> {
    set x | x in done && x in g && g[x] == {}
  }

  // ---------------------------------------------------------------- counting up the graph

  /** The counters after the vertices in `done`. */
  ghost predicate CountedUp(g: Graph, nIncoming: map<Tx, nat>, done: set<Tx>) {
    nIncoming.Keys == g.Keys && forall x :: x in g ==> nIncoming[x] == |Parents(g, done, x)|
  }

  /** The vertices still to do and those done make up all of them. */
  ghost predicate Split(all: set<Tx>, todo: set<Tx>, done: set<Tx>) {
    todo !! done && todo + done == all
  }

  lemma SplitStep(all: set<Tx>, todo: set<Tx>, done: set<Tx>, u: Tx)
    requires Split(all, todo, done) && u in todo
    ensures Split(all, todo - {u}, done + {u}) && |todo - {u}| < |todo|
  {
  }

  /** `GraphOperation`: incoming edges per vertex, the roots and the number of leaves. */
  class GraphOperation {
    var nIncoming: map<Tx, nat>
    var leafCount: nat
    var roots: set<Tx>

    constructor (g: Graph)
      requires Closed(g)
      ensures CountedUp(g, nIncoming, g.Keys)
      ensures leafCount == |Leaves(g)| && roots == Roots(g)
    {
      nIncoming, leafCount, roots := map x | x in g :: 0, 0, {};
      new;
      assert forall x :: Parents(g, {}, x) == {};
      assert CountedUp(g, nIncoming, {});
      CountVertices(g);
      FindRoots(g);
    }

    method CountVertices(g: Graph)
      requires Closed(g) && CountedUp(g, nIncoming, {}) && leafCount == 0
      modifies this`nIncoming, this`leafCount
      ensures CountedUp(g, nIncoming, g.Keys) && leafCount == |Leaves(g)|
    {
      var todo := g.Keys;
      ghost var done: set<Tx> := {};
      assert LeavesIn(g, done) == {};
      while todo != {}
        invariant Split(g.Keys, todo, done)
        invariant CountedUp(g, nIncoming, done) && leafCount == |LeavesIn(g, done)|
        decreases |todo|
      {
        var u :| u in todo;
        CountVertex(g, u, done);
        SplitStep(g.Keys, todo, done, u);
        todo, done := todo - {u}, done + {u};
      }
      assert done == g.Keys;
    }

    method CountVertex(g: Graph, u: Tx, ghost done: set<Tx>)
      requires Closed(g) && u in g && u !in done && CountedUp(g, nIncoming, done) && leafCount == |LeavesIn(g, done)|
      modifies this`nIncoming, this`leafCount
      ensures CountedUp(g, nIncoming, done + {u}) && leafCount == |LeavesIn(g, done + {u})|
    {
      LeavesStep(g, done, u);
      if g[u] == {} {
        leafCount := leafCount + 1;
        forall x { ParentsStep(g, done, u, x); }
      } else {
        CountChildren(g, u, done);
      }
    }

    method CountChildren(g: Graph, u: Tx, ghost done: set<Tx>)
      requires Closed(g) && u in g && u !in done && CountedUp(g, nIncoming, done)
      modifies this`nIncoming
      ensures CountedUp(g, nIncoming, done + {u})
    {
      var rest := g[u];
      while rest != {}
        invariant rest <= g[u] && nIncoming.Keys == g.Keys
        invariant forall x :: x in g[u] - rest ==> x in g && nIncoming[x] == |Parents(g, done, x)| + 1
        invariant forall x :: x in g && x !in g[u] - rest ==> nIncoming[x] == |Parents(g, done, x)|
      {
        var child :| child in rest;
        assert Edge(g, u, child);
        nIncoming := nIncoming[child := nIncoming[child] + 1];
        rest := rest - {child};
      }
      forall x | x in g ensures nIncoming[x] == |Parents(g, done + {u}, x)| {
        ParentsStep(g, done, u, x);
      }
    }

    method FindRoots(g: Graph)
      requires CountedUp(g, nIncoming, g.Keys) && roots == {}
      modifies this`roots
      ensures roots == Roots(g)
    {
      var rest := nIncoming.Keys;
      while rest != {}
        invariant rest <= g.Keys
        invariant roots == Roots(g) - rest
      {
        var x :| x in rest;
        assert x in Roots(g) <==> nIncoming[x] == 0;
        if nIncoming[x] == 0 { roots := roots + {x}; }
        rest := rest - {x};
      }
    }
  }

  lemma LeavesStep(g: Graph, done: set<Tx>, u: Tx)
    requires u in g && u !in done
    ensures LeavesIn(g, done + {u}) == if g[u] == {} then LeavesIn(g, done) + {u} else LeavesIn(g, done)
  {
  }

  // ---------------------------------------------------------------- steps

  ghost predicate Init(g: Graph, s: Pool) {
    && multiset(s.queue) == multiset(Roots(g))
    && CountedUp(g, s.incoming, g.Keys)
    && s.leafCount == |Leaves(g)|
    && !s.terminated && s.decided == []
    && |s.workers| > 0 && (forall w :: 0 <= w < |s.workers| ==> s.workers[w] == Idle)
  }

  /** The constructor of `ThreadPool` with the workers of `start_execute_parallel`. */
  method Start(g: Graph, poolSize: nat) returns (s: Pool)
    requires Closed(g) && poolSize > 0
    ensures Init(g, s) && |s.workers| == poolSize
  {
    var op := new GraphOperation(g);
    var queue := PushAll(op.roots);
    s := Pool(queue, op.nIncoming, op.leafCount, false, seq(poolSize, _ => Idle), []);
  }

  method PushAll(roots: set<Tx>) returns (queue: seq<Tx>)
    ensures multiset(queue) == multiset(roots)
  {
    queue := [];
    var rest := roots;
    while rest != {}
      invariant rest <= roots && multiset(queue) == multiset(roots - rest)
    {
      var root :| root in rest;
      assert roots - (rest - {root}) == roots - rest + {root};
      queue := [root] + queue;
      rest := rest - {root};
    }
    assert roots - rest == roots;
  }

  function Become(s: Pool, w: nat, to: Worker): Pool
    requires w < |s.workers|
  {
    s.(workers := s.workers[w := to])
  }

  /** Worker `w` takes one step. */
  ghost predicate StepBy(g: Graph, s: Pool, w: nat, s': Pool)
    requires w < |s.workers|
  {
    match s.workers[w]
    case Idle =>
      if s.terminated then s' == Become(s, w, Stopped)
      else
        && s.queue != []
        && s' == Become(s, w, Popped(s.queue[|s.queue| - 1])).(queue := s.queue[..|s.queue| - 1])
    case Popped(tx) =>
      s' == Become(s, w, if s.terminated then Stopped else Testing(tx))
    case Testing(tx) =>
      && tx in s.incoming
      && (if s.incoming[tx] == 0 then s' == Become(s, w, Claimed(tx))
          else s' == Become(s, w, if s.incoming[tx] > 1 then Idle else Claimed(tx))
                     .(incoming := s.incoming[tx := s.incoming[tx] - 1]))
    case Claimed(tx) =>
      && tx in g
      && s' == Become(s, w, if g[tx] == {} then AtLeaf(tx) else Pushing(tx, g[tx])).(decided := s.decided + [tx])
    case AtLeaf(tx) =>
      && s.leafCount > 0
      && (if s.queue == [] && s.leafCount == 1
          then s' == Become(s, w, Stopped).(leafCount := 0, terminated := true)
          else s' == Become(s, w, Idle).(leafCount := s.leafCount - 1))
    case Pushing(tx, rest) =>
      exists child :: child in rest
        && s' == Become(s, w, if rest == {child} then Idle else Pushing(tx, rest - {child})).(queue := [child] + s.queue)
    case Stopped => false
  }

  ghost predicate Next(g: Graph, s: Pool, s': Pool) {
    exists w :: 0 <= w < |s.workers| && StepBy(g, s, w, s')
  }

  ghost predicate IsRun(g: Graph, run: seq<Pool>) {
    && |run| > 0 && Init(g, run[0])
    && forall i :: 0 <= i < |run| - 1 ==> Next(g, run[i], run[i + 1])
  }

  // ---------------------------------------------------------------- invariant

  /** How many workers hold `x` between the queue and the lock on `n_incoming`. */
  ghost function Held(ws: seq<Worker>, x: Tx): nat {
    if ws == [] then 0 else Held(ws[..|ws| - 1], x) + HeldBy(ws[|ws| - 1], x)
  }

  ghost function HeldBy(w: Worker, x: Tx): nat {
    if (w.Popped? || w.Testing?) && w.tx == x then 1 else 0
  }

  /** How often `x` was pushed and not yet counted against its incoming edges. */
  ghost function Tokens(s: Pool, x: Tx): nat {
    multiset(s.queue)[x] + Held(s.workers, x)
  }

  /** A worker that executes, or has yet to finish after executing, `tx`. */
  ghost predicate Owns(w: Worker, tx: Tx) {
    (w.Claimed? || w.AtLeaf? || w.Pushing?) && w.tx == tx
  }

  ghost predicate SomeClaimed(s: Pool, x: Tx) {
    exists w :: 0 <= w < |s.workers| && s.workers[w] == Claimed(x)
  }

  ghost predicate SomeAtLeaf(s: Pool, x: Tx) {
    exists w :: 0 <= w < |s.workers| && s.workers[w] == AtLeaf(x)
  }

  /** Some worker has yet to push the child `x` of `p`. */
  ghost predicate SomePushing(s: Pool, p: Tx, x: Tx) {
    exists w :: 0 <= w < |s.workers| && s.workers[w].Pushing? && s.workers[w].tx == p && x in s.workers[w].rest
  }

  ghost predicate Started(s: Pool, x: Tx) {
    x in s.decided || SomeClaimed(s, x)
  }

  /** The predecessors of `x` that have not pushed it yet. */
  ghost function Unreleased(g: Graph, s: Pool, x: Tx): set<Tx> {
    set p | p in Preds(g, x) && (p !in s.decided || SomePushing(s, p, x))
  }

  /** The leaves that `leaf_count` still counts. */
  ghost function Uncounted(g: Graph, s: Pool): set<Tx> {
    set x | x in Leaves(g) && (x !in s.decided || SomeAtLeaf(s, x))
  }

  ghost predicate VertexInv(g: Graph, s: Pool, x: Tx)
    requires x in s.incoming
  {
    if Preds(g, x) == {} then
      s.incoming[x] == 0 && Tokens(s, x) == if Started(s, x) then 0 else 1
    else
      s.incoming[x] == |Unreleased(g, s, x)| + Tokens(s, x) && (Started(s, x) <==> s.incoming[x] == 0)
  }

  ghost predicate WorkerInv(g: Graph, s: Pool, w: Worker) {
    match w
    case Popped(tx) => tx in g
    case Testing(tx) => tx in g
    case Claimed(tx) => tx in g && tx !in s.decided
    case AtLeaf(tx) => tx in Leaves(g) && tx in s.decided
    case Pushing(tx, rest) => tx in g && tx in s.decided && rest != {} && rest <= g[tx]
    case Stopped => s.terminated
    case Idle => true
  }

  ghost predicate DecidedInv(g: Graph, s: Pool) {
    && (forall i :: 0 <= i < |s.decided| ==> s.decided[i] in g && Preds(g, s.decided[i]) <= set p | p in s.decided[..i])
    && Distinct(s.decided)
  }

  ghost predicate SoleOwners(s: Pool) {
    forall v, w, x :: 0 <= v < w < |s.workers| && Owns(s.workers[v], x) ==> !Owns(s.workers[w], x)
  }

  ghost predicate Inv(g: Graph, s: Pool) {
    && s.incoming.Keys == g.Keys
    && |s.workers| > 0
    && (forall x :: x in s.queue ==> x in g)
    && (forall x {:trigger VertexInv(g, s, x)} :: x in g ==> VertexInv(g, s, x))
    && (forall w {:trigger WorkerInv(g, s, s.workers[w])} :: 0 <= w < |s.workers| ==> WorkerInv(g, s, s.workers[w]))
    && SoleOwners(s)
    && DecidedInv(g, s)
    && s.leafCount == |Uncounted(g, s)|
    && (s.terminated <==> s.leafCount == 0)
  }

  // ---------------------------------------------------------------- what the invariant implies

  /** Following edges down from a vertex of an acyclic graph ends in a leaf. */
  lemma {:induction false} LeafBelow(g: Graph, x: Tx) returns (leaf: Tx)
    requires Closed(g) && Acyclic(g) && x in g
    ensures leaf in Leaves(g) && Reach(g, x, leaf)
    decreases |set y | y in g && Reach(g, x, y)|
  {
    if g[x] == {} {
      ReachRefl(g, x);
      leaf := x;
    } else {
      var c :| c in g[x];
      assert Edge(g, x, c);
      ReachEdge(g, x, c);
      ReachRefl(g, x);
      assert ReachPlus(g, x, c) by { ReachRefl(g, c); }
      AcyclicDistinct(g, x, c);
      var all, below := set y | y in g && Reach(g, x, y), set y | y in g && Reach(g, c, y);
      forall y | y in below ensures y in all { ReachTrans(g, x, c, y); }
      StrictlyFewer(below, all, x);
      leaf := LeafBelow(g, c);
      ReachTrans(g, x, c, leaf);
    }
  }

  ghost predicate AllDecided(g: Graph, s: Pool) {
    forall x :: x in g ==> x in s.decided
  }

  /** Once all leaves are decided, everything is. */
  lemma LeavesDecideAll(g: Graph, s: Pool)
    requires Closed(g) && Acyclic(g) && Inv(g, s)
    requires forall x :: x in Leaves(g) ==> x in s.decided
    ensures AllDecided(g, s)
  {
    var done := set x | x in s.decided;
    forall u, w | Edge(g, u, w) && w in done ensures u in done {
      var i :| 0 <= i < |s.decided| && s.decided[i] == w;
      assert u in Preds(g, w);
    }
    forall x | x in g ensures x in s.decided {
      var leaf := LeafBelow(g, x);
      UpClosedReach(g, done, x, leaf);
    }
  }

  lemma {:induction false} HeldIn(ws: seq<Worker>, w: nat, x: Tx)
    requires w < |ws|
    ensures HeldBy(ws[w], x) <= Held(ws, x)
  {
    if w < |ws| - 1 {
      HeldIn(ws[..|ws| - 1], w, x);
    }
  }

  lemma {:induction false} HeldUpdate(ws: seq<Worker>, w: nat, to: Worker, x: Tx)
    requires w < |ws|
    ensures Held(ws[w := to], x) + HeldBy(ws[w], x) == Held(ws, x) + HeldBy(to, x)
  {
    var last := |ws| - 1;
    if w == last {
      assert ws[w := to][..last] == ws[..last];
    } else {
      assert ws[w := to][..last] == ws[..last][w := to];
      HeldUpdate(ws[..last], w, to, x);
    }
  }

  /** A worker on its way from the queue holds a token. */
  lemma HolderToken(s: Pool, w: nat)
    requires w < |s.workers|
    ensures s.workers[w].Popped? || s.workers[w].Testing? ==> Tokens(s, s.workers[w].tx) > 0
  {
    if s.workers[w].Popped? || s.workers[w].Testing? { HeldIn(s.workers, w, s.workers[w].tx); }
  }

  /** A worker that has a child left to push holds that child back. */
  lemma PusherHoldsBack(g: Graph, s: Pool, w: nat)
    requires Closed(g) && Inv(g, s) && w < |s.workers|
    ensures s.workers[w].Pushing? ==> exists c :: c in g && Unreleased(g, s, c) != {}
  {
    assert WorkerInv(g, s, s.workers[w]);
    if s.workers[w].Pushing? {
      var c :| c in s.workers[w].rest;
      assert Edge(g, s.workers[w].tx, c) && SomePushing(s, s.workers[w].tx, c);
      assert s.workers[w].tx in Unreleased(g, s, c);
    }
  }

  lemma StartedQuiet(g: Graph, s: Pool, x: Tx)
    requires Inv(g, s) && x in g && Started(s, x)
    ensures Tokens(s, x) == 0 && Unreleased(g, s, x) == {}
  {
    assert VertexInv(g, s, x);
  }

  /** With everything decided, nothing is left in the queue or in any worker's hands. */
  lemma AllDecidedQuiet(g: Graph, s: Pool)
    requires Closed(g) && Inv(g, s) && AllDecided(g, s)
    ensures s.queue == []
    ensures forall w :: 0 <= w < |s.workers| ==> s.workers[w].Idle? || s.workers[w].Stopped? || s.workers[w].AtLeaf?
  {
    forall x | x in g ensures Tokens(s, x) == 0 && Unreleased(g, s, x) == {} { StartedQuiet(g, s, x); }
    assert forall x :: x in s.queue ==> Tokens(s, x) > 0;
    forall x ensures multiset(s.queue)[x] == 0 { assert x in multiset(s.queue) ==> x in s.queue && x in g; }
    assert |s.queue| == |multiset(s.queue)|;
    forall w | 0 <= w < |s.workers| ensures s.workers[w].Idle? || s.workers[w].Stopped? || s.workers[w].AtLeaf? {
      assert WorkerInv(g, s, s.workers[w]);
      HolderToken(s, w);
      PusherHoldsBack(g, s, w);
    }
  }

  lemma LeafStillCounted(g: Graph, s: Pool, w: nat)
    requires Inv(g, s) && w < |s.workers|
    ensures s.workers[w].AtLeaf? ==> s.workers[w].tx in Uncounted(g, s)
  {
    assert WorkerInv(g, s, s.workers[w]);
    assert s.workers[w].AtLeaf? ==> SomeAtLeaf(s, s.workers[w].tx);
  }

  lemma TerminatedQuiet(g: Graph, s: Pool)
    requires Closed(g) && Acyclic(g) && Inv(g, s) && s.terminated
    ensures AllDecided(g, s) && s.queue == []
    ensures forall w :: 0 <= w < |s.workers| ==> s.workers[w].Idle? || s.workers[w].Stopped?
  {
    assert Uncounted(g, s) == {};
    forall x | x in Leaves(g) ensures x in s.decided { assert x !in Uncounted(g, s); }
    LeavesDecideAll(g, s);
    AllDecidedQuiet(g, s);
    forall w | 0 <= w < |s.workers| ensures !s.workers[w].AtLeaf? {
      LeafStillCounted(g, s, w);
    }
  }

  // ---------------------------------------------------------------- steps keep the invariant

  lemma InitInv(g: Graph, s: Pool)
    requires Closed(g) && Acyclic(g) && g != map[] && Init(g, s)
    ensures Inv(g, s)
  {
    forall x | x in g ensures VertexInv(g, s, x) {
      HeldByNone(s.workers, x);
      assert multiset(s.queue)[x] == if x in Roots(g) then 1 else 0;
      assert Unreleased(g, s, x) == Preds(g, x);
    }
    forall x | x in s.queue ensures x in g { assert x in multiset(s.queue); }
    assert Uncounted(g, s) == Leaves(g);
    var x :| x in g;
    var leaf := LeafBelow(g, x);
  }

  /** Worker `w` changes without starting or ceasing to own a transaction. */
  ghost predicate QuietChange(s: Pool, w: nat, s': Pool) {
    && w < |s.workers| && |s'.workers| == |s.workers|
    && s'.workers == s.workers[w := s'.workers[w]]
    && (s.workers[w].Idle? || s.workers[w].Popped? || s.workers[w].Testing?)
    && (s'.workers[w].Idle? || s'.workers[w].Popped? || s'.workers[w].Testing? || s'.workers[w].Stopped?)
    && s'.decided == s.decided
  }

  lemma QuietKeeps(g: Graph, s: Pool, w: nat, s': Pool)
    requires QuietChange(s, w, s')
    ensures forall x :: SomeClaimed(s', x) <==> SomeClaimed(s, x)
    ensures forall x :: SomeAtLeaf(s', x) <==> SomeAtLeaf(s, x)
    ensures forall p, x :: SomePushing(s', p, x) <==> SomePushing(s, p, x)
    ensures forall x :: Unreleased(g, s', x) == Unreleased(g, s, x)
    ensures Uncounted(g, s') == Uncounted(g, s)
  {
    forall x ensures SomeClaimed(s', x) <==> SomeClaimed(s, x) {
      if v :| 0 <= v < |s.workers| && s.workers[v] == Claimed(x) { assert s'.workers[v] == Claimed(x); }
    }
    forall x ensures SomeAtLeaf(s', x) <==> SomeAtLeaf(s, x) {
      if v :| 0 <= v < |s.workers| && s.workers[v] == AtLeaf(x) { assert s'.workers[v] == AtLeaf(x); }
    }
    forall p, x ensures SomePushing(s', p, x) <==> SomePushing(s, p, x) {
      if v :| 0 <= v < |s.workers| && s.workers[v].Pushing? && s.workers[v].tx == p && x in s.workers[v].rest {
        assert s'.workers[v] == s.workers[v];
      }
    }
  }

  /** All workers but `w` are as before, and `w` is fine. */
  lemma WorkersKept(g: Graph, s: Pool, w: nat, s': Pool)
    requires Inv(g, s) && w < |s.workers| == |s'.workers| && s'.workers == s.workers[w := s'.workers[w]]
    requires s'.decided == s.decided && (s.terminated ==> s'.terminated)
    requires WorkerInv(g, s', s'.workers[w])
    ensures forall v {:trigger WorkerInv(g, s', s'.workers[v])} :: 0 <= v < |s'.workers| ==> WorkerInv(g, s', s'.workers[v])
  {
    forall v | 0 <= v < |s'.workers| ensures WorkerInv(g, s', s'.workers[v]) {
      if v != w { assert WorkerInv(g, s, s.workers[v]); }
    }
  }

  lemma OwnersKept(s: Pool, w: nat, s': Pool)
    requires SoleOwners(s) && w < |s.workers| == |s'.workers| && s'.workers == s.workers[w := s'.workers[w]]
    requires forall x :: Owns(s'.workers[w], x) ==> Owns(s.workers[w], x)
    ensures SoleOwners(s')
  {
  }

  /** The invariant for a change that moves tokens around but keeps their number, and counters. */
  lemma QuietStep(g: Graph, s: Pool, w: nat, s': Pool)
    requires Inv(g, s) && QuietChange(s, w, s')
    requires s'.incoming == s.incoming && s'.leafCount == s.leafCount && s'.terminated == s.terminated
    requires forall x :: Tokens(s', x) == Tokens(s, x)
    requires forall x :: x in s'.queue ==> x in g
    requires WorkerInv(g, s', s'.workers[w])
    ensures Inv(g, s')
  {
    QuietKeeps(g, s, w, s');
    forall x | x in g ensures VertexInv(g, s', x) { assert VertexInv(g, s, x); }
    WorkersKept(g, s, w, s');
    OwnersKept(s, w, s');
  }

  lemma HeldCount(s: Pool, w: nat, s': Pool, x: Tx)
    requires w < |s.workers| == |s'.workers| && s'.workers == s.workers[w := s'.workers[w]]
    ensures Held(s'.workers, x) + HeldBy(s.workers[w], x) == Held(s.workers, x) + HeldBy(s'.workers[w], x)
  {
    HeldUpdate(s.workers, w, s'.workers[w], x);
  }

  lemma StopStep(g: Graph, s: Pool, w: nat, s': Pool)
    requires Inv(g, s) && w < |s.workers| && s.workers[w].Idle? && s.terminated && StepBy(g, s, w, s')
    ensures Inv(g, s')
  {
    forall x ensures Tokens(s', x) == Tokens(s, x) { HeldCount(s, w, s', x); }
    QuietStep(g, s, w, s');
  }

  lemma PopStep(g: Graph, s: Pool, w: nat, s': Pool)
    requires Inv(g, s) && w < |s.workers| && s.workers[w].Idle? && !s.terminated && StepBy(g, s, w, s')
    ensures Inv(g, s')
  {
    assert s.queue[|s.queue| - 1] in s.queue;
    forall x ensures Tokens(s', x) == Tokens(s, x) {
      HeldCount(s, w, s', x);
      PopCount(s.queue, x);
    }
    QuietStep(g, s, w, s');
  }

  lemma PopCount(queue: seq<Tx>, x: Tx)
    requires queue != []
    ensures multiset(queue)[x] == multiset(queue[..|queue| - 1])[x] + multiset{queue[|queue| - 1]}[x]
  {
    assert queue == queue[..|queue| - 1] + [queue[|queue| - 1]];
  }

  lemma PoppedStep(g: Graph, s: Pool, w: nat, s': Pool)
    requires Closed(g) && Acyclic(g) && Inv(g, s) && w < |s.workers| && s.workers[w].Popped? && StepBy(g, s, w, s')
    ensures Inv(g, s')
  {
    assert !s.terminated by {
      if s.terminated { TerminatedQuiet(g, s); }
    }
    assert WorkerInv(g, s, s.workers[w]);
    forall x ensures Tokens(s', x) == Tokens(s, x) { HeldCount(s, w, s', x); }
    QuietStep(g, s, w, s');
  }

  /** A transaction that still waits for others: its token is used up. */
  lemma NotYetStep(g: Graph, s: Pool, w: nat, s': Pool)
    requires Inv(g, s) && w < |s.workers| && s.workers[w].Testing? && StepBy(g, s, w, s')
    requires s.incoming[s.workers[w].tx] > 1
    ensures Inv(g, s')
  {
    var tx := s.workers[w].tx;
    QuietKeeps(g, s, w, s');
    forall x | x in g ensures VertexInv(g, s', x) {
      assert VertexInv(g, s, x);
      HeldCount(s, w, s', x);
    }
    WorkersKept(g, s, w, s');
    OwnersKept(s, w, s');
  }

  /** What changes when worker `w` claims the transaction it took up. */
  lemma ClaimKeeps(g: Graph, s: Pool, w: nat, s': Pool, tx: Tx)
    requires w < |s.workers| && s.workers[w] == Testing(tx) && s'.workers == s.workers[w := Claimed(tx)] && s'.decided == s.decided
    ensures forall x :: SomeClaimed(s', x) <==> x == tx || SomeClaimed(s, x)
    ensures forall x :: Unreleased(g, s', x) == Unreleased(g, s, x)
    ensures Uncounted(g, s') == Uncounted(g, s)
  {
    forall x ensures SomeClaimed(s', x) <==> x == tx || SomeClaimed(s, x) {
      if x == tx { assert s'.workers[w] == Claimed(x); }
      if v :| 0 <= v < |s.workers| && s.workers[v] == Claimed(x) { assert s'.workers[v] == Claimed(x); }
    }
    forall x ensures SomeAtLeaf(s', x) <==> SomeAtLeaf(s, x) {
      if v :| 0 <= v < |s.workers| && s.workers[v] == AtLeaf(x) { assert s'.workers[v] == AtLeaf(x); }
    }
    forall p, x ensures SomePushing(s', p, x) <==> SomePushing(s, p, x) {
      if v :| 0 <= v < |s.workers| && s.workers[v].Pushing? && s.workers[v].tx == p && x in s.workers[v].rest {
        assert s'.workers[v] == s.workers[v];
      }
    }
  }

  /** No worker owns a transaction that has not started. */
  lemma UnstartedUnowned(g: Graph, s: Pool, tx: Tx, v: nat)
    requires Inv(g, s) && !Started(s, tx) && v < |s.workers|
    ensures !Owns(s.workers[v], tx)
  {
    assert WorkerInv(g, s, s.workers[v]);
    assert s.workers[v] == Claimed(tx) ==> SomeClaimed(s, tx);
  }

  lemma ClaimVertex(g: Graph, s: Pool, w: nat, s': Pool, x: Tx)
    requires Inv(g, s) && w < |s.workers| && s.workers[w].Testing? && StepBy(g, s, w, s')
    requires s.incoming[s.workers[w].tx] <= 1 && x in g && !Started(s, s.workers[w].tx)
    ensures VertexInv(g, s', x)
  {
    var tx := s.workers[w].tx;
    assert WorkerInv(g, s, s.workers[w]) && VertexInv(g, s, x);
    HolderToken(s, w);
    ClaimKeeps(g, s, w, s', tx);
    HeldCount(s, w, s', x);
  }

  /** A transaction that is free to run: its last token is used up. */
  lemma ClaimStep(g: Graph, s: Pool, w: nat, s': Pool)
    requires Inv(g, s) && w < |s.workers| && s.workers[w].Testing? && StepBy(g, s, w, s')
    requires s.incoming[s.workers[w].tx] <= 1
    ensures Inv(g, s')
  {
    var tx := s.workers[w].tx;
    assert WorkerInv(g, s, s.workers[w]) && VertexInv(g, s, tx);
    HolderToken(s, w);
    assert !Started(s, tx);
    ClaimKeeps(g, s, w, s', tx);
    forall x | x in g ensures VertexInv(g, s', x) { ClaimVertex(g, s, w, s', x); }
    WorkersKept(g, s, w, s');
    forall v | 0 <= v < |s.workers| ensures !Owns(s.workers[v], tx) { UnstartedUnowned(g, s, tx, v); }
  }

  // ---- executing

  /** What changes when worker `w` executes the transaction it claimed. */
  lemma DecideKeeps(g: Graph, s: Pool, w: nat, s': Pool, tx: Tx)
    requires Inv(g, s) && w < |s.workers| && s.workers[w] == Claimed(tx) && StepBy(g, s, w, s')
    ensures tx in g && tx !in s.decided
    ensures forall x :: Started(s', x) <==> Started(s, x)
    ensures forall x :: Unreleased(g, s', x) == Unreleased(g, s, x)
    ensures Uncounted(g, s') == Uncounted(g, s)
  {
    assert WorkerInv(g, s, s.workers[w]);
    var now := s'.workers[w];
    forall x ensures SomeClaimed(s', x) || x == tx <==> SomeClaimed(s, x) {
      if v :| 0 <= v < |s.workers| && v != w && s.workers[v] == Claimed(x) { assert s'.workers[v] == Claimed(x); }
      if x == tx { assert s.workers[w] == Claimed(x); }
    }
    forall x ensures SomeAtLeaf(s', x) <==> (now == AtLeaf(x) || SomeAtLeaf(s, x)) {
      if v :| 0 <= v < |s.workers| && s.workers[v] == AtLeaf(x) { assert s'.workers[v] == AtLeaf(x); }
    }
    forall p, x ensures SomePushing(s', p, x) <==> (p == tx && x in g[tx]) || SomePushing(s, p, x) {
      if v :| 0 <= v < |s.workers| && s.workers[v].Pushing? && s.workers[v].tx == p && x in s.workers[v].rest {
        assert s'.workers[v] == s.workers[v];
      }
    }
  }

  lemma DecidedExtends(g: Graph, s: Pool, tx: Tx)
    requires DecidedInv(g, s) && tx in g && tx !in s.decided && Preds(g, tx) <= set p | p in s.decided
    ensures DecidedInv(g, s.(decided := s.decided + [tx]))
  {
    var next := s.decided + [tx];
    forall i | 0 <= i < |next| ensures Preds(g, next[i]) <= set p | p in next[..i] {
      assert next[..i] == s.decided[..i];
    }
  }

  /** Every predecessor of a started transaction is decided. */
  lemma PredsDecided(g: Graph, s: Pool, tx: Tx)
    requires Inv(g, s) && tx in g && Started(s, tx)
    ensures Preds(g, tx) <= set p | p in s.decided
  {
    StartedQuiet(g, s, tx);
    forall p | p in Preds(g, tx) ensures p in s.decided { assert p !in Unreleased(g, s, tx); }
  }

  lemma DecideStep(g: Graph, s: Pool, w: nat, s': Pool)
    requires Closed(g) && Inv(g, s) && w < |s.workers| && s.workers[w].Claimed? && StepBy(g, s, w, s')
    ensures Inv(g, s')
  {
    var tx := s.workers[w].tx;
    DecideKeeps(g, s, w, s', tx);
    assert SomeClaimed(s, tx);
    PredsDecided(g, s, tx);
    DecidedExtends(g, s, tx);
    forall x | x in g ensures VertexInv(g, s', x) { DecideVertex(g, s, w, s', x); }
    DecideWorkers(g, s, w, s');
    OwnersKept(s, w, s');
  }

  lemma DecideVertex(g: Graph, s: Pool, w: nat, s': Pool, x: Tx)
    requires Inv(g, s) && w < |s.workers| && s.workers[w].Claimed? && StepBy(g, s, w, s') && x in g
    ensures VertexInv(g, s', x)
  {
    DecideKeeps(g, s, w, s', s.workers[w].tx);
    assert VertexInv(g, s, x);
    HeldCount(s, w, s', x);
  }

  lemma DecideWorkers(g: Graph, s: Pool, w: nat, s': Pool)
    requires Inv(g, s) && w < |s.workers| && s.workers[w].Claimed? && StepBy(g, s, w, s')
    ensures forall v {:trigger WorkerInv(g, s', s'.workers[v])} :: 0 <= v < |s'.workers| ==> WorkerInv(g, s', s'.workers[v])
  {
    forall v | 0 <= v < |s'.workers| ensures WorkerInv(g, s', s'.workers[v]) {
      assert WorkerInv(g, s, s.workers[v]) && Owns(s.workers[w], s.workers[w].tx);
      if v != w { assert !Owns(s.workers[v], s.workers[w].tx); }
    }
  }

  // ---- counting a leaf

  lemma LeafKeeps(g: Graph, s: Pool, w: nat, s': Pool, tx: Tx)
    requires Inv(g, s) && w < |s.workers| && s.workers[w] == AtLeaf(tx) && StepBy(g, s, w, s')
    ensures tx in s.decided
    ensures forall x :: SomeClaimed(s', x) <==> SomeClaimed(s, x)
    ensures forall x :: Unreleased(g, s', x) == Unreleased(g, s, x)
    ensures tx in Uncounted(g, s) && Uncounted(g, s') == Uncounted(g, s) - {tx}
  {
    assert WorkerInv(g, s, s.workers[w]);
    LeafStillCounted(g, s, w);
    forall x ensures SomeClaimed(s', x) <==> SomeClaimed(s, x) {
      if v :| 0 <= v < |s.workers| && s.workers[v] == Claimed(x) { assert s'.workers[v] == Claimed(x); }
    }
    forall x ensures SomeAtLeaf(s', x) <==> x != tx && SomeAtLeaf(s, x) {
      assert Owns(s.workers[w], tx);
      if v :| 0 <= v < |s.workers| && v != w && s.workers[v] == AtLeaf(x) { assert s'.workers[v] == AtLeaf(x); }
      if v :| 0 <= v < |s'.workers| && s'.workers[v] == AtLeaf(x) { assert Owns(s.workers[v], x); }
    }
    forall p, x ensures SomePushing(s', p, x) <==> SomePushing(s, p, x) {
      if v :| 0 <= v < |s.workers| && s.workers[v].Pushing? && s.workers[v].tx == p && x in s.workers[v].rest {
        assert s'.workers[v] == s.workers[v];
      }
    }
  }

  /** When the last leaf is counted the queue is empty, so the workers are told to stop. */
  lemma LastLeaf(g: Graph, s: Pool, w: nat)
    requires Closed(g) && Acyclic(g) && Inv(g, s) && w < |s.workers| && s.workers[w].AtLeaf? && s.leafCount == 1
    ensures AllDecided(g, s) && s.queue == []
  {
    LeafStillCounted(g, s, w);
    var tx := s.workers[w].tx;
    assert WorkerInv(g, s, s.workers[w]);
    forall x | x in Leaves(g) ensures x in s.decided {
      if x != tx && x in Uncounted(g, s) {
        OnlyMember(Uncounted(g, s), x, tx);
      }
    }
    LeavesDecideAll(g, s);
    AllDecidedQuiet(g, s);
  }

  lemma OnlyMember(s: set<Tx>, x: Tx, y: Tx)
    requires |s| == 1 && x in s && y in s
    ensures x == y
  {
    assert |s - {x}| == 0;
  }

  lemma LeafStep(g: Graph, s: Pool, w: nat, s': Pool)
    requires Closed(g) && Acyclic(g) && Inv(g, s) && w < |s.workers| && s.workers[w].AtLeaf? && StepBy(g, s, w, s')
    ensures Inv(g, s')
  {
    LeafKeeps(g, s, w, s', s.workers[w].tx);
    if s.leafCount == 1 { LastLeaf(g, s, w); }
    forall x | x in g ensures VertexInv(g, s', x) { LeafVertex(g, s, w, s', x); }
    WorkersKept(g, s, w, s');
    OwnersKept(s, w, s');
  }

  lemma LeafVertex(g: Graph, s: Pool, w: nat, s': Pool, x: Tx)
    requires Inv(g, s) && w < |s.workers| && s.workers[w].AtLeaf? && StepBy(g, s, w, s') && x in g
    ensures VertexInv(g, s', x)
  {
    LeafKeeps(g, s, w, s', s.workers[w].tx);
    assert VertexInv(g, s, x);
    HeldCount(s, w, s', x);
  }

  // ---- pushing a child

  ghost predicate PushesChild(s: Pool, w: nat, s': Pool, child: Tx) {
    && w < |s.workers| && s.workers[w].Pushing? && child in s.workers[w].rest
    && var rest := s.workers[w].rest;
       s' == Become(s, w, if rest == {child} then Idle else Pushing(s.workers[w].tx, rest - {child})).(queue := [child] + s.queue)
  }

  lemma PushKeeps(g: Graph, s: Pool, w: nat, s': Pool, child: Tx)
    requires Inv(g, s) && PushesChild(s, w, s', child)
    ensures forall x :: SomeClaimed(s', x) <==> SomeClaimed(s, x)
    ensures Uncounted(g, s') == Uncounted(g, s)
    ensures forall p, x :: SomePushing(s', p, x) <==> SomePushing(s, p, x) && !(p == s.workers[w].tx && x == child)
  {
    var tx := s.workers[w].tx;
    assert Owns(s.workers[w], tx);
    forall x ensures SomeClaimed(s', x) <==> SomeClaimed(s, x) {
      if v :| 0 <= v < |s.workers| && s.workers[v] == Claimed(x) { assert s'.workers[v] == Claimed(x); }
    }
    forall x ensures SomeAtLeaf(s', x) <==> SomeAtLeaf(s, x) {
      if v :| 0 <= v < |s.workers| && s.workers[v] == AtLeaf(x) { assert s'.workers[v] == AtLeaf(x); }
    }
    forall p, x ensures SomePushing(s', p, x) <==> SomePushing(s, p, x) && !(p == tx && x == child) {
      if v :| 0 <= v < |s.workers| && s.workers[v].Pushing? && s.workers[v].tx == p && x in s.workers[v].rest {
        assert Owns(s.workers[v], p);
        if v != w { assert s'.workers[v] == s.workers[v]; }
        else if x != child { assert x in s'.workers[w].rest; }
      }
      if v :| 0 <= v < |s'.workers| && s'.workers[v].Pushing? && s'.workers[v].tx == p && x in s'.workers[v].rest {
        assert Owns(s.workers[v], p);
      }
    }
  }

  lemma PushVertex(g: Graph, s: Pool, w: nat, s': Pool, child: Tx, x: Tx)
    requires Closed(g) && Inv(g, s) && PushesChild(s, w, s', child) && x in g
    ensures VertexInv(g, s', x)
  {
    var tx := s.workers[w].tx;
    assert WorkerInv(g, s, s.workers[w]) && VertexInv(g, s, x);
    PushKeeps(g, s, w, s', child);
    HeldCount(s, w, s', x);
    PushReleases(g, s, w, s', child, x);
  }

  lemma PushReleases(g: Graph, s: Pool, w: nat, s': Pool, child: Tx, x: Tx)
    requires Closed(g) && Inv(g, s) && PushesChild(s, w, s', child)
    ensures s.workers[w].tx in Unreleased(g, s, child)
    ensures Unreleased(g, s', x) == if x == child then Unreleased(g, s, x) - {s.workers[w].tx} else Unreleased(g, s, x)
  {
    var tx := s.workers[w].tx;
    assert WorkerInv(g, s, s.workers[w]);
    PushKeeps(g, s, w, s', child);
    assert Edge(g, tx, child) && SomePushing(s, tx, child);
  }

  lemma PushStep(g: Graph, s: Pool, w: nat, s': Pool)
    requires Closed(g) && Inv(g, s) && w < |s.workers| && s.workers[w].Pushing? && StepBy(g, s, w, s')
    ensures Inv(g, s')
  {
    var tx, rest := s.workers[w].tx, s.workers[w].rest;
    var child :| child in rest && PushesChild(s, w, s', child);
    assert WorkerInv(g, s, s.workers[w]) && Edge(g, tx, child);
    PushKeeps(g, s, w, s', child);
    forall x | x in g ensures VertexInv(g, s', x) { PushVertex(g, s, w, s', child, x); }
    WorkersKept(g, s, w, s');
    OwnersKept(s, w, s');
  }

  lemma StepInv(g: Graph, s: Pool, s': Pool)
    requires Closed(g) && Acyclic(g) && Inv(g, s) && Next(g, s, s')
    ensures Inv(g, s')
  {
    var w :| 0 <= w < |s.workers| && StepBy(g, s, w, s');
    match s.workers[w]
    case Idle => if s.terminated { StopStep(g, s, w, s'); } else { PopStep(g, s, w, s'); }
    case Popped(_) => PoppedStep(g, s, w, s');
    case Testing(tx) => if s.incoming[tx] > 1 { NotYetStep(g, s, w, s'); } else { ClaimStep(g, s, w, s'); }
    case Claimed(_) => DecideStep(g, s, w, s');
    case AtLeaf(_) => LeafStep(g, s, w, s');
    case Pushing(_, _) => PushStep(g, s, w, s');
    case Stopped =>
  }

  // ---------------------------------------------------------------- termination

  ghost function Edges(g: Graph): set<(Tx, Tx)> {
    set p, x | p in g && x in g[p] :: (p, x)
  }

  /** Edges along which nothing was pushed yet. */
  ghost function UnreleasedEdges(g: Graph, s: Pool): set<(Tx, Tx)> {
    set e | e in Edges(g) && e.0 in Unreleased(g, s, e.1)
  }

  ghost function Unstarted(g: Graph, s: Pool): set<Tx> {
    set x | x in g && !Started(s, x)
  }

  ghost function Weight(w: Worker): nat {
    match w
    case Stopped => 0
    case Idle => 1
    case Pushing(_, _) => 1
    case Testing(_) => 2
    case AtLeaf(_) => 2
    case Popped(_) => 3
    case Claimed(_) => 3
  }

  ghost function Weights(ws: seq<Worker>): nat {
    if ws == [] then 0 else Weights(ws[..|ws| - 1]) + Weight(ws[|ws| - 1])
  }

  lemma {:induction false} WeightsUpdate(ws: seq<Worker>, w: nat, to: Worker)
    requires w < |ws|
    ensures Weights(ws[w := to]) + Weight(ws[w]) == Weights(ws) + Weight(to)
  {
    var last := |ws| - 1;
    if w == last {
      assert ws[w := to][..last] == ws[..last];
    } else {
      assert ws[w := to][..last] == ws[..last][w := to];
      WeightsUpdate(ws[..last], w, to);
    }
  }

  /** The work left. */
  ghost function Work(g: Graph, s: Pool): nat {
    4 * |UnreleasedEdges(g, s)| + 3 * |s.queue| + 3 * |Unstarted(g, s)| + Weights(s.workers)
  }

  lemma SameWork(g: Graph, s: Pool, s': Pool)
    requires forall x :: Started(s', x) <==> Started(s, x)
    requires forall x :: Unreleased(g, s', x) == Unreleased(g, s, x)
    ensures UnreleasedEdges(g, s') == UnreleasedEdges(g, s) && Unstarted(g, s') == Unstarted(g, s)
  {
  }

  lemma QuietWork(g: Graph, s: Pool, w: nat, s': Pool)
    requires Inv(g, s) && w < |s.workers| && StepBy(g, s, w, s')
    requires s.workers[w].Idle? || s.workers[w].Popped? || (s.workers[w].Testing? && s.incoming[s.workers[w].tx] > 1)
    ensures Work(g, s') < Work(g, s)
  {
    QuietKeeps(g, s, w, s');
    SameWork(g, s, s');
    WeightsUpdate(s.workers, w, s'.workers[w]);
  }

  lemma ClaimWork(g: Graph, s: Pool, w: nat, s': Pool)
    requires Inv(g, s) && w < |s.workers| && StepBy(g, s, w, s')
    requires s.workers[w].Testing? && s.incoming[s.workers[w].tx] <= 1
    ensures Work(g, s') < Work(g, s)
  {
    var tx := s.workers[w].tx;
    assert WorkerInv(g, s, s.workers[w]) && VertexInv(g, s, tx);
    HolderToken(s, w);
    ClaimKeeps(g, s, w, s', tx);
    assert Unstarted(g, s') == Unstarted(g, s) - {tx} && tx in Unstarted(g, s);
    assert UnreleasedEdges(g, s') == UnreleasedEdges(g, s);
    WeightsUpdate(s.workers, w, s'.workers[w]);
  }

  lemma DecideWork(g: Graph, s: Pool, w: nat, s': Pool)
    requires Inv(g, s) && w < |s.workers| && s.workers[w].Claimed? && StepBy(g, s, w, s')
    ensures Work(g, s') < Work(g, s)
  {
    DecideKeeps(g, s, w, s', s.workers[w].tx);
    SameWork(g, s, s');
    WeightsUpdate(s.workers, w, s'.workers[w]);
  }

  lemma LeafWork(g: Graph, s: Pool, w: nat, s': Pool)
    requires Inv(g, s) && w < |s.workers| && s.workers[w].AtLeaf? && StepBy(g, s, w, s')
    ensures Work(g, s') < Work(g, s)
  {
    LeafKeeps(g, s, w, s', s.workers[w].tx);
    SameWork(g, s, s');
    WeightsUpdate(s.workers, w, s'.workers[w]);
  }

  lemma PushWork(g: Graph, s: Pool, w: nat, s': Pool)
    requires Closed(g) && Inv(g, s) && w < |s.workers| && s.workers[w].Pushing? && StepBy(g, s, w, s')
    ensures Work(g, s') < Work(g, s)
  {
    var child :| child in s.workers[w].rest && PushesChild(s, w, s', child);
    PushSets(g, s, w, s', child);
    WeightsUpdate(s.workers, w, s'.workers[w]);
  }

  lemma PushSets(g: Graph, s: Pool, w: nat, s': Pool, child: Tx)
    requires Closed(g) && Inv(g, s) && PushesChild(s, w, s', child)
    ensures Unstarted(g, s') == Unstarted(g, s)
    ensures |UnreleasedEdges(g, s')| == |UnreleasedEdges(g, s)| - 1
  {
    var tx := s.workers[w].tx;
    assert WorkerInv(g, s, s.workers[w]);
    PushKeeps(g, s, w, s', child);
    forall x ensures Unreleased(g, s', x) == if x == child then Unreleased(g, s, x) - {tx} else Unreleased(g, s, x) {
      PushReleases(g, s, w, s', child, x);
    }
    PushReleases(g, s, w, s', child, child);
    assert (tx, child) in UnreleasedEdges(g, s);
    assert UnreleasedEdges(g, s') == UnreleasedEdges(g, s) - {(tx, child)};
  }

  /** Every step leaves less work. */
  lemma StepWork(g: Graph, s: Pool, s': Pool)
    requires Closed(g) && Inv(g, s) && Next(g, s, s')
    ensures Work(g, s') < Work(g, s)
  {
    var w :| 0 <= w < |s.workers| && StepBy(g, s, w, s');
    match s.workers[w]
    case Idle => QuietWork(g, s, w, s');
    case Popped(_) => QuietWork(g, s, w, s');
    case Testing(tx) =>
      assert WorkerInv(g, s, s.workers[w]);
      if s.incoming[tx] > 1 { QuietWork(g, s, w, s'); } else { ClaimWork(g, s, w, s'); }
    case Claimed(_) => DecideWork(g, s, w, s');
    case AtLeaf(_) => LeafWork(g, s, w, s');
    case Pushing(_, _) => PushWork(g, s, w, s');
    case Stopped =>
  }

  // ---------------------------------------------------------------- progress

  ghost predicate CanStep(g: Graph, s: Pool) {
    exists w, s' :: 0 <= w < |s.workers| && StepBy(g, s, w, s')
  }

  /** A worker that is neither idle nor stopped can always take its next step. */
  lemma BusyCanStep(g: Graph, s: Pool, w: nat)
    requires Inv(g, s) && w < |s.workers| && !s.workers[w].Idle? && !s.workers[w].Stopped?
    ensures exists s' :: StepBy(g, s, w, s')
  {
    assert WorkerInv(g, s, s.workers[w]);
    match s.workers[w]
    case Popped(tx) =>
      assert StepBy(g, s, w, Become(s, w, if s.terminated then Stopped else Testing(tx)));
    case Testing(tx) =>
      var s' := if s.incoming[tx] == 0 then Become(s, w, Claimed(tx))
                else Become(s, w, if s.incoming[tx] > 1 then Idle else Claimed(tx)).(incoming := s.incoming[tx := s.incoming[tx] - 1]);
      assert StepBy(g, s, w, s');
    case Claimed(tx) =>
      assert StepBy(g, s, w, Become(s, w, if g[tx] == {} then AtLeaf(tx) else Pushing(tx, g[tx])).(decided := s.decided + [tx]));
    case AtLeaf(tx) =>
      LeafStillCounted(g, s, w);
      var s' := if s.queue == [] && s.leafCount == 1 then Become(s, w, Stopped).(leafCount := 0, terminated := true)
                else Become(s, w, Idle).(leafCount := s.leafCount - 1);
      assert StepBy(g, s, w, s');
    case Pushing(tx, rest) =>
      var child :| child in rest;
      var s' := Become(s, w, if rest == {child} then Idle else Pushing(tx, rest - {child})).(queue := [child] + s.queue);
      assert StepBy(g, s, w, s');
  }

  /** While some transaction is undecided, the queue is not empty or some worker is busy. */
  lemma UndecidedMeansWork(g: Graph, s: Pool, x: Tx)
    requires Closed(g) && Acyclic(g) && Inv(g, s) && x in g && x !in s.decided
    requires forall w :: 0 <= w < |s.workers| ==> s.workers[w].Idle? || s.workers[w].Stopped?
    ensures s.queue != []
  {
    var open := set y | y in g && y !in s.decided;
    var top := Topmost(g, open, x);
    assert VertexInv(g, s, top);
    assert Unreleased(g, s, top) == {} by {
      forall p | p in Preds(g, top) ensures p in s.decided { assert p !in open; }
    }
    HeldByNone(s.workers, top);
    assert Tokens(s, top) > 0;
  }

  lemma {:induction false} HeldByNone(ws: seq<Worker>, x: Tx)
    requires forall w :: 0 <= w < |ws| ==> ws[w].Idle? || ws[w].Stopped?
    ensures Held(ws, x) == 0
  {
    if ws != [] { HeldByNone(ws[..|ws| - 1], x); }
  }

  /** The pool is never stuck: until all workers have stopped, some worker can take a step. */
  lemma NeverStuck(g: Graph, s: Pool)
    requires Closed(g) && Acyclic(g) && Inv(g, s)
    requires exists w :: 0 <= w < |s.workers| && !s.workers[w].Stopped?
    ensures CanStep(g, s)
  {
    var w :| 0 <= w < |s.workers| && !s.workers[w].Stopped?;
    if v :| 0 <= v < |s.workers| && !s.workers[v].Idle? && !s.workers[v].Stopped? {
      BusyCanStep(g, s, v);
    } else {
      var s' := if s.terminated then Become(s, w, Stopped) else if s.queue == [] then s
                else Become(s, w, Popped(s.queue[|s.queue| - 1])).(queue := s.queue[..|s.queue| - 1]);
      if !s.terminated && s.queue == [] {
        assert Uncounted(g, s) != {};
        var leaf :| leaf in Uncounted(g, s);
        UndecidedMeansWork(g, s, leaf);
      }
      assert StepBy(g, s, w, s');
    }
  }

  // ---------------------------------------------------------------- theorems

  lemma {:induction false} RunInv(g: Graph, run: seq<Pool>, i: nat)
    requires Closed(g) && Acyclic(g) && g != map[] && IsRun(g, run) && i < |run|
    ensures Inv(g, run[i]) && Work(g, run[i]) + i <= Work(g, run[0])
  {
    if i == 0 {
      InitInv(g, run[0]);
    } else {
      RunInv(g, run, i - 1);
      assert Next(g, run[i - 1], run[i - 1 + 1]);
      StepInv(g, run[i - 1], run[i]);
      StepWork(g, run[i - 1], run[i]);
    }
  }

  /** Every run is finite: it has no more steps than there is work at its start. */
  lemma RunsEnd(g: Graph, run: seq<Pool>)
    requires Closed(g) && Acyclic(g) && g != map[] && IsRun(g, run)
    ensures |run| <= Work(g, run[0]) + 1
  {
    RunInv(g, run, |run| - 1);
  }

  /** At any moment: nothing was decided twice, and nothing before its predecessors. */
  lemma ExactlyOnceInOrder(g: Graph, run: seq<Pool>, i: nat)
    requires Closed(g) && Acyclic(g) && g != map[] && IsRun(g, run) && i < |run|
    ensures var d := run[i].decided;
            && (forall k :: 0 <= k < |d| ==> d[k] in g)
            && Distinct(d)
            && (forall k, p :: 0 <= k < |d| && Edge(g, p, d[k]) ==> p in d[..k])
  {
    RunInv(g, run, i);
    var d := run[i].decided;
    forall k, p | 0 <= k < |d| && Edge(g, p, d[k]) ensures p in d[..k] {
      assert p in Preds(g, d[k]);
    }
  }

  /** `leaf_count` is zero exactly when the workers are told to stop, and only when everything is
      decided and the queue is empty. */
  lemma LeafCountZero(g: Graph, run: seq<Pool>, i: nat)
    requires Closed(g) && Acyclic(g) && g != map[] && IsRun(g, run) && i < |run|
    ensures run[i].leafCount == 0 <==> run[i].terminated
    ensures run[i].leafCount == 0 ==> AllDecided(g, run[i]) && run[i].queue == []
    ensures (exists w :: 0 <= w < |run[i].workers| && run[i].workers[w].Stopped?) ==> run[i].leafCount == 0
  {
    RunInv(g, run, i);
    if run[i].terminated { TerminatedQuiet(g, run[i]); }
    forall w | 0 <= w < |run[i].workers| ensures WorkerInv(g, run[i], run[i].workers[w]) {}
  }

  /** A run that no worker can continue. */
  ghost predicate IsCompleteRun(g: Graph, run: seq<Pool>) {
    IsRun(g, run) && !CanStep(g, run[|run| - 1])
  }

  /** A run that cannot be continued has stopped all workers, having decided every transaction of the
      graph exactly once, in an order that follows the edges. */
  lemma CompleteRun(g: Graph, run: seq<Pool>)
    requires Closed(g) && Acyclic(g) && g != map[] && IsCompleteRun(g, run)
    ensures var end := run[|run| - 1];
            && end.terminated && (forall w :: 0 <= w < |end.workers| ==> end.workers[w].Stopped?)
            && multiset(end.decided) == multiset(g.Keys)
            && (forall k, p :: 0 <= k < |end.decided| && Edge(g, p, end.decided[k]) ==> p in end.decided[..k])
  {
    var last := |run| - 1;
    RunInv(g, run, last);
    ExactlyOnceInOrder(g, run, last);
    EndOfRun(g, run[last]);
  }

  /** A state in which no worker can take a step. */
  lemma EndOfRun(g: Graph, end: Pool)
    requires Closed(g) && Acyclic(g) && Inv(g, end) && !CanStep(g, end)
    ensures end.terminated && forall w :: 0 <= w < |end.workers| ==> end.workers[w].Stopped?
    ensures multiset(end.decided) == multiset(g.Keys)
  {
    if exists w :: 0 <= w < |end.workers| && !end.workers[w].Stopped? {
      NeverStuck(g, end);
    }
    assert WorkerInv(g, end, end.workers[0]);
    TerminatedQuiet(g, end);
    OnceEach(end.decided, g.Keys);
  }

  lemma ExtendedRun(g: Graph, run: seq<Pool>, s': Pool)
    requires IsRun(g, run) && Next(g, run[|run| - 1], s')
    ensures IsRun(g, run + [s'])
  {
    var longer := run + [s'];
    forall i | 0 <= i < |longer| - 1 ensures Next(g, longer[i], longer[i + 1]) {
      if i < |run| - 1 { assert Next(g, run[i], run[i + 1]); }
    }
  }

  lemma SomeStep(g: Graph, s: Pool) returns (s': Pool)
    requires Closed(g) && Inv(g, s) && CanStep(g, s)
    ensures Next(g, s, s') && Work(g, s') < Work(g, s)
  {
    var w, t :| 0 <= w < |s.workers| && StepBy(g, s, w, t);
    s' := t;
    assert Next(g, s, s');
    StepWork(g, s, s');
  }

  /** Any run can be completed. */
  lemma {:induction false} Completed(g: Graph, run: seq<Pool>) returns (whole: seq<Pool>)
    requires Closed(g) && Acyclic(g) && g != map[] && IsRun(g, run)
    ensures IsCompleteRun(g, whole) && run <= whole
    decreases Work(g, run[|run| - 1])
  {
    if CanStep(g, run[|run| - 1]) {
      RunInv(g, run, |run| - 1);
      var s' := SomeStep(g, run[|run| - 1]);
      ExtendedRun(g, run, s');
      whole := Completed(g, run + [s']);
    } else {
      whole := run;
    }
  }
}
