/** `LocalOrderDAG`: the conflict graph of an order of transactions, and what its linear extensions
    mean for the accounts. */
module ConflictDag {
  import opened Graphs

  type Account = nat

  /** How a transaction uses each account it declares: 'r' or 'w'. */
  type Usage = map<Account, char>

  /** The test that `create_dag` makes for an earlier and a later transaction. */
  predicate Conflicts(prev: Usage, curr: Usage) {
    exists a :: a in curr && a in prev && ClashOn(prev, curr, a)
  }

  predicate ClashOn(prev: Usage, curr: Usage, a: Account)
    requires a in curr && a in prev
  {
    curr[a] == 'w' || (curr[a] == 'r' && prev[a] == 'w')
  }

  ghost predicate WellTyped(u: Usage) {
    forall a :: a in u ==> u[a] == 'r' || u[a] == 'w'
  }

  /** For declared uses, the test means: a shared account that at least one of the two writes. */
  lemma ConflictsMeaning(p: Usage, c: Usage)
    requires WellTyped(p) && WellTyped(c)
    ensures Conflicts(p, c) <==> exists a :: a in p && a in c && (p[a] == 'w' || c[a] == 'w')
    ensures Conflicts(p, c) <==> Conflicts(c, p)
  {
    if a :| a in p && a in c && (p[a] == 'w' || c[a] == 'w') {
      assert ClashOn(p, c, a) && ClashOn(c, p, a);
    }
  }

  function UsageOf(types: map<Tx, Usage>, tx: Tx): Usage {
    if tx in types then types[tx] else map[]
  }

  /** The edges lead from an earlier to a later transaction of the order that conflict, and no others
      exist. */
  ghost predicate IsConflictDag(order: seq<Tx>, types: map<Tx, Usage>, dag: Graph) {
    && (forall tx :: tx in dag <==> tx in order)
    && (forall p, c :: Edge(dag, p, c) <==> ConflictPair(order, types, p, c))
  }

  ghost predicate ConflictPair(order: seq<Tx>, types: map<Tx, Usage>, p: Tx, c: Tx) {
    exists i, j :: 0 <= i < j < |order| && order[i] == p && order[j] == c && Conflicts(UsageOf(types, p), UsageOf(types, c))
  }

  class LocalOrderDAG {
    const order: seq<Tx>
    var dependencies: map<Tx, set<Account>>
    var dependencyTypes: map<Tx, Usage>

    ghost predicate Valid()
      reads this
    {
      && dependencies.Keys == dependencyTypes.Keys
      && forall tx :: tx in dependencies ==> dependencies[tx] == dependencyTypes[tx].Keys
    }

    constructor (order: seq<Tx>)
      ensures Valid() && this.order == order && dependencyTypes == map[]
    {
      this.order := order;
      dependencies, dependencyTypes := map[], map[];
    }

    /** Later declarations for a transaction override earlier ones account by account. */
    method AddDependency(tx: Tx, info: Usage)
      requires Valid()
      modifies this
      ensures Valid()
      ensures UsageOf(dependencyTypes, tx) == UsageOf(old(dependencyTypes), tx) + info
      ensures forall other :: other != tx ==> UsageOf(dependencyTypes, other) == UsageOf(old(dependencyTypes), other)
    {
      var rest := info.Keys;
      ghost var done: Usage := map[];
      while rest != {}
        invariant rest <= info.Keys && Valid()
        invariant done.Keys == info.Keys - rest && forall a :: a in done ==> done[a] == info[a]
        invariant UsageOf(dependencyTypes, tx) == UsageOf(old(dependencyTypes), tx) + done
        invariant forall other :: other != tx ==> UsageOf(dependencyTypes, other) == UsageOf(old(dependencyTypes), other)
      {
        var a :| a in rest;
        Declare(tx, a, info[a]);
        done := done[a := info[a]];
        rest := rest - {a};
      }
      assert done == info;
    }

    method Declare(tx: Tx, a: Account, use: char)
      requires Valid()
      modifies this
      ensures Valid()
      ensures UsageOf(dependencyTypes, tx) == UsageOf(old(dependencyTypes), tx)[a := use]
      ensures forall other :: other != tx ==> UsageOf(dependencyTypes, other) == UsageOf(old(dependencyTypes), other)
    {
      dependencies := dependencies[tx := (if tx in dependencies then dependencies[tx] else {}) + {a}];
      dependencyTypes := dependencyTypes[tx := UsageOf(dependencyTypes, tx)[a := use]];
    }

    method CreateDag() returns (dag: Graph)
      requires Valid()
      ensures IsConflictDag(order, dependencyTypes, dag)
    {
      dag := map[];
      for k := 0 to |order|
        invariant forall tx :: tx in dag <==> tx in order[..k]
        invariant forall tx :: tx in dag ==> dag[tx] == {}
      {
        dag := dag[order[k] := {}];
      }
      var curr := 1;
      while curr < |order|
        invariant 1 <= curr && (|order| > 0 ==> curr <= |order|)
        invariant forall tx :: tx in dag <==> tx in order
        invariant forall p, c :: Edge(dag, p, c) <==> curr <= |order| && ConflictPair(order[..curr], dependencyTypes, p, c)
      {
        dag := LinkTo(dag, curr);
        curr := curr + 1;
      }
      assert |order| > 0 ==> order[..curr] == order;
    }

    /** The body of the outer loop: edges to the transaction at `curr`. */
    method LinkTo(before: Graph, curr: nat) returns (dag: Graph)
      requires Valid() && 1 <= curr < |order|
      requires forall tx :: tx in before <==> tx in order
      requires forall p, c :: Edge(before, p, c) <==> ConflictPair(order[..curr], dependencyTypes, p, c)
      ensures forall tx :: tx in dag <==> tx in order
      ensures forall p, c :: Edge(dag, p, c) <==> ConflictPair(order[..curr + 1], dependencyTypes, p, c)
    {
      dag := before;
      var tx := order[curr];
      var usage := UsageOf(dependencyTypes, tx);
      var rest := if tx in dependencies then dependencies[tx] else {};
      while rest != {}
        invariant rest <= usage.Keys
        invariant forall x :: x in dag <==> x in order
        invariant forall p, c :: Edge(dag, p, c) <==>
                    Edge(before, p, c) || (c == tx && p in order[..curr] && ClashIn(UsageOf(dependencyTypes, p), usage, usage.Keys - rest))
      {
        var a :| a in rest;
        ghost var start := dag;
        var prev := curr - 1;
        while prev >= 0
          invariant -1 <= prev < curr
          invariant forall x :: x in dag <==> x in order
          invariant forall p, c :: Edge(dag, p, c) <==>
                      Edge(start, p, c) || (c == tx && p in order[prev + 1..curr] && ClashIn(UsageOf(dependencyTypes, p), usage, {a}))
        {
          var prevTx := order[prev];
          var prevUsage := UsageOf(dependencyTypes, prevTx);
          var known := prevTx in dependencies && a in dependencies[prevTx];
          ghost var was := dag;
          assert order[prev..curr] == [prevTx] + order[prev + 1..curr];
          assert known <==> a in prevUsage;
          assert ClashIn(prevUsage, usage, {a}) <==> a in usage && a in prevUsage && ClashOn(prevUsage, usage, a);
          if known && (usage[a] == 'w' || (usage[a] == 'r' && prevUsage[a] == 'w')) {
            dag := dag[prevTx := dag[prevTx] + {tx}];
          }
          assert forall p, c :: Edge(dag, p, c) <==> Edge(was, p, c) || (p == prevTx && c == tx && ClashIn(prevUsage, usage, {a}));
          assert forall p :: p in order[prev..curr] <==> p == prevTx || p in order[prev + 1..curr];
          prev := prev - 1;
        }
        rest := rest - {a};
        forall p ensures ClashIn(UsageOf(dependencyTypes, p), usage, usage.Keys - rest)
                         <==> ClashIn(UsageOf(dependencyTypes, p), usage, usage.Keys - rest - {a})
                              || ClashIn(UsageOf(dependencyTypes, p), usage, {a}) {}
      }
      ExtendPairs(order, dependencyTypes, curr);
    }
  }

  /** The conflict test restricted to some accounts. */
  ghost predicate ClashIn(prev: Usage, curr: Usage, accounts: set<Account>) {
    exists a :: a in accounts && a in curr && a in prev && ClashOn(prev, curr, a)
  }

  lemma ExtendPairs(order: seq<Tx>, types: map<Tx, Usage>, curr: nat)
    requires curr < |order|
    ensures forall p, c :: ConflictPair(order[..curr + 1], types, p, c) <==>
              || ConflictPair(order[..curr], types, p, c)
              || (c == order[curr] && p in order[..curr] && Conflicts(UsageOf(types, p), UsageOf(types, c)))
  {
    var s, t := order[..curr], order[..curr + 1];
    forall p, c ensures ConflictPair(t, types, p, c) <==>
              ConflictPair(s, types, p, c) || (c == order[curr] && p in s && Conflicts(UsageOf(types, p), UsageOf(types, c)))
    {
      if ConflictPair(s, types, p, c) {
        var i, j :| 0 <= i < j < |s| && s[i] == p && s[j] == c;
        assert t[i] == p && t[j] == c;
      }
      if c == order[curr] && p in s && Conflicts(UsageOf(types, p), UsageOf(types, c)) {
        var i :| 0 <= i < |s| && s[i] == p;
        assert t[i] == p && t[curr] == c;
      }
    }
  }
}
