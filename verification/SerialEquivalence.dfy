/** Executing transactions in any order in which those that do not commute keep their places leaves the
    accounts as the given order does; the conflict graph sees to it for transactions that commute unless
    their declarations conflict. */
module SerialEquivalence {
  import opened Graphs
  import opened ConflictDag
  import opened Sequences

  /** The accounts. The set of accounts is fixed; executing a transaction changes their contents. */
  type State<V> = map<Account, V>

  datatype Txn<!V> = Txn(usage: Usage, run: State<V> -> State<V>)

  ghost predicate SameOn<V>(s: State<V>, t: State<V>, accounts: set<Account>) {
    s.Keys == t.Keys && forall a :: a in accounts && a in s ==> s[a] == t[a]
  }

  /** The declaration covers what the transaction does: it changes no account but those declared 'w',
      and what it writes depends on declared accounts alone. */
  ghost predicate Covered<V(!new)>(t: Txn<V>) {
    && WellTyped(t.usage)
    && (forall s: State<V> :: KeepsOthers(t, s))
    && (forall s: State<V>, s': State<V> :: SameOn(s, s', t.usage.Keys) ==> WritesAlike(t, s, s'))
  }

  ghost predicate KeepsOthers<V>(t: Txn<V>, s: State<V>) {
    var r := t.run(s);
    r.Keys == s.Keys && forall a :: a in s && !(a in t.usage && t.usage[a] == 'w') ==> r[a] == s[a]
  }

  ghost predicate WritesAlike<V>(t: Txn<V>, s: State<V>, s': State<V>) {
    var r, r' := t.run(s), t.run(s');
    forall a :: a in t.usage && t.usage[a] == 'w' && a in r && a in r' ==> r[a] == r'[a]
  }

  /** Transactions that do not conflict commute. */
  lemma Commute<V(!new)>(t: Txn<V>, u: Txn<V>, s: State<V>)
    requires Covered(t) && Covered(u) && !Conflicts(t.usage, u.usage)
    ensures t.run(u.run(s)) == u.run(t.run(s))
  {
    ConflictsMeaning(t.usage, u.usage);
    var ts, us := t.run(s), u.run(s);
    assert KeepsOthers(t, s) && KeepsOthers(u, s) && KeepsOthers(t, us) && KeepsOthers(u, ts);
    assert SameOn(s, us, t.usage.Keys) && SameOn(s, ts, u.usage.Keys);
    assert WritesAlike(t, s, us) && WritesAlike(u, s, ts);
    forall a | a in s ensures t.run(us)[a] == u.run(ts)[a] {
      if a in t.usage && t.usage[a] == 'w' {
        assert !(a in u.usage);
      }
    }
  }

  ghost function Exec<V>(txns: map<Tx, Txn<V>>, order: seq<Tx>, s: State<V>): State<V>
    requires forall tx :: tx in order ==> tx in txns
  {
    if order == [] then s
    else Exec(txns, order[1..], txns[order[0]].run(s))
  }

  lemma {:induction false} ExecAppend<V>(txns: map<Tx, Txn<V>>, a: seq<Tx>, b: seq<Tx>, s: State<V>)
    requires forall tx :: tx in a + b ==> tx in txns
    ensures (forall tx :: tx in a ==> tx in txns) && (forall tx :: tx in b ==> tx in txns)
    ensures Exec(txns, a + b, s) == Exec(txns, b, Exec(txns, a, s))
  {
    forall tx | tx in a ensures tx in txns { assert tx in a + b; }
    forall tx | tx in b ensures tx in txns { assert tx in a + b; }
    if a == [] {
      assert a + b == b;
    } else {
      assert (a + b)[1..] == a[1..] + b;
      ExecAppend(txns, a[1..], b, txns[a[0]].run(s));
    }
  }

  /** The last transaction of an order runs on what those before it leave. */
  lemma ExecLast<V>(txns: map<Tx, Txn<V>>, order: seq<Tx>, last: Tx, s: State<V>)
    requires last in txns && forall tx :: tx in order ==> tx in txns
    ensures Exec(txns, [], s) == s && Exec(txns, order + [last], s) == txns[last].run(Exec(txns, order, s))
  {
    ExecAppend(txns, order, [last], s);
    assert [last][1..] == [];
  }

  ghost predicate AllCovered<V(!new)>(txns: map<Tx, Txn<V>>) {
    forall tx :: tx in txns ==> Covered(txns[tx])
  }

  ghost predicate Commutes<V(!new)>(t: Txn<V>, u: Txn<V>) {
    forall s: State<V> :: t.run(u.run(s)) == u.run(t.run(s))
  }

  /** Transactions whose declarations do not conflict commute. */
  ghost predicate Independent<V(!new)>(txns: map<Tx, Txn<V>>) {
    forall x, y :: x in txns && y in txns && x != y && !Conflicts(txns[x].usage, txns[y].usage) ==> Commutes(txns[x], txns[y])
  }

  lemma CoveredIndependent<V(!new)>(txns: map<Tx, Txn<V>>)
    requires AllCovered(txns)
    ensures Independent(txns)
  {
    forall x, y | x in txns && y in txns && x != y && !Conflicts(txns[x].usage, txns[y].usage) ensures Commutes(txns[x], txns[y]) {
      forall s: State<V> { Commute(txns[x], txns[y], s); }
    }
  }

  /** A transaction that commutes with all of those before it may be executed first. */
  lemma {:induction false} MoveFront<V(!new)>(txns: map<Tx, Txn<V>>, a: seq<Tx>, x: Tx, s: State<V>)
    requires x in txns && forall y :: y in a ==> y in txns && Commutes(txns[x], txns[y])
    ensures Exec(txns, a + [x], s) == Exec(txns, [x] + a, s)
  {
    if a == [] {
      assert a + [x] == [x] + a;
    } else {
      var y, rest := a[0], a[1..];
      assert (a + [x])[1..] == rest + [x] && ([x] + a)[1..] == a && ([x] + rest)[1..] == rest;
      MoveFront(txns, rest, x, txns[y].run(s));
      assert Commutes(txns[x], txns[y]);
    }
  }

  /** The same transactions, and the later of two that do not commute stays later. */
  ghost predicate Respects<V(!new)>(txns: map<Tx, Txn<V>>, order: seq<Tx>, other: seq<Tx>)
    requires forall tx :: tx in order ==> tx in txns
  {
    && multiset(other) == multiset(order)
    && forall i, j :: 0 <= i < j < |order| ==> Commutes(txns[order[i]], txns[order[j]]) || Precedes(other, order[i], order[j])
  }

  lemma ExecFirst<V>(txns: map<Tx, Txn<V>>, x: Tx, rest: seq<Tx>, s: State<V>)
    requires forall tx :: tx in [x] + rest ==> tx in txns
    ensures x in txns && (forall tx :: tx in rest ==> tx in txns)
    ensures Exec(txns, [x] + rest, s) == Exec(txns, rest, txns[x].run(s))
  {
    assert x in [x] + rest && ([x] + rest)[1..] == rest;
  }

  /** A transaction that commutes with all before it in a sequence may be executed first. */
  lemma PullOut<V(!new)>(txns: map<Tx, Txn<V>>, a: seq<Tx>, x: Tx, b: seq<Tx>, s: State<V>)
    requires x in txns && forall tx :: tx in a + b ==> tx in txns
    requires forall y :: y in a ==> y in txns && Commutes(txns[x], txns[y])
    ensures forall tx :: tx in a + [x] + b ==> tx in txns
    ensures Exec(txns, a + [x] + b, s) == Exec(txns, a + b, txns[x].run(s))
  {
    var ax, xa, ab := a + [x], [x] + a, a + b;
    forall tx | tx in ax + b ensures tx in txns { assert tx in ab || tx == x; }
    forall tx | tx in xa + b ensures tx in txns { assert tx in ab || tx == x; }
    MoveFront(txns, a, x, s);
    ExecAppend(txns, ax, b, s);
    ExecAppend(txns, xa, b, s);
    assert xa + b == [x] + ab;
    ExecFirst(txns, x, ab, s);
  }

  lemma PullFront<V(!new)>(txns: map<Tx, Txn<V>>, other: seq<Tx>, k: nat, s: State<V>)
    requires (forall tx :: tx in other ==> tx in txns) && k < |other|
    requires forall y :: y in other[..k] ==> Commutes(txns[other[k]], txns[y])
    ensures Exec(txns, other, s) == Exec(txns, other[..k] + other[k + 1..], txns[other[k]].run(s))
  {
    var x, a, b := other[k], other[..k], other[k + 1..];
    assert other == a + [x] + b;
    PullOut(txns, a, x, b, s);
  }

  /** Serial equivalence. */
  lemma {:induction false} SameResult<V(!new)>(txns: map<Tx, Txn<V>>, order: seq<Tx>, other: seq<Tx>, s: State<V>)
    requires Distinct(order) && forall tx :: tx in order ==> tx in txns
    requires Respects(txns, order, other)
    ensures forall tx :: tx in other ==> tx in txns
    ensures Exec(txns, other, s) == Exec(txns, order, s)
    decreases |order|
  {
    forall tx | tx in other ensures tx in txns { assert tx in multiset(order); }
    if order == [] {
      assert |other| == |multiset(other)| == |multiset(order)|;
    } else {
      var x := order[0];
      assert x in multiset(order);
      var k :| 0 <= k < |other| && other[k] == x;
      DistinctMultiset(order, other);
      forall y | y in other[..k] ensures Commutes(txns[x], txns[y]) {
        EarlierIsFree(txns, order, other, k, y);
      }
      PullFront(txns, other, k, s);
      RestRespects(txns, order, other, k);
      SameResult(txns, order[1..], other[..k] + other[k + 1..], txns[x].run(s));
    }
  }

  lemma EarlierIsFree<V(!new)>(txns: map<Tx, Txn<V>>, order: seq<Tx>, other: seq<Tx>, k: nat, y: Tx)
    requires order != [] && (forall tx :: tx in order ==> tx in txns) && Respects(txns, order, other)
    requires Distinct(order) && Distinct(other) && k < |other| && other[k] == order[0] && y in other[..k]
    ensures y in txns && Commutes(txns[order[0]], txns[y])
  {
    assert y in multiset(other);
    assert y in order;
    var j :| 0 <= j < |order| && order[j] == y;
    assert j > 0 by { assert y != other[k]; }
    assert Commutes(txns[order[0]], txns[order[j]]) || Precedes(other, order[0], order[j]);
    NotAfter(other, k, y);
  }

  lemma NotAfter(other: seq<Tx>, k: nat, y: Tx)
    requires Distinct(other) && k < |other| && y in other[..k]
    ensures !Precedes(other, other[k], y)
  {
  }

  lemma RestRespects<V(!new)>(txns: map<Tx, Txn<V>>, order: seq<Tx>, other: seq<Tx>, k: nat)
    requires order != [] && (forall tx :: tx in order ==> tx in txns) && Respects(txns, order, other)
    requires Distinct(order) && Distinct(other) && k < |other| && other[k] == order[0]
    ensures Respects(txns, order[1..], other[..k] + other[k + 1..])
  {
    var rest, left := order[1..], other[..k] + other[k + 1..];
    forall i, j | 0 <= i < j < |rest| ensures Commutes(txns[rest[i]], txns[rest[j]]) || Precedes(left, rest[i], rest[j]) {
      if Precedes(other, order[i + 1], order[j + 1]) { BeforeWithout(other, k, order[i + 1], order[j + 1]); }
    }
    MultisetTail(order);
    MultisetWithout(other, k);
  }

  lemma MultisetTail(s: seq<Tx>)
    requires s != []
    ensures multiset(s[1..]) == multiset(s) - multiset{s[0]}
  {
    assert s == [s[0]] + s[1..];
  }

  lemma MultisetWithout(s: seq<Tx>, k: nat)
    requires k < |s|
    ensures multiset(s[..k] + s[k + 1..]) == multiset(s) - multiset{s[k]}
  {
    assert s == s[..k] + [s[k]] + s[k + 1..];
  }

  /** Taking another element out leaves two elements in their order. */
  lemma BeforeWithout(other: seq<Tx>, k: nat, p: Tx, c: Tx)
    requires Distinct(other) && k < |other| && p != other[k] && c != other[k] && Precedes(other, p, c)
    ensures Precedes(other[..k] + other[k + 1..], p, c)
  {
    var left := other[..k] + other[k + 1..];
    var m, n :| 0 <= m < n < |other| && other[m] == p && other[n] == c;
    var m', n' := if m < k then m else m - 1, if n < k then n else n - 1;
    assert left[m'] == p && left[n'] == c;
  }

  /** Every edge of the graph keeps its direction in the sequence. */
  ghost predicate IsLinearExtension(dag: Graph, other: seq<Tx>) {
    forall p, c :: Edge(dag, p, c) ==> Precedes(other, p, c)
  }

  /** A linear extension of the conflict graph respects the order. */
  lemma ExtensionRespects<V(!new)>(txns: map<Tx, Txn<V>>, types: map<Tx, Usage>, order: seq<Tx>, dag: Graph, other: seq<Tx>)
    requires Independent(txns) && Distinct(order)
    requires forall tx :: tx in order ==> tx in txns && txns[tx].usage == UsageOf(types, tx)
    requires IsConflictDag(order, types, dag)
    requires multiset(other) == multiset(order) && IsLinearExtension(dag, other)
    ensures Respects(txns, order, other)
  {
    forall i, j | 0 <= i < j < |order|
      ensures Commutes(txns[order[i]], txns[order[j]]) || Precedes(other, order[i], order[j])
    {
      assert order[i] in order && order[j] in order;
      if Conflicts(txns[order[i]].usage, txns[order[j]].usage) {
        assert ConflictPair(order, types, order[i], order[j]);
        assert Edge(dag, order[i], order[j]);
      }
    }
  }

  /** Every linear extension of the graph that `create_dag` builds leaves the accounts as the
      sequential execution of the order does. */
  lemma LinearExtensionsAgree<V(!new)>(txns: map<Tx, Txn<V>>, types: map<Tx, Usage>, order: seq<Tx>,
          dag: Graph, other: seq<Tx>, s: State<V>)
    requires Independent(txns) && Distinct(order)
    requires forall tx :: tx in order ==> tx in txns && txns[tx].usage == UsageOf(types, tx)
    requires IsConflictDag(order, types, dag)
    requires multiset(other) == multiset(order) && IsLinearExtension(dag, other)
    ensures forall tx :: tx in other ==> tx in txns
    ensures Exec(txns, other, s) == Exec(txns, order, s)
  {
    ExtensionRespects(txns, types, order, dag, other);
    SameResult(txns, order, other, s);
  }

  /** The conflict graph of an order without repetitions is closed and acyclic. */
  lemma ConflictDagAcyclic(order: seq<Tx>, types: map<Tx, Usage>, dag: Graph)
    requires Distinct(order) && IsConflictDag(order, types, dag)
    ensures Closed(dag) && Acyclic(dag)
  {
    forall u ensures !ReachPlus(dag, u, u) {
      if ReachPlus(dag, u, u) {
        var w :| Edge(dag, u, w) && Reach(dag, w, u);
        PositionsAscend(order, types, dag, u, w);
        var i :| 0 <= i < |order| && order[i] == u;
        var j :| i < j < |order| && order[j] == w;
        var later := set k | j <= k < |order| :: order[k];
        forall a, b | a in later && Edge(dag, a, b) ensures b in later {
          PositionsAscend(order, types, dag, a, b);
        }
        ClosedSet(dag, later, w, u);
      }
    }
  }

  lemma PositionsAscend(order: seq<Tx>, types: map<Tx, Usage>, dag: Graph, p: Tx, c: Tx)
    requires Distinct(order) && IsConflictDag(order, types, dag) && Edge(dag, p, c)
    ensures p in order && c in order
    ensures forall i, j :: 0 <= i < |order| && 0 <= j < |order| && order[i] == p && order[j] == c ==> i < j
    ensures exists i, j :: 0 <= i < j < |order| && order[i] == p && order[j] == c
  {
    assert ConflictPair(order, types, p, c);
  }
}
