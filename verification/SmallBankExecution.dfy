/** SmallBank requests on the parallel executor. */
module SmallBankExecution {
  import opened Graphs
  import opened ConflictDag
  import opened SerialEquivalence
  import opened Executor
  import opened Reduction
  import opened Sequences
  import opened ParallelExecution
  import opened SmallBankModel
  import opened SmallBankPayments

  /** One request after the other. */
  ghost function Serially(requests: map<Tx, Request>, order: seq<Tx>, s: State<Balance>): State<Balance>
    requires forall tx :: tx in order ==> tx in requests
  {
    if order == [] then s else Serially(requests, order[1..], Apply(requests[order[0]], s))
  }

  ghost function Transactions(requests: map<Tx, Request>): map<Tx, Txn<Balance>> {
    map tx | tx in requests :: Transaction(requests[tx])
  }

  lemma {:induction false} SeriallyIsExec(requests: map<Tx, Request>, order: seq<Tx>, s: State<Balance>)
    requires forall tx :: tx in order ==> tx in requests
    ensures Exec(Transactions(requests), order, s) == Serially(requests, order, s)
  {
    if order != [] {
      assert Transactions(requests)[order[0]].run(s) == Apply(requests[order[0]], s);
      SeriallyIsExec(requests, order[1..], Apply(requests[order[0]], s));
    }
  }

  /** Any two requests that do not conflict by their declarations may be exchanged, unless they are payments
      out of one account. */
  lemma RequestsIndependent(requests: map<Tx, Request>)
    requires forall x, y :: x in requests && y in requests && x != y ==>
               Conflicts(Declared(requests[x]), Declared(requests[y])) || !SharePayor(requests[x], requests[y])
    ensures Independent(Transactions(requests))
  {
    var txns := Transactions(requests);
    forall x, y | x in txns && y in txns && x != y && !Conflicts(txns[x].usage, txns[y].usage) ensures Commutes(txns[x], txns[y]) {
      CommuteExactly(requests[x], requests[y]);
      forall s: State<Balance> ensures txns[x].run(txns[y].run(s)) == txns[y].run(txns[x].run(s)) {
        assert Apply(requests[x], Apply(requests[y], s)) == Apply(requests[y], Apply(requests[x], s));
      }
    }
  }

  /** Whatever the workers do, the balances end up as if the requests had been served in the given
      order, provided that no two payments out of one account to others are left unordered by their
      declarations. */
  lemma BalancesAgree(requests: map<Tx, Request>, types: map<Tx, Usage>, order: seq<Tx>, dag: Graph, g: Graph,
          run: seq<Pool>, s: State<Balance>)
    requires Distinct(order) && order != []
    requires forall tx :: tx in order ==> tx in requests && UsageOf(types, tx) == Declared(requests[tx])
    requires forall x, y :: x in requests && y in requests && x != y ==>
               Conflicts(Declared(requests[x]), Declared(requests[y])) || !SharePayor(requests[x], requests[y])
    requires IsConflictDag(order, types, dag)
    requires g == dag || g == Reduced(dag)
    requires IsCompleteRun(g, run)
    ensures forall tx :: tx in Executed(run) ==> tx in requests
    ensures Serially(requests, Executed(run), s) == Serially(requests, order, s)
  {
    var txns := Transactions(requests);
    RequestsIndependent(requests);
    ParallelIsSerial(txns, types, order, dag, g, run, s);
    SeriallyIsExec(requests, order, s);
    SeriallyIsExec(requests, Executed(run), s);
  }
}
