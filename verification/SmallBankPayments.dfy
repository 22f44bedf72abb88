/** Payments declare the account they debit as read only. Which requests commute all the same, though
    their declarations do not conflict. */
module SmallBankPayments {
  import opened ConflictDag
  import opened SerialEquivalence
  import opened SmallBankModel

  /** A payment that debits an account it does not declare 'w'. */
  predicate Moves(r: Request) {
    r.SendPayment? && r.from != r.to && r.amount != 0
  }

  /** Two payments out of one account to others. */
  predicate SharePayor(p: Request, q: Request) {
    Moves(p) && Moves(q) && p.from == q.from
  }

  /** What a request uses in fact. */
  ghost function Used(r: Request): Usage {
    if Moves(r) then map[r.from := 'w', r.to := 'w'] else Declared(r)
  }

  ghost function InFact(r: Request): Txn<Balance> {
    Txn(Used(r), (s: State<Balance>) => Apply(r, s))
  }

  lemma UsedCovers(r: Request)
    ensures Covered(InFact(r))
  {
    if Moves(r) {
      forall s: State<Balance> ensures KeepsOthers(InFact(r), s) {}
      forall s: State<Balance>, t: State<Balance> | SameOn(s, t, Used(r).Keys) ensures WritesAlike(InFact(r), s, t) {
        PaymentAlike(r, s, t);
        assert r.from in Used(r) && r.to in Used(r);
      }
    } else {
      CoveredExactly(r);
      assert InFact(r).usage == Transaction(r).usage;
      forall s: State<Balance> ensures KeepsOthers(InFact(r), s) { assert KeepsOthers(Transaction(r), s); }
      forall s: State<Balance>, t: State<Balance> | SameOn(s, t, Used(r).Keys) ensures WritesAlike(InFact(r), s, t) {
        assert WritesAlike(Transaction(r), s, t);
      }
    }
  }

  /** The two requests in either order. */
  ghost predicate Commuting(p: Request, q: Request) {
    forall s: State<Balance> :: Apply(p, Apply(q, s)) == Apply(q, Apply(p, s))
  }

  lemma ApartCommute(p: Request, q: Request)
    requires !Conflicts(Used(p), Used(q))
    ensures Commuting(p, q)
  {
    UsedCovers(p);
    UsedCovers(q);
    forall s: State<Balance> ensures Apply(p, Apply(q, s)) == Apply(q, Apply(p, s)) {
      Commute(InFact(p), InFact(q), s);
    }
  }

  /** A request that never changes anything. */
  lemma IdleCommutes(p: Request, q: Request)
    requires q.Query? || (q.SendPayment? && !Moves(q))
    ensures Commuting(p, q) && Commuting(q, p)
  {
    forall s: State<Balance> ensures Apply(q, s) == s {
      if q.SendPayment? { NothingMoves(q.from, q.to, q.amount, s); }
    }
  }

  /** Two requests that are neither idle nor payments out of one account conflict in fact only if their
      declarations do. */
  lemma DeclarationsTell(p: Request, q: Request)
    requires !Conflicts(Declared(p), Declared(q)) && !SharePayor(p, q)
    requires !p.Query? && !q.Query? && (p.SendPayment? ==> Moves(p)) && (q.SendPayment? ==> Moves(q))
    ensures !Conflicts(Used(p), Used(q))
  {
    if a :| a in Used(q) && a in Used(p) && ClashOn(Used(p), Used(q), a) {
      assert a in Declared(p) && a in Declared(q);
      assert ClashOn(Declared(p), Declared(q), a);
    }
  }

  /** The balances that show it: enough for either payment, not for both. */
  lemma OneOfTwo(p: Request, q: Request) returns (s: State<Balance>)
    requires SharePayor(p, q) && p.to != q.to && p.amount >= q.amount
    ensures Apply(p, Apply(q, s)) != Apply(q, Apply(p, s))
  {
    s := map[p.from := Balance(p.amount, 0), p.to := Balance(0, 0), q.to := Balance(0, 0)];
    var first, second := Apply(p, s), Apply(q, s);
    assert first[p.from] == Balance(0, 0) && first[p.to] == Balance(p.amount, 0) && first[q.to] == Balance(0, 0);
    assert second[p.from] == Balance(p.amount - q.amount, 0) && second[p.to] == Balance(0, 0);
    assert Apply(q, first) == first && Apply(p, second) == second;
  }

  lemma DifferentPayees(p: Request, q: Request)
    requires SharePayor(p, q) && !Conflicts(Declared(p), Declared(q))
    ensures p.to != q.to
  {
    assert p.to == q.to ==> ClashOn(Declared(p), Declared(q), p.to);
  }

  /** Two requests whose declarations do not conflict commute in every state exactly if they are not two
      payments of something out of one account to others. */
  lemma CommuteExactly(p: Request, q: Request)
    requires !Conflicts(Declared(p), Declared(q))
    ensures Commuting(p, q) <==> !SharePayor(p, q)
  {
    if SharePayor(p, q) {
      DifferentPayees(p, q);
      if p.amount >= q.amount {
        var s := OneOfTwo(p, q);
      } else {
        var s := OneOfTwo(q, p);
      }
    } else if p.Query? || (p.SendPayment? && !Moves(p)) {
      IdleCommutes(q, p);
    } else if q.Query? || (q.SendPayment? && !Moves(q)) {
      IdleCommutes(p, q);
    } else {
      DeclarationsTell(p, q);
      ApartCommute(p, q);
    }
  }
}
