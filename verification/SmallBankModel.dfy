/** The SmallBank application: its transactions, their payloads and the accounts they declare, as an
    instance of serial equivalence. */
module SmallBankModel {
  import opened ConflictDag
  import opened SerialEquivalence
  import opened Words

  /** Amounts and identifiers are 64-bit and wrap around. */
  datatype Balance = Balance(checking: Word, saving: Word)

  datatype Payment = Payment(payor: Word, amount: Word)

  datatype Request =
    | Savings(user: Word, amount: Word)
    | Deposit(user: Word, amount: Word)
    | WriteCheck(user: Word, amount: Word)
    | SendPayment(from: Word, to: Word, amount: Word)
    | Split(payors: seq<Payment>, party: seq<Word>)
    | Amalgamate(user: Word)
    | Query(user: Word)

  // ---------------------------------------------------------------- payloads

  function Flat(payors: seq<Payment>): seq<nat> {
    if payors == [] then [] else [payors[0].payor, payors[0].amount] + Flat(payors[1..])
  }

  /** The payload formats. */
  function Encode(r: Request): seq<nat> {
    match r
    case Savings(user, amount) => [0, user, amount]
    case Deposit(user, amount) => [1, user, amount]
    case WriteCheck(user, amount) => [2, user, amount]
    case SendPayment(from, to, amount) => [3, from, to, amount]
    case Split(payors, party) => [4, |payors|] + Flat(payors) + [|party|] + party
    case Amalgamate(user) => [5, user]
    case Query(user) => [6, user]
  }

  lemma {:induction false} FlatAt(payors: seq<Payment>, i: nat)
    requires i < |payors|
    ensures |Flat(payors)| == 2 * |payors|
    ensures Flat(payors)[2 * i] == payors[i].payor && Flat(payors)[2 * i + 1] == payors[i].amount
  {
    if i > 0 {
      FlatAt(payors[1..], i - 1);
    } else if |payors| > 1 {
      FlatAt(payors[1..], 0);
    }
  }

  /** Where the fields of a split lie in its payload. */
  lemma SplitLayout(payors: seq<Payment>, party: seq<Word>)
    ensures var e := Encode(Split(payors, party));
            && |e| == 3 + 2 * |payors| + |party|
            && e[0] == 4 && e[1] == |payors| && e[2 + 2 * |payors|] == |party|
            && (forall i :: 0 <= i < |payors| ==> e[2 + 2 * i] == payors[i].payor && e[3 + 2 * i] == payors[i].amount)
            && (forall i :: 0 <= i < |party| ==> e[3 + 2 * |payors| + i] == party[i])
  {
    var e, flat := Encode(Split(payors, party)), Flat(payors);
    if payors != [] { FlatAt(payors, 0); }
    forall i | 0 <= i < |payors| ensures e[2 + 2 * i] == payors[i].payor && e[3 + 2 * i] == payors[i].amount {
      FlatAt(payors, i);
      assert e[2 + 2 * i] == flat[2 * i] && e[3 + 2 * i] == flat[2 * i + 1];
    }
  }

  /** A payload determines the request. */
  lemma EncodeInjective(r: Request, q: Request)
    requires Encode(r) == Encode(q)
    ensures r == q
  {
    assert Encode(r)[0] == Encode(q)[0];
    if r.Split? {
      assert q.Split?;
      SplitLayout(r.payors, r.party);
      SplitLayout(q.payors, q.party);
      assert r.payors == q.payors && r.party == q.party;
    } else {
      assert Encode(r)[1] == Encode(q)[1];
      assert |Encode(r)| > 2 ==> Encode(r)[2] == Encode(q)[2];
      assert |Encode(r)| > 3 ==> Encode(r)[3] == Encode(q)[3];
    }
  }

  // ---------------------------------------------------------------- meaning

  ghost function Users(r: Request): set<Account> {
    match r
    case Savings(user, _) => {user}
    case Deposit(user, _) => {user}
    case WriteCheck(user, _) => {user}
    case SendPayment(from, to, _) => {from, to}
    case Split(payors, party) => Payors(payors) + Members(party)
    case Amalgamate(user) => {user}
    case Query(user) => {user}
  }

  ghost function Payors(payors: seq<Payment>): set<Account> {
    set i | 0 <= i < |payors| :: payors[i].payor
  }

  ghost function Members(party: seq<Word>): set<Account> {
    set i | 0 <= i < |party| :: party[i]
  }

  lemma PayorsStep(payors: seq<Payment>, i: nat)
    requires i < |payors|
    ensures Payors(payors[..i + 1]) == Payors(payors[..i]) + {payors[i].payor as Account}
  {
    var all := Payors(payors[..i]) + {payors[i].payor as Account};
    forall a | a in all ensures a in Payors(payors[..i + 1]) {
      assert payors[..i + 1][i] == payors[i];
      if a != payors[i].payor {
        var k :| 0 <= k < i && payors[..i][k].payor == a;
        assert payors[..i + 1][k].payor == a;
      }
    }
  }

  lemma MembersStep(party: seq<Word>, i: nat)
    requires i < |party|
    ensures Members(party[..i + 1]) == Members(party[..i]) + {party[i] as Account}
  {
    var all := Members(party[..i]) + {party[i] as Account};
    forall a | a in all ensures a in Members(party[..i + 1]) {
      assert party[..i + 1][i] == party[i];
      if a != party[i] {
        var k :| 0 <= k < i && party[..i][k] == a;
        assert party[..i + 1][k] == a;
      }
    }
  }

  /** `amount_payed` is a 32-bit integer. */
  function Int32(x: int): (r: int)
    ensures -0x8000_0000 <= r < 0x8000_0000 && (x - r) % 0x1_0000_0000 == 0
  {
    var low := x % 0x1_0000_0000;
    if low < 0x8000_0000 then low else low - 0x1_0000_0000
  }

  function Payed(payors: seq<Payment>): (r: int)
    ensures -0x8000_0000 <= r < 0x8000_0000
  {
    if payors == [] then 0
    else Int32((Payed(payors[..|payors| - 1]) + payors[|payors| - 1].amount) % WORD)
  }

  function PerHead(payors: seq<Payment>, party: seq<Word>): Word
    requires party != []
  {
    PerHeadOf(Payed(payors), |party|)
  }

  /** Dividing by an unsigned 64-bit size first makes the dividend one. */
  function PerHeadOf(payed: int, size: nat): (r: Word)
    requires size > 0
  {
    DivideNat(payed % WORD, size);
    (payed % WORD) / size
  }

  lemma DivideNat(x: int, d: int)
    requires x >= 0 && d > 0
    ensures 0 <= x / d <= x
  {
    QuotientBound(x, d, x / d, x % d);
  }

  lemma QuotientBound(x: int, d: int, q: int, r: int)
    requires x == d * q + r && 0 <= r < d && x >= 0
    ensures 0 <= q <= x
  {
    ProductSign(d, q);
  }

  lemma {:induction false} ProductSign(d: int, q: int)
    requires d > 0
    ensures q < 0 ==> d * q <= -d
    ensures q >= 0 ==> d * q >= q
    decreases if q < 0 then -q else q
  {
    if q > 0 {
      ProductSign(d, q - 1);
    } else if q < -1 {
      ProductSign(d, q + 1);
    }
  }

  ghost function Total(payors: seq<Payment>): nat {
    if payors == [] then 0 else Total(payors[..|payors| - 1]) + payors[|payors| - 1].amount
  }

  lemma {:induction false} PayedModulo(payors: seq<Payment>)
    ensures (Total(payors) - Payed(payors)) % 0x1_0000_0000 == 0
  {
    if payors != [] {
      var init, last := payors[..|payors| - 1], payors[|payors| - 1];
      PayedModulo(init);
      ModuloStep(Total(init), Payed(init), last.amount);
    }
  }

  lemma ModuloStep(total: int, payed: int, amount: int)
    requires (total - payed) % 0x1_0000_0000 == 0
    ensures (total + amount - Int32((payed + amount) % WORD)) % 0x1_0000_0000 == 0
  {
    var sum := payed + amount;
    var word := sum % WORD;
    var r := Int32(word);
    var i, j, k := (total - payed) / 0x1_0000_0000, sum / WORD, (word - r) / 0x1_0000_0000;
    assert total - payed == 0x1_0000_0000 * i && sum - word == WORD * j && word - r == 0x1_0000_0000 * k;
    assert total + amount - r == 0x1_0000_0000 * (i + 0x1_0000_0000 * j + k);
  }

  /** The sum that is split is the sum of the payments exactly when it is less than two to the 31. */
  lemma PayedExact(payors: seq<Payment>)
    ensures Payed(payors) == Total(payors) <==> Total(payors) < 0x8000_0000
  {
    PayedModulo(payors);
  }

  /** The share of each place in the party: the sum of the payments, cut to a signed 32-bit number and read
      as an unsigned 64-bit one, divided by the size of the party. */
  lemma ShareExactly(payors: seq<Payment>, party: seq<Word>)
    requires party != []
    ensures var low := Total(payors) % 0x1_0000_0000;
            PerHead(payors, party) == (if low < 0x8000_0000 then low else WORD - 0x1_0000_0000 + low) / |party|
  {
    PayedWord(payors);
  }

  lemma PayedWord(payors: seq<Payment>)
    ensures var low := Total(payors) % 0x1_0000_0000;
            Payed(payors) % WORD == if low < 0x8000_0000 then low else WORD - 0x1_0000_0000 + low
  {
    PayedModulo(payors);
    SameResidue(Total(payors), Payed(payors));
  }

  lemma SameResidue(x: nat, r: int)
    requires (x - r) % 0x1_0000_0000 == 0 && -0x8000_0000 <= r < 0x8000_0000
    ensures r == var low := x % 0x1_0000_0000; if low < 0x8000_0000 then low else low - 0x1_0000_0000
  {
  }

  function Credit(s: State<Balance>, u: Account, amount: nat): State<Balance>
    requires u in s
  {
    s[u := s[u].(checking := (s[u].checking + amount) % WORD)]
  }

  function Debit(s: State<Balance>, u: Account, amount: nat): State<Balance>
    requires u in s
  {
    s[u := s[u].(checking := (s[u].checking - amount) % WORD)]
  }

  function CreditAll(s: State<Balance>, payors: seq<Payment>): (r: State<Balance>)
    requires forall i :: 0 <= i < |payors| ==> payors[i].payor in s
    ensures r.Keys == s.Keys
  {
    if payors == [] then s
    else
      var last := payors[|payors| - 1];
      Credit(CreditAll(s, payors[..|payors| - 1]), last.payor, last.amount)
  }

  function DebitAll(s: State<Balance>, party: seq<Word>, amount: nat): (r: State<Balance>)
    requires forall i :: 0 <= i < |party| ==> party[i] in s
    ensures r.Keys == s.Keys
  {
    if party == [] then s
    else Debit(DebitAll(s, party[..|party| - 1], amount), party[|party| - 1], amount)
  }

  ghost predicate Addressed(r: Request, s: State<Balance>) {
    match r
    case Split(payors, party) =>
      && (forall i :: 0 <= i < |payors| ==> payors[i].payor in s)
      && (forall i :: 0 <= i < |party| ==> party[i] in s)
      && party != []
    case SendPayment(from, to, _) => from in s && to in s
    case _ => r.user in s
  }

  /** Is the transaction carried out, or discarded for lack of funds or room? */
  ghost predicate Accepted(r: Request, s: State<Balance>)
    requires Addressed(r, s)
  {
    match r
    case Savings(user, amount) => s[user].saving + amount < WORD
    case Deposit(user, amount) => s[user].checking + amount < WORD
    case WriteCheck(user, amount) => amount <= s[user].checking
    case SendPayment(from, to, amount) => amount <= s[from].checking && s[to].checking + amount < WORD
    case Split(payors, party) =>
      && (forall i :: 0 <= i < |payors| ==> payors[i].amount <= s[payors[i].payor].checking)
      && (forall i :: 0 <= i < |party| ==> s[party[i]].checking + PerHead(payors, party) < WORD)
    case Amalgamate(user) => s[user].checking + s[user].saving < WORD
    case Query(_) => true
  }

  /** The accounts after a transaction. A request for an account that does not exist has no defined
      effect in the program; here it has none. */
  ghost function Apply(r: Request, s: State<Balance>): State<Balance> {
    if !Addressed(r, s) || !Accepted(r, s) then s
    else
      match r
      case Savings(user, amount) => s[user := s[user].(saving := s[user].saving + amount)]
      case Deposit(user, amount) => s[user := s[user].(checking := s[user].checking + amount)]
      case WriteCheck(user, amount) => s[user := s[user].(checking := s[user].checking - amount)]
      case SendPayment(from, to, amount) => Credit(Debit(s, from, amount), to, amount)
      case Split(payors, party) => DebitAll(CreditAll(s, payors), party, PerHead(payors, party))
      case Amalgamate(user) => s[user := Balance(s[user].checking + s[user].saving, 0)]
      case Query(_) => s
  }

  /** The checking balances after a split. It is carried out exactly if every payor has the funds and every
      member of the party the room; then each account gains what it pays and loses the share of each of its
      places in the party, modulo two to the 64. */
  ghost predicate SplitTo(payors: seq<Payment>, party: seq<Word>, before: seq<Word>, after: seq<Word>)
    requires party != [] && (forall i :: 0 <= i < |payors| ==> payors[i].payor < |before|)
    requires forall i :: 0 <= i < |party| ==> party[i] < |before|
  {
    && |after| == |before|
    && if (forall i :: 0 <= i < |payors| ==> payors[i].amount <= before[payors[i].payor])
          && (forall i :: 0 <= i < |party| ==> before[party[i]] + PerHead(payors, party) < WORD)
       then forall u :: 0 <= u < |before| ==>
              after[u] == (before[u] + PaidBy(payors, u) - PerHead(payors, party) * Places(party, u)) % WORD
       else after == before
  }

  /** The checking balances `a` are those of the accounts `s`. */
  ghost predicate Shows(a: seq<Word>, s: State<Balance>) {
    forall u :: (u in s <==> 0 <= u < |a|) && (u in s ==> s[u].checking == a[u])
  }

  lemma AcceptedSeen(payors: seq<Payment>, party: seq<Word>, s: State<Balance>, before: seq<Word>)
    requires Addressed(Split(payors, party), s) && Shows(before, s)
    ensures forall i :: 0 <= i < |payors| ==> payors[i].payor < |before|
    ensures forall i :: 0 <= i < |party| ==> party[i] < |before|
    ensures Accepted(Split(payors, party), s) <==>
              && (forall i :: 0 <= i < |payors| ==> payors[i].amount <= before[payors[i].payor])
              && (forall i :: 0 <= i < |party| ==> before[party[i]] + PerHead(payors, party) < WORD)
  {
    forall i | 0 <= i < |payors| ensures payors[i].payor < |before| { assert payors[i].payor in s; }
    forall i | 0 <= i < |party| ensures party[i] < |before| { assert party[i] in s; }
  }

  lemma SplitSeen(payors: seq<Payment>, party: seq<Word>, s: State<Balance>, t: State<Balance>, before: seq<Word>, after: seq<Word>)
    requires Addressed(Split(payors, party), s) && t == Apply(Split(payors, party), s)
    requires |before| == |after| && Shows(before, s) && Shows(after, t)
    ensures forall i :: 0 <= i < |payors| ==> payors[i].payor < |before|
    ensures forall i :: 0 <= i < |party| ==> party[i] < |before|
    ensures SplitTo(payors, party, before, after)
  {
    AcceptedSeen(payors, party, s, before);
    if Accepted(Split(payors, party), s) {
      forall u | 0 <= u < |before|
        ensures after[u] == (before[u] + PaidBy(payors, u) - PerHead(payors, party) * Places(party, u)) % WORD
      {
        SplitBalance(payors, party, s, u);
      }
    }
  }

  // ---------------------------------------------------------------- the bank

  class SmallBank {
    const checking: array<Word>
    const saving: array<Word>

    ghost predicate Valid() {
      checking != saving && checking.Length == saving.Length
    }

    ghost function Accounts(): State<Balance>
      requires Valid()
      reads checking, saving
    {
      map u | 0 <= u < checking.Length :: Balance(checking[u], saving[u])
    }

    /** Opening balances are random numbers below 10000; here they are parameters. */
    constructor (checkings: seq<Word>, savings: seq<Word>)
      requires |checkings| == |savings|
      ensures Valid() && fresh(checking) && fresh(saving) && checking.Length == |checkings|
      ensures forall u :: 0 <= u < |checkings| ==> Accounts()[u] == Balance(checkings[u], savings[u])
    {
      checking := new Word[|checkings|](i requires 0 <= i < |checkings| => checkings[i]);
      saving := new Word[|savings|](i requires 0 <= i < |savings| => savings[i]);
    }

    method TransactionSavings(user: Word, amount: Word)
      requires Valid() && user < checking.Length
      modifies saving
      ensures Accounts() == Apply(Savings(user, amount), old(Accounts()))
      ensures saving[..] == if old(saving[user]) + amount < WORD then old(saving[..])[user := old(saving[user]) + amount]
                            else old(saving[..])
    {
      if WORD - 1 - saving[user] < amount { return; }
      saving[user] := saving[user] + amount;
    }

    method DepositChecking(user: Word, amount: Word)
      requires Valid() && user < checking.Length
      modifies checking
      ensures Accounts() == Apply(Deposit(user, amount), old(Accounts()))
      ensures checking[..] == if old(checking[user]) + amount < WORD then old(checking[..])[user := old(checking[user]) + amount]
                              else old(checking[..])
    {
      if WORD - 1 - checking[user] < amount { return; }
      checking[user] := checking[user] + amount;
    }

    method WriteACheck(user: Word, amount: Word)
      requires Valid() && user < checking.Length
      modifies checking
      ensures Accounts() == Apply(WriteCheck(user, amount), old(Accounts()))
      ensures checking[..] == if amount <= old(checking[user]) then old(checking[..])[user := old(checking[user]) - amount]
                              else old(checking[..])
    {
      if checking[user] < amount { return; }
      checking[user] := checking[user] - amount;
    }

    method AmalgamateAccounts(user: Word)
      requires Valid() && user < checking.Length
      modifies checking, saving
      ensures Accounts() == Apply(Amalgamate(user), old(Accounts()))
      ensures if old(checking[user] + saving[user]) < WORD
              then checking[..] == old(checking[..])[user := old(checking[user] + saving[user])] && saving[..] == old(saving[..])[user := 0]
              else checking[..] == old(checking[..]) && saving[..] == old(saving[..])
    {
      if WORD - 1 - checking[user] < saving[user] { return; }
      checking[user] := checking[user] + saving[user];
      saving[user] := 0;
    }

    method Send(from: Word, to: Word, amount: Word)
      requires Valid() && from < checking.Length && to < checking.Length
      modifies checking
      ensures Accounts() == Apply(SendPayment(from, to, amount), old(Accounts()))
      ensures checking[..] == if amount <= old(checking[from]) && old(checking[to]) + amount < WORD && from != to
                              then old(checking[..])[from := old(checking[from]) - amount][to := old(checking[to]) + amount]
                              else old(checking[..])
    {
      if checking[from] < amount || WORD - 1 - checking[to] < amount { return; }
      checking[from] := checking[from] - amount;
      assert Accounts() == Debit(old(Accounts()), from, amount);
      checking[to] := checking[to] + amount;
      assert Accounts() == Credit(Debit(old(Accounts()), from, amount), to, amount);
    }

    method QueryAccounts(user: Word) returns (c: Word, s: Word)
      requires Valid() && user < checking.Length
      ensures c == checking[user] && s == saving[user]
    {
      c, s := checking[user], saving[user];
    }

    method TransactionSplit(payors: seq<Payment>, party: seq<Word>)
      requires Valid() && Addressed(Split(payors, party), Accounts())
      modifies checking
      ensures Accounts() == Apply(Split(payors, party), old(Accounts()))
      ensures SplitTo(payors, party, old(checking[..]), checking[..])
    {
      ghost var before, s := checking[..], Accounts();
      ShowsChecking();
      var payed := AddUp(payors);
      var perHead := PerHeadOf(payed, |party|);
      Settle(payors, party, perHead);
      ShowsChecking();
      SplitSeen(payors, party, s, Accounts(), before, checking[..]);
    }

    lemma ShowsChecking()
      requires Valid()
      ensures Shows(checking[..], Accounts())
    {
    }

    method AddUp(payors: seq<Payment>) returns (payed: int)
      ensures payed == Payed(payors)
    {
      payed := 0;
      for i := 0 to |payors|
        invariant payed == Payed(payors[..i])
      {
        assert payors[..i + 1][..i] == payors[..i];
        payed := Int32((payed + payors[i].amount) % WORD);
      }
      assert payors[..|payors|] == payors;
    }

    method Settle(payors: seq<Payment>, party: seq<Word>, perHead: Word)
      requires Valid() && Addressed(Split(payors, party), Accounts()) && perHead == PerHead(payors, party)
      modifies checking
      ensures Accounts() == Apply(Split(payors, party), old(Accounts()))
    {
      var possible := IsPossible(payors, party, perHead);
      if possible { PayAndCharge(payors, party, perHead); }
    }

    /** The validity checks: every payor has the funds and every member of the party the room. */
    method IsPossible(payors: seq<Payment>, party: seq<Word>, perHead: Word) returns (possible: bool)
      requires Valid() && Addressed(Split(payors, party), Accounts()) && perHead == PerHead(payors, party)
      ensures possible <==> Accepted(Split(payors, party), Accounts())
    {
      for i := 0 to |payors|
        invariant forall k :: 0 <= k < i ==> payors[k].amount <= Accounts()[payors[k].payor].checking
      {
        assert payors[i].payor in Accounts();
        if checking[payors[i].payor] < payors[i].amount { return false; }
      }
      for i := 0 to |party|
        invariant forall k :: 0 <= k < i ==> Accounts()[party[k]].checking + perHead < WORD
      {
        assert party[i] in Accounts();
        if WORD - 1 - checking[party[i]] < perHead { return false; }
      }
      return true;
    }

    method PayAndCharge(payors: seq<Payment>, party: seq<Word>, perHead: Word)
      requires Valid() && Addressed(Split(payors, party), Accounts())
      modifies checking
      ensures Accounts() == DebitAll(CreditAll(old(Accounts()), payors), party, perHead)
    {
      ghost var s := Accounts();
      for i := 0 to |payors|
        invariant Accounts() == CreditAll(s, payors[..i])
      {
        assert payors[..i + 1][..i] == payors[..i];
        CreditAccount(payors[i].payor, payors[i].amount);
      }
      assert payors[..|payors|] == payors;
      ghost var t := Accounts();
      for i := 0 to |party|
        invariant Accounts() == DebitAll(t, party[..i], perHead)
      {
        assert party[i] in t && party[..i + 1][..i] == party[..i];
        DebitAccount(party[i], perHead);
      }
      assert party[..|party|] == party;
    }

    method CreditAccount(user: Word, amount: Word)
      requires Valid() && user in Accounts()
      modifies checking
      ensures Accounts() == Credit(old(Accounts()), user, amount)
    {
      checking[user] := (checking[user] + amount) % WORD;
    }

    method DebitAccount(user: Word, amount: Word)
      requires Valid() && user in Accounts()
      modifies checking
      ensures Accounts() == Debit(old(Accounts()), user, amount)
    {
      checking[user] := (checking[user] - amount) % WORD;
    }
  }

  // ---------------------------------------------------------------- reading payloads

  /** Counts fit the signed loop counters that read them back. */
  ghost predicate Encodable(r: Request) {
    r.Split? ==> |r.payors| < 0x8000_0000 && |r.party| < 0x8000_0000
  }

  /** What a payload asks for, if its type is one of those known. */
  datatype Content = Asks(request: Request) | UnknownType

  ghost predicate Says(payload: seq<Word>, content: Content) {
    match content
    case Asks(r) => payload == Encode(r) && Encodable(r)
    case UnknownType => payload != [] && payload[0] > 6
  }

  /** The accounts that a request declares. */
  ghost function Declared(r: Request): Usage {
    match r
    case SendPayment(from, to, _) => map[from := 'r'][to := 'w']
    case Query(user) => map[user := 'r']
    case _ => map u | u in Users(r) :: 'w'
  }

  ghost function AllWritten(users: set<Account>): Usage {
    map u | u in users :: 'w'
  }

  lemma WrittenMore(users: set<Account>, user: Account)
    ensures AllWritten(users + {user}) == AllWritten(users)[user := 'w']
  {
  }

  /** A payload of type 4: the number of payors, each with its amount, then the size of the party and its
      members. */
  ghost predicate InSplit(payload: seq<Word>, a: Account) {
    (exists i: nat :: PaysAt(payload, i, a)) || (exists i: nat :: BelongsAt(payload, i, a))
  }

  ghost predicate PaysAt(payload: seq<Word>, i: nat, a: Account) {
    |payload| > 1 && i < payload[1] && 2 + 2 * i < |payload| && payload[2 + 2 * i] == a
  }

  ghost predicate BelongsAt(payload: seq<Word>, i: nat, a: Account) {
    |payload| > 1 && MemberAt(payload, 2 + 2 * (payload[1] as nat), i, a)
  }

  /** The party starts with its size at place `from`. */
  ghost predicate MemberAt(payload: seq<Word>, from: nat, i: nat, a: Account) {
    from < |payload| && i < payload[from] && from + 1 + i < |payload| && payload[from + 1 + i] == a
  }

  lemma SplitAccounts(payload: seq<Word>, payors: seq<Payment>, party: seq<Word>)
    requires payload == Encode(Split(payors, party))
    ensures forall a :: InSplit(payload, a) <==> a in Payors(payors) || a in Members(party)
  {
    forall a ensures InSplit(payload, a) <==> a in Payors(payors) || a in Members(party) {
      SplitPayors(payload, payors, party, a);
      SplitMembers(payload, payors, party, a);
    }
  }

  lemma SplitPayors(payload: seq<Word>, payors: seq<Payment>, party: seq<Word>, a: Account)
    requires payload == Encode(Split(payors, party))
    ensures (exists i: nat :: PaysAt(payload, i, a)) <==> a in Payors(payors)
  {
    SplitLayout(payors, party);
    if i: nat :| PaysAt(payload, i, a) { assert payors[i].payor == a; }
    if i: nat :| 0 <= i < |payors| && payors[i].payor == a { assert PaysAt(payload, i, a); }
  }

  lemma SplitMembers(payload: seq<Word>, payors: seq<Payment>, party: seq<Word>, a: Account)
    requires payload == Encode(Split(payors, party))
    ensures (exists i: nat :: BelongsAt(payload, i, a)) <==> a in Members(party)
  {
    SplitLayout(payors, party);
    if i: nat :| BelongsAt(payload, i, a) { assert party[i] == a; }
    if i: nat :| 0 <= i < |party| && party[i] == a { assert BelongsAt(payload, i, a); }
  }

  class SmallBankManager {
    const bank: SmallBank

    constructor (bank: SmallBank)
      ensures this.bank == bank
    {
      this.bank := bank;
    }

    /** What the client's payload declares; nothing, beside a message, if its type is not known. */
    method GetUsersDetail(payload: seq<Word>, ghost content: Content) returns (users: Usage)
      requires Says(payload, content)
      ensures users == if content.Asks? then Declared(content.request) else map[]
      ensures payload[0] in {0, 1, 2, 5} ==> users == map[payload[1] := 'w']
      ensures payload[0] == 3 ==> users == if payload[1] == payload[2] then map[payload[1] := 'w'] else map[payload[1] := 'r', payload[2] := 'w']
      ensures payload[0] == 6 ==> users == map[payload[1] := 'r']
      ensures payload[0] == 4 ==> (forall a :: a in users ==> users[a] == 'w') && forall a :: a in users <==> InSplit(payload, a)
      ensures payload[0] > 6 ==> users == map[]
    {
      users := map[];
      var idx := 1;
      if content.Asks? && content.request.Split? {
        SplitAccounts(payload, content.request.payors, content.request.party);
      }
      match payload[0]
      case 0 =>
        users := users[payload[idx] := 'w'];
      case 1 =>
        users := users[payload[idx] := 'w'];
      case 2 =>
        users := users[payload[idx] := 'w'];
      case 3 =>
        users := users[payload[idx] := 'r'];
        users := users[payload[idx + 1] := 'w'];
      case 4 =>
        users := SplitUsers(payload, content.request.payors, content.request.party);
      case 5 =>
        users := users[payload[idx] := 'w'];
      case 6 =>
        users := users[payload[idx] := 'r'];
      case _ =>
    }

    method SplitUsers(payload: seq<Word>, ghost payors: seq<Payment>, ghost party: seq<Word>) returns (users: Usage)
      requires payload == Encode(Split(payors, party))
      ensures users == Declared(Split(payors, party))
    {
      SplitLayout(payors, party);
      users := PayorUsers(payload, payors, party);
      users := PartyUsers(payload, payors, party, users);
    }

    method PayorUsers(payload: seq<Word>, ghost payors: seq<Payment>, ghost party: seq<Word>) returns (users: Usage)
      requires payload == Encode(Split(payors, party))
      ensures users == AllWritten(Payors(payors))
    {
      SplitLayout(payors, party);
      users := map[];
      var nPayors := payload[1];
      var idx := 2;
      for i := 0 to nPayors
        invariant idx == 2 + 2 * i
        invariant users == AllWritten(Payors(payors[..i]))
      {
        PayorsStep(payors, i);
        WrittenMore(Payors(payors[..i]), payors[i].payor);
        users := users[payload[idx] := 'w'];
        idx := idx + 2;
      }
      assert payors[..nPayors] == payors;
    }

    method PartyUsers(payload: seq<Word>, ghost payors: seq<Payment>, ghost party: seq<Word>, before: Usage)
      returns (users: Usage)
      requires payload == Encode(Split(payors, party))
      requires before == AllWritten(Payors(payors))
      ensures users == AllWritten(Payors(payors) + Members(party))
    {
      SplitLayout(payors, party);
      users := before;
      var nPayors: nat := payload[1];
      var idx := 2 + 2 * nPayors;
      var partySize := payload[idx];
      idx := idx + 1;
      for i := 0 to partySize
        invariant idx == 3 + 2 * |payors| + i
        invariant users == AllWritten(Payors(payors) + Members(party[..i]))
      {
        MembersStep(party, i);
        WrittenMore(Payors(payors) + Members(party[..i]), party[i]);
        assert Payors(payors) + Members(party[..i + 1]) == Payors(payors) + Members(party[..i]) + {party[i] as Account};
        users := users[payload[idx] := 'w'];
        idx := idx + 1;
      }
      assert party[..partySize] == party;
    }

    /** Carries out what the payload asks for; nothing, beside a message, if its type is not known. */
    method ExecuteTransaction(payload: seq<Word>, ghost content: Content) returns (c: Word, s: Word)
      requires Says(payload, content)
      requires bank.Valid() && (content.Asks? ==> Addressed(content.request, bank.Accounts()))
      modifies bank.checking, bank.saving
      ensures bank.Accounts() == if content.Asks? then Apply(content.request, old(bank.Accounts())) else old(bank.Accounts())
      ensures Balance(c, s) == if content.Asks? && content.request.Query? then old(bank.Accounts())[content.request.user]
                               else Balance(0, 0)
      ensures bank.Accounts() == match payload[0]
                                 case 0 => Apply(Savings(payload[1], payload[2]), old(bank.Accounts()))
                                 case 1 => Apply(Deposit(payload[1], payload[2]), old(bank.Accounts()))
                                 case 2 => Apply(WriteCheck(payload[1], payload[2]), old(bank.Accounts()))
                                 case 3 => Apply(SendPayment(payload[1], payload[2], payload[3]), old(bank.Accounts()))
                                 case 4 => Apply(content.request, old(bank.Accounts()))
                                 case 5 => Apply(Amalgamate(payload[1]), old(bank.Accounts()))
                                 case _ => old(bank.Accounts())
    {
      c, s := 0, 0;
      match payload[0]
      case 0 => bank.TransactionSavings(payload[1], payload[2]);
      case 1 => bank.DepositChecking(payload[1], payload[2]);
      case 2 => bank.WriteACheck(payload[1], payload[2]);
      case 3 => bank.Send(payload[1], payload[2], payload[3]);
      case 4 =>
        var payors, party := ReadSplit(payload, content.request.payors, content.request.party);
        bank.TransactionSplit(payors, party);
      case 5 => bank.AmalgamateAccounts(payload[1]);
      case 6 => c, s := bank.QueryAccounts(payload[1]);
      case _ =>
    }

    method ReadSplit(payload: seq<Word>, ghost payors: seq<Payment>, ghost party: seq<Word>)
      returns (payors': seq<Payment>, party': seq<Word>)
      requires payload == Encode(Split(payors, party))
      ensures payors' == payors && party' == party
    {
      SplitLayout(payors, party);
      var idx := 1;
      var nPayors := payload[idx];
      idx := idx + 1;
      payors', party' := [], [];
      for i := 0 to nPayors
        invariant idx == 2 + 2 * i && payors' == payors[..i]
      {
        payors' := payors' + [Payment(payload[idx], payload[idx + 1])];
        idx := idx + 2;
      }
      var partySize := payload[idx];
      idx := idx + 1;
      for i := 0 to partySize
        invariant idx == 3 + 2 * nPayors + i && party' == party[..i]
      {
        party' := party' + [payload[idx]];
        idx := idx + 1;
      }
    }
  }

  // ---------------------------------------------------------------- an instance of serial equivalence

  /** The transaction as the executor sees it. */
  ghost function Transaction(r: Request): Txn<Balance> {
    Txn(Declared(r), (s: State<Balance>) => Apply(r, s))
  }

  lemma {:induction false} CreditOutside(s: State<Balance>, payors: seq<Payment>, a: Account)
    requires (forall i :: 0 <= i < |payors| ==> payors[i].payor in s) && a in s && a !in Payors(payors)
    ensures CreditAll(s, payors)[a] == s[a]
  {
    if payors != [] {
      var init := payors[..|payors| - 1];
      assert Payors(init) <= Payors(payors) && payors[|payors| - 1].payor in Payors(payors);
      CreditOutside(s, init, a);
    }
  }

  lemma {:induction false} DebitOutside(s: State<Balance>, party: seq<Word>, amount: nat, a: Account)
    requires (forall i :: 0 <= i < |party| ==> party[i] in s) && a in s && a !in Members(party)
    ensures DebitAll(s, party, amount)[a] == s[a]
  {
    if party != [] {
      var init := party[..|party| - 1];
      assert Members(init) <= Members(party) && party[|party| - 1] in Members(party);
      DebitOutside(s, init, amount, a);
    }
  }

  lemma {:induction false} CreditAlike(s: State<Balance>, t: State<Balance>, payors: seq<Payment>, a: Account)
    requires (forall i :: 0 <= i < |payors| ==> payors[i].payor in s && payors[i].payor in t)
    requires a in s && a in t && s[a] == t[a]
    ensures CreditAll(s, payors)[a] == CreditAll(t, payors)[a]
  {
    if payors != [] { CreditAlike(s, t, payors[..|payors| - 1], a); }
  }

  lemma {:induction false} DebitAlike(s: State<Balance>, t: State<Balance>, party: seq<Word>, amount: nat, a: Account)
    requires (forall i :: 0 <= i < |party| ==> party[i] in s && party[i] in t)
    requires a in s && a in t && s[a] == t[a]
    ensures DebitAll(s, party, amount)[a] == DebitAll(t, party, amount)[a]
  {
    if party != [] { DebitAlike(s, t, party[..|party| - 1], amount, a); }
  }

  lemma TransactionKeepsOthers(r: Request, s: State<Balance>)
    requires !r.SendPayment?
    ensures KeepsOthers(Transaction(r), s)
  {
    if r.Split? && Addressed(r, s) && Accepted(r, s) {
      var paid := CreditAll(s, r.payors);
      forall a | a in s && a !in Users(r) ensures Apply(r, s)[a] == s[a] {
        CreditOutside(s, r.payors, a);
        DebitOutside(paid, r.party, PerHead(r.payors, r.party), a);
      }
    }
  }

  lemma TransactionWritesAlike(r: Request, s: State<Balance>, t: State<Balance>)
    requires SameOn(s, t, Declared(r).Keys)
    ensures WritesAlike(Transaction(r), s, t)
  {
    assert forall a :: a in Users(r) <==> a in Declared(r);
    if r.Split? {
      SplitAlike(r, s, t);
    } else if r.SendPayment? {
      PaymentAlike(r, s, t);
    } else {
      UserAlike(r, s, t);
    }
  }

  lemma PaymentAlike(r: Request, s: State<Balance>, t: State<Balance>)
    requires r.SendPayment? && SameOn(s, t, Users(r))
    ensures WritesAlike(Transaction(r), s, t)
  {
    assert r.from in Users(r) && r.to in Users(r);
  }

  lemma UserAlike(r: Request, s: State<Balance>, t: State<Balance>)
    requires !r.Split? && !r.SendPayment? && SameOn(s, t, Users(r))
    ensures WritesAlike(Transaction(r), s, t)
  {
    assert r.user in Users(r) && Addressed(r, s) == Addressed(r, t);
  }

  lemma SplitAlike(r: Request, s: State<Balance>, t: State<Balance>)
    requires r.Split? && SameOn(s, t, Users(r))
    ensures WritesAlike(Transaction(r), s, t)
  {
    SplitAcceptedAlike(r, s, t);
    if Addressed(r, s) && Accepted(r, s) {
      forall a | a in s && a in t && s[a] == t[a] ensures Apply(r, s)[a] == Apply(r, t)[a] {
        CreditAlike(s, t, r.payors, a);
        DebitAlike(CreditAll(s, r.payors), CreditAll(t, r.payors), r.party, PerHead(r.payors, r.party), a);
      }
    }
  }

  lemma SplitAcceptedAlike(r: Request, s: State<Balance>, t: State<Balance>)
    requires r.Split? && SameOn(s, t, Users(r))
    ensures Addressed(r, s) <==> Addressed(r, t)
    ensures Addressed(r, s) ==> (Accepted(r, s) <==> Accepted(r, t))
  {
    var Split(payors, party) := r;
    forall i | 0 <= i < |payors| ensures payors[i].payor in Users(r) { assert payors[i].payor in Payors(payors); }
    forall i | 0 <= i < |party| ensures party[i] in Users(r) { assert party[i] in Members(party); }
  }

  /** Every request but a payment changes only accounts it declares 'w', by what its declared accounts
      hold. */
  lemma RequestsCovered(r: Request)
    requires !r.SendPayment?
    ensures Covered(Transaction(r))
  {
    forall s: State<Balance> { TransactionKeepsOthers(r, s); }
    forall s: State<Balance>, t: State<Balance> | SameOn(s, t, Declared(r).Keys) { TransactionWritesAlike(r, s, t); }
  }

  /** A payment declares the account it debits 'r'. Its declaration covers it exactly when it moves
      nothing or moves it to the same account. */
  lemma PaymentCovered(from: Word, to: Word, amount: Word)
    ensures Covered(Transaction(SendPayment(from, to, amount))) <==> from == to || amount == 0
  {
    var r := SendPayment(from, to, amount);
    var t := Transaction(r);
    if from == to || amount == 0 {
      forall s: State<Balance> ensures KeepsOthers(t, s) { NothingMoves(from, to, amount, s); }
      forall s: State<Balance>, s': State<Balance> | SameOn(s, s', t.usage.Keys) { TransactionWritesAlike(r, s, s'); }
    } else {
      var s := DebitShows(from, to, amount);
    }
  }

  lemma NothingMoves(from: Word, to: Word, amount: Word, s: State<Balance>)
    requires from == to || amount == 0
    ensures Apply(SendPayment(from, to, amount), s) == s
  {
  }

  lemma DebitShows(from: Word, to: Word, amount: Word) returns (s: State<Balance>)
    requires from != to && amount != 0
    ensures !KeepsOthers(Transaction(SendPayment(from, to, amount)), s)
  {
    var r := SendPayment(from, to, amount);
    s := map[from := Balance(amount, 0), to := Balance(0, 0)];
    assert Addressed(r, s) && Accepted(r, s);
    assert Apply(r, s)[from] == Balance(0, 0);
  }

  /** Does the declaration of the request cover it? */
  predicate DeclaredInFull(r: Request) {
    r.SendPayment? ==> r.from == r.to || r.amount == 0
  }

  lemma CoveredExactly(r: Request)
    ensures Covered(Transaction(r)) <==> DeclaredInFull(r)
  {
    if r.SendPayment? {
      PaymentCovered(r.from, r.to, r.amount);
    } else {
      RequestsCovered(r);
    }
  }

  /** Two payments from one account do not conflict by their declarations, yet their order matters. */
  lemma PaymentsOrderMatters()
    ensures var p, q := SendPayment(0, 1, 5), SendPayment(0, 2, 5);
            && !Conflicts(Declared(p), Declared(q)) && !Conflicts(Declared(q), Declared(p))
            && exists s: State<Balance> :: Apply(p, Apply(q, s)) != Apply(q, Apply(p, s))
  {
    var p, q := SendPayment(0, 1, 5), SendPayment(0, 2, 5);
    var s: State<Balance> := map[0 := Balance(5, 0), 1 := Balance(0, 0), 2 := Balance(0, 0)];
    assert Apply(p, Apply(q, s))[1] == Balance(0, 0);
    assert Apply(q, Apply(p, s))[1] == Balance(5, 0);
  }

  // ---------------------------------------------------------------- money

  /** The money on the accounts below `n`. */
  ghost function Money(s: State<Balance>, n: nat): nat {
    if n == 0 then 0
    else Money(s, n - 1) + if n - 1 in s then s[n - 1].checking + s[n - 1].saving else 0
  }

  lemma {:induction false} MoneyUpdate(s: State<Balance>, u: Account, b: Balance, n: nat)
    requires u in s && u < n
    ensures Money(s[u := b], n) == Money(s, n) + (b.checking + b.saving) - (s[u].checking + s[u].saving)
  {
    if u < n - 1 {
      MoneyUpdate(s, u, b, n - 1);
    } else {
      MoneyElsewhere(s, u, b, n - 1);
    }
  }

  lemma {:induction false} MoneyElsewhere(s: State<Balance>, u: Account, b: Balance, n: nat)
    requires u in s && n <= u
    ensures Money(s[u := b], n) == Money(s, n)
  {
    if n > 0 { MoneyElsewhere(s, u, b, n - 1); }
  }

  /** How much a request brings in. */
  function Brings(r: Request): int
    requires !r.Split?
  {
    match r
    case Savings(_, amount) => amount
    case Deposit(_, amount) => amount
    case WriteCheck(_, amount) => -(amount as int)
    case _ => 0
  }

  /** But for splits, no request creates or loses money: the total changes by what the request brings
      in if it is accepted, and not at all otherwise; and no amount wraps around. */
  lemma MoneyKept(r: Request, s: State<Balance>, n: nat)
    requires !r.Split? && Addressed(r, s) && forall u :: u in s ==> u < n
    ensures Money(Apply(r, s), n) == Money(s, n) + if Accepted(r, s) then Brings(r) else 0
  {
    if Accepted(r, s) && r.SendPayment? {
      PaymentKeeps(r.from, r.to, r.amount, s, n);
    } else if Accepted(r, s) && !r.Query? {
      assert Apply(r, s) == s[r.user := Apply(r, s)[r.user]];
      MoneyUpdate(s, r.user, Apply(r, s)[r.user], n);
    }
  }

  lemma PaymentKeeps(from: Word, to: Word, amount: Word, s: State<Balance>, n: nat)
    requires from in s && to in s && amount <= s[from].checking && s[to].checking + amount < WORD && forall u :: u in s ==> u < n
    ensures Money(Credit(Debit(s, from, amount), to, amount), n) == Money(s, n)
  {
    var t := Debit(s, from, amount);
    SmallWord(s[from].checking - amount);
    SmallWord(t[to].checking + amount);
    MoneyUpdate(s, from, t[from], n);
    MoneyUpdate(t, to, Credit(t, to, amount)[to], n);
  }

  // ---------------------------------------------------------------- what a split moves

  /** Equal modulo two to the 64. */
  predicate SameWord(x: int, y: int) {
    (x - y) % WORD == 0
  }

  lemma SameWordStep(x: int, y: int, d: int)
    requires SameWord(x, y)
    ensures SameWord((x + d) % WORD, y + d)
  {
    var i, j := (x - y) / WORD, (x + d) / WORD;
    assert x - y == WORD * i && x + d - (x + d) % WORD == WORD * j;
    assert (x + d) % WORD - (y + d) == WORD * (i - j);
  }

  lemma SameWordSum(x: int, y: int, v: int, w: int)
    requires SameWord(x, y) && SameWord(v, w)
    ensures SameWord(x + v, y + w)
  {
    var i, j := (x - y) / WORD, (v - w) / WORD;
    assert x - y == WORD * i && v - w == WORD * j;
    assert x + v - (y + w) == WORD * (i + j);
  }

  /** Words that agree modulo two to the 64 are equal. */
  lemma OnlyWord(r: int, x: int)
    requires 0 <= r < WORD && SameWord(r, x)
    ensures r == x % WORD
  {
    var i, j := (r - x) / WORD, x / WORD;
    assert r - x == WORD * i && x == WORD * j + x % WORD;
    assert r - x % WORD == WORD * (i + j);
  }

  /** What an account pays in all, and what all accounts pay. */
  ghost function PaidBy(payors: seq<Payment>, a: Account): nat {
    if payors == [] then 0
    else PaidBy(payors[..|payors| - 1], a) + if payors[|payors| - 1].payor == a then payors[|payors| - 1].amount else 0
  }

  /** How often an account is in the party. */
  ghost function Places(party: seq<Word>, a: Account): nat {
    if party == [] then 0
    else Places(party[..|party| - 1], a) + if party[|party| - 1] == a then 1 else 0
  }

  lemma OneMore(x: int, k: int)
    ensures x * (k + 1) == x * k + x
  {
  }

  lemma {:induction false} CreditedAt(s: State<Balance>, payors: seq<Payment>, a: Account)
    requires (forall i :: 0 <= i < |payors| ==> payors[i].payor in s) && a in s
    ensures var t := CreditAll(s, payors);
            SameWord(t[a].checking, s[a].checking + PaidBy(payors, a)) && t[a].saving == s[a].saving
  {
    if payors != [] {
      var init, last := payors[..|payors| - 1], payors[|payors| - 1];
      CreditedAt(s, init, a);
      SameWordStep(CreditAll(s, init)[a].checking, s[a].checking + PaidBy(init, a), last.amount);
    }
  }

  lemma DebitedOnce(before: int, start: int, lost: int, amount: nat)
    requires SameWord(before, start - lost)
    ensures SameWord((before - amount) % WORD, start - (lost + amount))
  {
    SameWordStep(before, start - lost, -(amount as int));
  }

  lemma {:induction false} DebitedAt(s: State<Balance>, party: seq<Word>, amount: nat, a: Account)
    requires (forall i :: 0 <= i < |party| ==> party[i] in s) && a in s
    ensures var t := DebitAll(s, party, amount);
            SameWord(t[a].checking, s[a].checking - amount * Places(party, a)) && t[a].saving == s[a].saving
  {
    if party != [] {
      var init, last := party[..|party| - 1], party[|party| - 1];
      DebitedAt(s, init, amount, a);
      var before, lost := DebitAll(s, init, amount)[a].checking, amount * Places(init, a);
      DebitedOnce(before, s[a].checking, lost, amount);
      OneMore(amount, Places(init, a));
    }
  }

  /** Every balance after an accepted split: each account gains what it pays and loses the share of
      each of its places in the party, modulo two to the 64; savings stay. */
  lemma SplitBalance(payors: seq<Payment>, party: seq<Word>, s: State<Balance>, a: Account)
    requires Addressed(Split(payors, party), s) && Accepted(Split(payors, party), s) && a in s
    ensures var t := Apply(Split(payors, party), s);
            && a in t && t[a].saving == s[a].saving
            && t[a].checking == (s[a].checking + PaidBy(payors, a) - PerHead(payors, party) * Places(party, a)) % WORD
  {
    CreditsAndDebits(payors, party, s, PerHead(payors, party), a);
  }

  lemma CreditsAndDebits(payors: seq<Payment>, party: seq<Word>, s: State<Balance>, share: nat, a: Account)
    requires (forall i :: 0 <= i < |payors| ==> payors[i].payor in s) && (forall i :: 0 <= i < |party| ==> party[i] in s) && a in s
    ensures var t := DebitAll(CreditAll(s, payors), party, share);
            && t[a].saving == s[a].saving
            && t[a].checking == (s[a].checking + PaidBy(payors, a) - share * Places(party, a)) % WORD
  {
    var paid := CreditAll(s, payors);
    CreditedAt(s, payors, a);
    DebitedAt(paid, party, share, a);
    CreditThenDebit(DebitAll(paid, party, share)[a].checking, paid[a].checking, s[a].checking + PaidBy(payors, a),
                    share * Places(party, a));
  }

  lemma CreditThenDebit(after: Word, between: int, gained: int, loss: int)
    requires SameWord(after, between - loss) && SameWord(between, gained)
    ensures after == (gained - loss) % WORD
  {
    SameWordSum(between, gained, -loss, -loss);
    SameWordTrans(after, between - loss, gained - loss);
    OnlyWord(after, gained - loss);
  }

  lemma SameWordTrans(x: int, y: int, z: int)
    requires SameWord(x, y) && SameWord(y, z)
    ensures SameWord(x, z)
  {
    var i, j := (x - y) / WORD, (y - z) / WORD;
    assert x - y == WORD * i && y - z == WORD * j;
    assert x - z == WORD * (i + j);
  }

  lemma {:induction false} NoPlaces(party: seq<Word>, a: Account)
    ensures Places(party, a) == 0 <==> a !in Members(party)
  {
    if party != [] {
      var init := party[..|party| - 1];
      NoPlaces(init, a);
      MembersStep(party, |party| - 1);
      assert party[..|party| - 1 + 1] == party;
    }
  }

  lemma {:induction false} NothingPaid(payors: seq<Payment>, a: Account)
    requires a !in Payors(payors)
    ensures PaidBy(payors, a) == 0
  {
    if payors != [] {
      var init := payors[..|payors| - 1];
      PayorsStep(payors, |payors| - 1);
      assert payors[..|payors| - 1 + 1] == payors;
      NothingPaid(init, a);
    }
  }

  /** The direction of a split: whoever pays and is not in the party gains what it pays, and whoever is
      in the party and does not pay loses its shares, unless the balance wraps around. */
  lemma SplitDirection(payors: seq<Payment>, party: seq<Word>, s: State<Balance>, a: Account)
    requires Addressed(Split(payors, party), s) && Accepted(Split(payors, party), s) && a in s
    ensures var before, after := s[a].checking, Apply(Split(payors, party), s)[a].checking;
            var share := PerHead(payors, party);
            && (a !in Members(party) && before + PaidBy(payors, a) < WORD ==> after == before + PaidBy(payors, a))
            && (a !in Payors(payors) && share * Places(party, a) <= before ==> after == before - share * Places(party, a))
  {
    var share := PerHead(payors, party);
    var loss := share * Places(party, a);
    SplitBalance(payors, party, s, a);
    if a !in Members(party) {
      NoPlaces(party, a);
      TimesNone(share, Places(party, a));
      LossInRange(s[a].checking, PaidBy(payors, a));
    }
    if a !in Payors(payors) {
      NothingPaid(payors, a);
      TimesNat(share, Places(party, a));
      LossInRange(s[a].checking, loss);
    }
  }

  lemma TimesNat(x: nat, k: nat)
    ensures x * k >= 0
  {
  }

  lemma TimesNone(x: int, k: int)
    ensures k == 0 ==> x * k == 0
  {
  }

  lemma LossInRange(before: Word, d: int)
    ensures 0 <= before - d < WORD ==> (before - d) % WORD == before - d
    ensures 0 <= before + d < WORD ==> (before + d) % WORD == before + d
  {
    SmallWord(before - d);
    SmallWord(before + d);
  }

  lemma SmallWord(x: int)
    ensures 0 <= x < WORD ==> x % WORD == x
  {
  }

  lemma {:induction false} MoneyCredited(s: State<Balance>, payors: seq<Payment>, n: nat)
    requires (forall i :: 0 <= i < |payors| ==> payors[i].payor in s) && forall u :: u in s ==> u < n
    ensures SameWord(Money(CreditAll(s, payors), n), Money(s, n) + Total(payors))
  {
    if payors != [] {
      var init, last := payors[..|payors| - 1], payors[|payors| - 1];
      MoneyCredited(s, init, n);
      var t := CreditAll(s, init);
      MoneyUpdate(t, last.payor, Credit(t, last.payor, last.amount)[last.payor], n);
      MoneyStep(Money(t, n), Money(s, n) + Total(init), t[last.payor].checking, last.amount);
    }
  }

  /** The total moves by as much as the balance that changes. */
  lemma MoneyStep(money: int, expected: int, checking: Word, d: int)
    requires SameWord(money, expected)
    ensures SameWord(money + (checking + d) % WORD - checking, expected + d)
  {
    var c := checking as int;
    SameWordStep(c, c, d);
    SameWordSum(money, expected, (c + d) % WORD, c + d);
    SameWordSum(money + (c + d) % WORD, expected + c + d, -c, -c);
  }

  lemma {:induction false} MoneyDebited(s: State<Balance>, party: seq<Word>, amount: nat, n: nat)
    requires (forall i :: 0 <= i < |party| ==> party[i] in s) && forall u :: u in s ==> u < n
    ensures SameWord(Money(DebitAll(s, party, amount), n), Money(s, n) - amount * |party|)
  {
    if party != [] {
      var init, last := party[..|party| - 1], party[|party| - 1];
      MoneyDebited(s, init, amount, n);
      var t, less := DebitAll(s, init, amount), amount as int;
      MoneyUpdate(t, last, Debit(t, last, amount)[last], n);
      OneMore(amount, |init|);
      MoneyStep(Money(t, n), Money(s, n) - amount * |init|, t[last].checking, -less);
    }
  }

  lemma LeftOver(payors: seq<Payment>, party: seq<Word>)
    requires party != []
    ensures Total(payors) < 0x8000_0000 ==> Total(payors) - PerHead(payors, party) * |party| == Total(payors) % |party|
  {
    PayedExact(payors);
    if Total(payors) < 0x8000_0000 {
      SmallWord(Total(payors));
      DivMod(Total(payors), |party|);
    }
  }

  lemma DivMod(x: nat, d: nat)
    requires d > 0
    ensures x - (x / d) * d == x % d
  {
  }

  /** Modulo two to the 64 the total changes by all that is paid, less the share of each place in the
      party: below two to the 31, by what the division leaves over. */
  lemma SplitMoney(payors: seq<Payment>, party: seq<Word>, s: State<Balance>, n: nat)
    requires Addressed(Split(payors, party), s) && Accepted(Split(payors, party), s) && forall u :: u in s ==> u < n
    ensures SameWord(Money(Apply(Split(payors, party), s), n),
                     Money(s, n) + Total(payors) - PerHead(payors, party) * |party|)
    ensures Total(payors) < 0x8000_0000 ==> Total(payors) - PerHead(payors, party) * |party| == Total(payors) % |party|
  {
    var share := PerHead(payors, party);
    var paid := CreditAll(s, payors);
    LeftOver(payors, party);
    MoneyCredited(s, payors, n);
    MoneyDebited(paid, party, share, n);
    SameWordSum(Money(paid, n), Money(s, n) + Total(payors), -share * |party|, -share * |party|);
    SameWordTrans(Money(Apply(Split(payors, party), s), n), Money(paid, n) - share * |party|,
                  Money(s, n) + Total(payors) - share * |party|);
  }
}
