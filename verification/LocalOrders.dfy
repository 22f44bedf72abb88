/** What the replicas report: lists of transactions in the order received, how often they mention a
    transaction, and how often one before another. */
module LocalOrders {
  import opened Graphs
  import opened Sequences

  /** Counters are unsigned 16-bit. */
  const WRAP := 0x1_0000

  /** How often the lists mention a transaction. */
  ghost function Mentions(lists: seq<seq<Tx>>, x: Tx): nat {
    if lists == [] then 0 else Mentions(lists[..|lists| - 1], x) + multiset(lists[|lists| - 1])[x]
  }

  /** Pairs of an `a` among the first `from` places of a list and a later `b`. */
  ghost function Pairs(list: seq<Tx>, from: nat, a: Tx, b: Tx): nat
    requires from <= |list|
  {
    if from == 0 then 0
    else Pairs(list, from - 1, a, b) + if list[from - 1] == a then multiset(list[from..])[b] else 0
  }

  ghost function Votes(lists: seq<seq<Tx>>, a: Tx, b: Tx): nat {
    if lists == [] then 0
    else Votes(lists[..|lists| - 1], a, b) + Pairs(lists[|lists| - 1], |lists[|lists| - 1]|, a, b)
  }

  // ---------------------------------------------------------------- lists without repetitions

  ghost predicate DupFree(lists: seq<seq<Tx>>) {
    forall i :: 0 <= i < |lists| ==> Distinct(lists[i])
  }

  /** The lists that contain `x`. */
  ghost function Containing(lists: seq<seq<Tx>>, x: Tx): set<nat> {
    set i | 0 <= i < |lists| && x in lists[i]
  }

  /** The lists that put `a` before `b`. */
  ghost function Preferring(lists: seq<seq<Tx>>, a: Tx, b: Tx): set<nat> {
    set i | 0 <= i < |lists| && Precedes(lists[i], a, b)
  }

  lemma {:induction false} PairsOnce(list: seq<Tx>, from: nat, a: Tx, b: Tx)
    requires Distinct(list) && from <= |list|
    ensures Pairs(list, from, a, b) == if exists i, j :: 0 <= i < j < |list| && i < from && list[i] == a && list[j] == b then 1 else 0
  {
    if from > 0 {
      PairsOnce(list, from - 1, a, b);
      DistinctOnce(list[from..], b);
      if b in list[from..] {
        var k :| 0 <= k < |list[from..]| && list[from..][k] == b;
        assert list[from + k] == b;
      }
      assert forall j :: from <= j < |list| && list[j] == b ==> list[from..][j - from] == b;
    }
  }

  lemma {:induction false} MentionsCount(lists: seq<seq<Tx>>, x: Tx)
    requires DupFree(lists)
    ensures Mentions(lists, x) == |Containing(lists, x)| <= |lists|
  {
    if lists != [] {
      var init, last := lists[..|lists| - 1], |lists| - 1;
      MentionsCount(init, x);
      DistinctOnce(lists[last], x);
      assert Containing(lists, x) == Containing(init, x) + if x in lists[last] then {last} else {};
    }
  }

  lemma PreferringMore(lists: seq<seq<Tx>>, last: nat, a: Tx, b: Tx)
    requires |lists| == last + 1
    ensures Preferring(lists, a, b) == Preferring(lists[..last], a, b) + if Precedes(lists[last], a, b) then {last} else {}
  {
  }

  lemma {:induction false} VotesCount(lists: seq<seq<Tx>>, a: Tx, b: Tx)
    requires DupFree(lists)
    ensures Votes(lists, a, b) == |Preferring(lists, a, b)| <= |lists|
  {
    if lists != [] {
      var init, last := lists[..|lists| - 1], |lists| - 1;
      VotesCount(init, a, b);
      PairsOnce(lists[last], |lists[last]|, a, b);
      PreferringMore(lists, last, a, b);
    }
  }
}
