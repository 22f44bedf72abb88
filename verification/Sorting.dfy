/** `std::sort` with a comparison by key, which leaves elements of equal key in any order, and the
    timestamped lists it is applied to. */
module Sorting {
  import opened Sequences

  type Key = nat -> int

  /** `out` is `items` in ascending order of keys. */
  ghost predicate IsSorting(items: seq<nat>, key: Key, out: seq<nat>) {
    && multiset(out) == multiset(items)
    && forall i, j :: 0 <= i < j < |out| ==> key(out[i]) <= key(out[j])
  }

  /** Callers rely on no more than the contract. */
  method SortBy(items: seq<nat>, key: Key) returns (out: seq<nat>)
    ensures IsSorting(items, key, out)
  {
    out := [];
    for i := 0 to |items|
      invariant IsSorting(items[..i], key, out)
    {
      assert items[..i + 1] == items[..i] + [items[i]];
      out := Insert(out, items[i], key, items[..i]);
    }
    assert items[..|items|] == items;
  }

  method Insert(sorted: seq<nat>, x: nat, key: Key, ghost items: seq<nat>) returns (out: seq<nat>)
    requires IsSorting(items, key, sorted)
    ensures IsSorting(items + [x], key, out)
  {
    var p := |sorted|;
    while p > 0 && key(sorted[p - 1]) > key(x)
      invariant 0 <= p <= |sorted| && forall k :: p <= k < |sorted| ==> key(sorted[k]) > key(x)
    {
      p := p - 1;
    }
    InsertedAt(sorted, x, key, items, p);
    out := sorted[..p] + [x] + sorted[p..];
  }

  lemma InsertedAt(sorted: seq<nat>, x: nat, key: Key, items: seq<nat>, p: nat)
    requires IsSorting(items, key, sorted) && p <= |sorted|
    requires p > 0 ==> key(sorted[p - 1]) <= key(x)
    requires forall k :: p <= k < |sorted| ==> key(sorted[k]) > key(x)
    ensures IsSorting(items + [x], key, sorted[..p] + [x] + sorted[p..])
  {
    var out := sorted[..p] + [x] + sorted[p..];
    InsertedMultiset(sorted, x, p);
    forall i, j | 0 <= i < j < |out| ensures key(out[i]) <= key(out[j]) {
      var before, after := if i < p then i else i - 1, if j < p then j else j - 1;
      assert i != p ==> out[i] == sorted[before];
      assert j != p ==> out[j] == sorted[after];
    }
  }

  lemma InsertedMultiset(s: seq<nat>, x: nat, p: nat)
    requires p <= |s|
    ensures multiset(s[..p] + [x] + s[p..]) == multiset(s + [x]) == multiset(s) + multiset{x}
  {
    assert s == s[..p] + s[p..];
  }

  lemma SortingLength(items: seq<nat>, key: Key, out: seq<nat>)
    requires IsSorting(items, key, out)
    ensures |out| == |items| && forall x :: x in out <==> x in items
  {
    assert |multiset(out)| == |multiset(items)|;
    forall x ensures x in out <==> x in items { assert x in multiset(out) <==> x in multiset(items); }
  }

  lemma SortingDistinct(items: seq<nat>, key: Key, out: seq<nat>)
    requires IsSorting(items, key, out) && Distinct(items)
    ensures Distinct(out)
  {
    DistinctMultiset(items, out);
  }

  /** Where all keys differ, only one order is sorted: of two elements, that with the smaller key comes
      first. */
  lemma SmallerKeyFirst(items: seq<nat>, key: Key, out: seq<nat>, a: nat, b: nat)
    requires IsSorting(items, key, out) && a in items && b in items && key(a) < key(b)
    ensures Precedes(out, a, b)
  {
    SortingLength(items, key, out);
    var i :| 0 <= i < |out| && out[i] == a;
    var j :| 0 <= j < |out| && out[j] == b;
    assert key(out[i]) < key(out[j]);
    assert i < j;
  }

  // ---------------------------------------------------------------- timestamped lists

  type Cmd = nat

  /** The key of an index is the value there. */
  function At(values: seq<int>): Key {
    (i: nat) => if i < |values| then values[i] else 0
  }

  /** The elements of `s` in the order of the indices `idx`. */
  function Permuted(s: seq<nat>, idx: seq<nat>): (r: seq<nat>)
    requires forall i :: 0 <= i < |idx| ==> idx[i] < |s|
    ensures |r| == |idx| && forall i :: 0 <= i < |idx| ==> r[i] == s[idx[i]]
  {
    seq(|idx|, i requires 0 <= i < |idx| => s[idx[i]])
  }

  ghost predicate Ascending(s: seq<nat>) {
    forall i, j :: 0 <= i < j < |s| ==> s[i] <= s[j]
  }

  /** `cmds'` is `cmds` by time: commands and timestamps are moved together. */
  ghost predicate ByTime(cmds: seq<Cmd>, timestamps: seq<nat>, cmds': seq<Cmd>, timestamps': seq<nat>) {
    exists idx :: MovedBy(cmds, timestamps, cmds', timestamps', idx)
  }

  ghost predicate MovedBy(cmds: seq<Cmd>, timestamps: seq<nat>, cmds': seq<Cmd>, timestamps': seq<nat>, idx: seq<nat>) {
    && |cmds| == |timestamps| && IsSorting(Iota(|cmds|), At(timestamps), idx)
    && (forall i :: 0 <= i < |idx| ==> idx[i] < |cmds|)
    && cmds' == Permuted(cmds, idx) && timestamps' == Permuted(timestamps, idx)
  }

  class OrderedList {
    var cmds: seq<Cmd>
    var timestamps: seq<nat>

    constructor (cmds: seq<Cmd>, timestamps: seq<nat>)
      ensures this.cmds == cmds && this.timestamps == timestamps
    {
      this.cmds, this.timestamps := cmds, timestamps;
    }

    method SortCmds()
      modifies this
      ensures old(|cmds| != |timestamps| || |cmds| <= 1) ==> cmds == old(cmds) && timestamps == old(timestamps)
      ensures old(|cmds| == |timestamps| && |cmds| > 1) ==> ByTime(old(cmds), old(timestamps), cmds, timestamps)
    {
      if |cmds| != |timestamps| || |cmds| <= 1 { return; }
      var idx := SortBy(Iota(|cmds|), At(timestamps));
      SortingLength(Iota(|cmds|), At(timestamps), idx);
      forall i | 0 <= i < |idx| ensures idx[i] < |cmds| { assert idx[i] in idx; }
      assert MovedBy(cmds, timestamps, Permuted(cmds, idx), Permuted(timestamps, idx), idx);
      cmds, timestamps := Permuted(cmds, idx), Permuted(timestamps, idx);
    }
  }

  /** Sorting by time keeps every command with its timestamp, as often as it was there, and orders the
      timestamps. */
  lemma ByTimeKeeps(cmds: seq<Cmd>, timestamps: seq<nat>, cmds': seq<Cmd>, timestamps': seq<nat>)
    requires ByTime(cmds, timestamps, cmds', timestamps')
    ensures |cmds'| == |timestamps'| == |cmds| == |timestamps| && Ascending(timestamps')
    ensures forall c: Cmd, t :: Stamped(cmds', timestamps', c, t) <==> Stamped(cmds, timestamps, c, t)
    ensures Distinct(cmds) ==> Distinct(cmds')
  {
    var idx :| MovedBy(cmds, timestamps, cmds', timestamps', idx);
    SortingLength(Iota(|cmds|), At(timestamps), idx);
    SortingDistinct(Iota(|cmds|), At(timestamps), idx);
    forall i, j | 0 <= i < j < |timestamps'| ensures timestamps'[i] <= timestamps'[j] {
      assert At(timestamps)(idx[i]) <= At(timestamps)(idx[j]);
    }
    forall c: Cmd, t ensures Stamped(cmds', timestamps', c, t) <==> Stamped(cmds, timestamps, c, t) {
      if Stamped(cmds, timestamps, c, t) {
        var k :| 0 <= k < |cmds| && cmds[k] == c && timestamps[k] == t;
        assert Iota(|cmds|)[k] == k && k in idx;
        var i :| 0 <= i < |idx| && idx[i] == k;
        assert cmds'[i] == c && timestamps'[i] == t;
      }
    }
  }

  ghost predicate Stamped(cmds: seq<Cmd>, timestamps: seq<nat>, c: Cmd, t: nat)
    requires |cmds| == |timestamps|
  {
    exists k :: 0 <= k < |cmds| && cmds[k] == c && timestamps[k] == t
  }
}
