/** Sequences without repetitions, and sizes of sets. */
module Sequences {

  ghost predicate Distinct<T>(s: seq<T>) {
    forall i, j :: 0 <= i < j < |s| ==> s[i] != s[j]
  }

  function Elements<T>(s: seq<T>): set<T> {
    set x | x in s
  }

  /** `a` comes before `b`. */
  ghost predicate Precedes<T>(s: seq<T>, a: T, b: T) {
    exists i, j :: 0 <= i < j < |s| && s[i] == a && s[j] == b
  }

  ghost predicate Increasing(s: seq<nat>) {
    forall i, j :: 0 <= i < j < |s| ==> s[i] < s[j]
  }

  lemma {:induction false} DistinctOnce<T>(s: seq<T>, x: T)
    requires Distinct(s)
    ensures multiset(s)[x] == if x in s then 1 else 0
  {
    if s != [] {
      var init, last := s[..|s| - 1], s[|s| - 1];
      assert s == init + [last];
      DistinctOnce(init, x);
    }
  }

  lemma DistinctMultiset<T>(s: seq<T>, t: seq<T>)
    requires Distinct(s) && multiset(s) == multiset(t)
    ensures Distinct(t)
  {
    forall i, j | 0 <= i < j < |t| ensures t[i] != t[j] {
      DistinctOnce(s, t[i]);
      if t[i] == t[j] { TwiceIn(t, i, j); }
    }
  }

  lemma TwiceIn<T>(t: seq<T>, i: nat, j: nat)
    requires i < j < |t| && t[i] == t[j]
    ensures multiset(t)[t[i]] >= 2
  {
    assert t == t[..j] + t[j..];
    assert t[i] in t[..j] && t[j] in t[j..];
  }

  lemma {:induction false} OnceEach<T>(s: seq<T>, elements: set<T>)
    requires Distinct(s) && forall x :: x in s <==> x in elements
    ensures multiset(s) == multiset(elements)
  {
    if s == [] {
      assert elements == {};
    } else {
      var init, last := s[..|s| - 1], s[|s| - 1];
      assert s == init + [last];
      OnceEach(init, elements - {last});
      assert multiset(elements) == multiset(elements - {last}) + multiset{last};
    }
  }

  lemma FewerOf<T>(s: set<T>, t: set<T>)
    requires s <= t
    ensures |s| <= |t|
  {
    assert t == s + (t - s);
  }

  lemma StrictlyFewer<T>(s: set<T>, t: set<T>, x: T)
    requires s <= t && x in t && x !in s
    ensures |s| < |t|
  {
    assert t == s + (t - s) && x in t - s;
  }

  lemma {:induction false} DistinctSize<T>(s: seq<T>)
    requires Distinct(s)
    ensures |Elements(s)| == |s|
  {
    if s != [] {
      var init, last := s[..|s| - 1], s[|s| - 1];
      DistinctSize(init);
      assert Elements(s) == Elements(init) + {last};
    }
  }

  /** The numbers below `n` in order. */
  function Iota(n: nat): (s: seq<nat>)
    ensures |s| == n && forall i :: 0 <= i < n ==> s[i] == i
  {
    seq(n, i => i)
  }

  ghost function Concat(parts: seq<seq<nat>>): seq<nat> {
    if parts == [] then [] else Concat(parts[..|parts| - 1]) + parts[|parts| - 1]
  }

  lemma TwoParts(parts: seq<seq<nat>>)
    requires |parts| == 2
    ensures Concat(parts) == parts[0] + parts[1]
  {
    var first: seq<seq<nat>> := parts[..1];
    assert first[..0] == [] && Concat(first) == parts[0];
  }

  ghost predicate InSome(parts: seq<seq<nat>>, x: nat) {
    exists i :: 0 <= i < |parts| && x in parts[i]
  }

  lemma {:induction false} ConcatMembers(parts: seq<seq<nat>>, x: nat)
    ensures x in Concat(parts) <==> InSome(parts, x)
  {
    if parts != [] {
      ConcatMembers(parts[..|parts| - 1], x);
      assert x in Concat(parts) <==> x in Concat(parts[..|parts| - 1]) || x in parts[|parts| - 1];
    }
  }

  ghost predicate Disjoint(parts: seq<seq<nat>>) {
    forall i, j, x :: 0 <= i < j < |parts| && x in parts[i] ==> x !in parts[j]
  }

  /** A concatenation has no repetitions exactly when no part has any and no two parts overlap. */
  lemma {:induction false} ConcatDistinct(parts: seq<seq<nat>>)
    ensures Distinct(Concat(parts)) <==> (forall i :: 0 <= i < |parts| ==> Distinct(parts[i])) && Disjoint(parts)
  {
    if parts != [] {
      var init, last := parts[..|parts| - 1], parts[|parts| - 1];
      ConcatDistinct(init);
      DistinctAppend(Concat(init), last);
      forall x: nat ensures x in Concat(init) <==> InSome(init, x) { ConcatMembers(init, x); }
      if Distinct(Concat(parts)) {
        forall i, j, x | 0 <= i < j < |parts| && x in parts[i] ensures x !in parts[j] {
          assert x in init[i] && (j < |init| ==> parts[j] == init[j]);
        }
        forall i | 0 <= i < |parts| ensures Distinct(parts[i]) { assert i < |init| ==> parts[i] == init[i]; }
      }
      if (forall i :: 0 <= i < |parts| ==> Distinct(parts[i])) && Disjoint(parts) {
        forall i, j, x | 0 <= i < j < |init| && x in init[i] ensures x !in init[j] {
          assert x in parts[i] && init[j] == parts[j];
        }
        forall i | 0 <= i < |init| ensures Distinct(init[i]) { assert init[i] == parts[i]; }
        forall x | x in Concat(init) ensures x !in last {
          ConcatMembers(init, x);
          var i :| 0 <= i < |init| && x in init[i];
          assert x in parts[i];
        }
      }
    }
  }

  lemma DistinctAppend<T>(a: seq<T>, b: seq<T>)
    ensures Distinct(a + b) <==> Distinct(a) && Distinct(b) && forall x :: x in a ==> x !in b
  {
    var s := a + b;
    if Distinct(s) {
      forall i, j | 0 <= i < j < |a| ensures a[i] != a[j] { assert s[i] != s[j]; }
      forall i, j | 0 <= i < j < |b| ensures b[i] != b[j] { assert s[|a| + i] != s[|a| + j]; }
      forall x | x in a ensures x !in b {
        var i :| 0 <= i < |a| && a[i] == x;
        forall j | 0 <= j < |b| ensures b[j] != x { assert s[i] != s[|a| + j]; }
      }
    } else {
      var i, j :| 0 <= i < j < |s| && s[i] == s[j];
      assert j < |a| ==> a[i] == a[j];
      assert i >= |a| ==> b[i - |a|] == b[j - |a|];
      assert i < |a| <= j ==> a[i] in a && a[i] == b[j - |a|];
    }
  }

  /** Without repetitions an order has one direction. */
  lemma PrecedesOnce<T>(s: seq<T>, a: T, b: T)
    requires Distinct(s) && Precedes(s, a, b)
    ensures !Precedes(s, b, a) && a != b
  {
  }

  /** Members of different parts come in the order of the parts. */
  lemma {:induction false} ConcatAcross(parts: seq<seq<nat>>, k: nat, l: nat, x: nat, y: nat)
    requires k < l < |parts| && x in parts[k] && y in parts[l]
    ensures Precedes(Concat(parts), x, y)
  {
    var init, last := parts[..|parts| - 1], parts[|parts| - 1];
    var all := Concat(parts);
    if l == |parts| - 1 {
      ConcatMembers(init, x);
      assert x in init[k];
      var i :| 0 <= i < |Concat(init)| && Concat(init)[i] == x;
      var j :| 0 <= j < |last| && last[j] == y;
      assert all[i] == x && all[|Concat(init)| + j] == y;
    } else {
      ConcatAcross(init, k, l, x, y);
      var i, j :| 0 <= i < j < |Concat(init)| && Concat(init)[i] == x && Concat(init)[j] == y;
      assert all[i] == x && all[j] == y;
    }
  }

  lemma PrecedesTrans<T>(s: seq<T>, a: T, b: T, c: T)
    requires Distinct(s) && Precedes(s, a, b) && Precedes(s, b, c)
    ensures Precedes(s, a, c)
  {
    var i, j :| 0 <= i < j < |s| && s[i] == a && s[j] == b;
    var k, l :| 0 <= k < l < |s| && s[k] == b && s[l] == c;
    assert j == k;
  }

  /** The numbers below `n` have one ascending order. */
  lemma IncreasingIota(s: seq<nat>, n: nat)
    requires |s| == n && Increasing(s) && forall x: nat :: x in s <==> x < n
    ensures s == Iota(n)
  {
    forall i | 0 <= i < |s| ensures s[i] < n { assert s[i] in s; }
    IncreasingBound(s, n);
  }

  lemma {:induction false} IncreasingBound(s: seq<nat>, n: nat)
    requires |s| == n && Increasing(s) && forall i :: 0 <= i < |s| ==> s[i] < n
    ensures forall i :: 0 <= i < n ==> s[i] == i
  {
    if n > 0 {
      forall i | 0 <= i < n - 1 ensures s[i] < n - 1 { assert s[i] < s[n - 1]; }
      IncreasingBound(s[..n - 1], n - 1);
      forall i | 0 <= i < n - 1 ensures s[i] == i { assert s[..n - 1][i] == s[i]; }
      if n > 1 { assert s[n - 2] == n - 2; }
    }
  }

  /** Each element's index. */
  ghost function Index(s: seq<nat>): map<nat, nat> {
    if s == [] then map[] else Index(s[..|s| - 1])[s[|s| - 1] := |s| - 1]
  }

  lemma {:induction false} IndexMeaning(s: seq<nat>, x: nat)
    requires Distinct(s)
    ensures x in Index(s) <==> x in s
    ensures x in s ==> Index(s)[x] < |s| && s[Index(s)[x]] == x
  {
    if s != [] {
      var init, last := s[..|s| - 1], s[|s| - 1];
      assert s == init + [last];
      IndexMeaning(init, x);
    }
  }

  lemma IndexAppend(s: seq<nat>, x: nat)
    ensures Index(s + [x]) == Index(s)[x := |s|]
  {
    assert (s + [x])[..|s|] == s;
  }
}
