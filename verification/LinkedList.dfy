/** The doubly linked `OrderedList` of transactions seen, with its hash index. */
module LinkedList {
  import opened Graphs
  import opened Sequences

  class LinkedNode {
    const cmdHash: Tx
    var next: LinkedNode?
    var prev: LinkedNode?

    constructor (cmdHash: Tx)
      ensures this.cmdHash == cmdHash && next == null && prev == null
    {
      this.cmdHash, next, prev := cmdHash, null, null;
    }
  }

  /** A list without one element. */
  function Without(s: seq<Tx>, x: Tx): seq<Tx> {
    if s == [] then []
    else if s[|s| - 1] == x then Without(s[..|s| - 1], x)
    else Without(s[..|s| - 1], x) + [s[|s| - 1]]
  }

  lemma {:induction false} WithoutAt(s: seq<Tx>, i: nat)
    requires Distinct(s) && i < |s|
    ensures Without(s, s[i]) == s[..i] + s[i + 1..]
  {
    var init := s[..|s| - 1];
    if i == |s| - 1 {
      WithoutNone(init, s[i]);
    } else {
      WithoutAt(init, i);
      assert s[i + 1..] == init[i + 1..] + [s[|s| - 1]];
    }
  }

  lemma {:induction false} WithoutNone(s: seq<Tx>, x: Tx)
    requires x !in s
    ensures Without(s, x) == s
  {
    if s != [] {
      WithoutNone(s[..|s| - 1], x);
      assert s == s[..|s| - 1] + [s[|s| - 1]];
    }
  }

  type Missing = map<Tx, set<Tx>>

  predicate IsMissing(missing: Missing, a: Tx, b: Tx) {
    Edge(missing, a, b) || Edge(missing, b, a)
  }

  /** The missing edges from place `i` to later places before `j`. */
  ghost function MissingRow(s: seq<Tx>, missing: Missing, i: nat, j: nat): seq<(Tx, Tx)>
    requires i < j <= |s|
  {
    if j == i + 1 then []
    else MissingRow(s, missing, i, j - 1) + if IsMissing(missing, s[i], s[j - 1]) then [(s[i], s[j - 1])] else []
  }

  /** The missing edges from the first `i` places to later places. */
  ghost function MissingPairs(s: seq<Tx>, missing: Missing, i: nat): seq<(Tx, Tx)>
    requires i <= |s|
  {
    if i == 0 then [] else MissingPairs(s, missing, i - 1) + MissingRow(s, missing, i - 1, |s|)
  }

  /** Looking up a row that does not exist inserts an empty one. */
  function WithRow(missing: Missing, a: Tx): Missing {
    if a in missing then missing else missing[a := {}]
  }

  /** The map after looking up the pair: the second row only if the first does not hold it. */
  function LookedUp(missing: Missing, a: Tx, b: Tx): Missing {
    var first := WithRow(missing, a);
    if b in first[a] then first else WithRow(first, b)
  }

  ghost function LookedRow(s: seq<Tx>, missing: Missing, i: nat, j: nat): Missing
    requires i < j <= |s|
  {
    if j == i + 1 then missing else LookedUp(LookedRow(s, missing, i, j - 1), s[i], s[j - 1])
  }

  /** The map after the first `i` rounds of the outer loop. */
  ghost function Looked(s: seq<Tx>, missing: Missing, i: nat): Missing
    requires i <= |s|
  {
    if i == 0 then missing else LookedRow(s, Looked(s, missing, i - 1), i - 1, |s|)
  }

  ghost predicate SameEdges(m: Missing, n: Missing) {
    forall u, v :: Edge(m, u, v) <==> Edge(n, u, v)
  }

  lemma {:induction false} SameMissing(s: seq<Tx>, m: Missing, n: Missing, i: nat, j: nat)
    requires i < j <= |s| && SameEdges(m, n)
    ensures MissingRow(s, m, i, j) == MissingRow(s, n, i, j)
  {
    if j > i + 1 { SameMissing(s, m, n, i, j - 1); }
  }

  ghost function Hashes(nodes: seq<LinkedNode>): (s: seq<Tx>)
    ensures |s| == |nodes| && forall i :: 0 <= i < |s| ==> s[i] == nodes[i].cmdHash
  {
    if nodes == [] then [] else Hashes(nodes[..|nodes| - 1]) + [nodes[|nodes| - 1].cmdHash]
  }

  /** The hashes between the first and the last node. */
  ghost function Inner(nodes: seq<LinkedNode>): (s: seq<Tx>)
    requires |nodes| >= 2
    ensures |s| == |nodes| - 2 && forall i :: 0 <= i < |s| ==> s[i] == nodes[i + 1].cmdHash
  {
    Hashes(nodes[1..|nodes| - 1])
  }

  /** The cache leads to each node between the first and the last by its hash, and to no other. */
  ghost predicate Indexes(cache: map<Tx, LinkedNode>, nodes: seq<LinkedNode>) {
    && |nodes| >= 2
    && (forall i :: 0 < i < |nodes| - 1 ==> nodes[i].cmdHash in cache && cache[nodes[i].cmdHash] == nodes[i])
    && (forall c :: c in cache ==> IsHash(nodes, c))
  }

  ghost predicate IsHash(nodes: seq<LinkedNode>, c: Tx) {
    exists i :: 0 < i < |nodes| - 1 && nodes[i].cmdHash == c
  }

  /** Following `next` from the first node, and `prev` from the last, meets the nodes in order. */
  ghost predicate Chained(nodes: seq<LinkedNode>)
    reads set n | n in nodes
  {
    && Distinct(nodes)
    && (forall i :: 0 <= i < |nodes| - 1 ==> nodes[i].next == nodes[i + 1])
    && (forall i :: 0 <= i < |nodes| - 1 ==> nodes[i + 1].prev == nodes[i])
  }

  lemma Neighbours(nodes: seq<LinkedNode>, i: nat)
    requires Chained(nodes) && i < |nodes| - 1
    ensures nodes[i].next == nodes[i + 1] && nodes[i + 1].prev == nodes[i]
  {
  }

  /** The nodes with another before the last. */
  ghost function Grown(nodes: seq<LinkedNode>, node: LinkedNode): (r: seq<LinkedNode>)
    requires |nodes| > 0
    ensures |r| == |nodes| + 1 && r[|nodes|] == nodes[|nodes| - 1] && r[|nodes| - 1] == node
    ensures forall i :: 0 <= i < |nodes| - 1 ==> r[i] == nodes[i]
  {
    nodes[..|nodes| - 1] + [node] + [nodes[|nodes| - 1]]
  }

  /** Puts a new node between the last two. */
  method LinkBeforeLast(node: LinkedNode, tail: LinkedNode, ghost nodes: seq<LinkedNode>)
    requires Chained(nodes) && |nodes| >= 2 && nodes[|nodes| - 1] == tail && node !in nodes
    modifies node, set n | n in nodes
    ensures Chained(Grown(nodes, node))
  {
    ghost var n := |nodes|;
    Neighbours(nodes, n - 2);
    var lastNode := tail.prev;
    assert lastNode == nodes[n - 2] && lastNode in nodes && tail in nodes;
    lastNode.next := node;
    node.prev := lastNode;
    node.next := tail;
    tail.prev := node;
    ghost var now := Grown(nodes, node);
    forall i | 0 <= i < |now| - 1 ensures now[i].next == now[i + 1] && now[i + 1].prev == now[i] {
      if i < n - 2 { assert now[i] == nodes[i] && now[i + 1] == nodes[i + 1]; }
    }
  }

  /** Takes a node out of the chain. */
  method Unlink(node: LinkedNode, ghost nodes: seq<LinkedNode>, ghost k: nat)
    requires Chained(nodes) && 0 < k < |nodes| - 1 && nodes[k] == node
    modifies set n | n in nodes
    ensures Chained(Cut(nodes, k))
  {
    Neighbours(nodes, k - 1);
    Neighbours(nodes, k);
    var prevNode := node.prev;
    var nextNode := node.next;
    assert prevNode == nodes[k - 1] && nextNode == nodes[k + 1] && prevNode in nodes && nextNode in nodes && node in nodes;
    prevNode.next := nextNode;
    nextNode.prev := prevNode;
    node.prev := null;
    node.next := null;
    ghost var now := Cut(nodes, k);
    forall i | 0 <= i < |now| - 1 ensures now[i].next == now[i + 1] && now[i + 1].prev == now[i] {
      if i < k - 1 { assert now[i] == nodes[i] && now[i + 1] == nodes[i + 1]; }
      if i >= k { assert now[i] == nodes[i + 1] && now[i + 1] == nodes[i + 2]; }
    }
  }

  class OrderedList {
    const head: LinkedNode
    const tail: LinkedNode
    var linkedCache: map<Tx, LinkedNode>
    /** the nodes from head to tail, in order */
    ghost var nodes: seq<LinkedNode>

    /** The forward chain, the backward chain and the index describe one list without repetitions. */
    ghost predicate Valid()
      reads this, set n | n in nodes
    {
      && |nodes| >= 2 && nodes[0] == head && nodes[|nodes| - 1] == tail
      && Chained(nodes) && Indexes(linkedCache, nodes)
    }

    /** The transactions in the list. */
    ghost function Contents(): seq<Tx>
      reads this
      requires |nodes| >= 2
    {
      Inner(nodes)
    }

    constructor ()
      ensures Valid() && Contents() == [] && forall n :: n in nodes ==> fresh(n)
    {
      var first := new LinkedNode(0);
      var last := new LinkedNode(0);
      head, tail, linkedCache := first, last, map[];
      nodes := [first, last];
      new;
      head.next := tail;
      tail.prev := head;
    }

    method PushBack(cmdHash: Tx)
      requires Valid()
      modifies this, set n | n in nodes
      ensures Valid() && forall n :: n in nodes ==> n in old(nodes) || fresh(n)
      ensures Contents() == if cmdHash in old(Contents()) then old(Contents()) else old(Contents()) + [cmdHash]
    {
      InIndex(linkedCache, nodes, cmdHash);
      if cmdHash in linkedCache { return; }
      var nodeToAdd := new LinkedNode(cmdHash);
      Append(nodeToAdd);
    }

    method Append(node: LinkedNode)
      requires Valid() && node !in nodes && node.cmdHash !in linkedCache
      modifies this, node, set n | n in nodes
      ensures Valid() && nodes == Grown(old(nodes), node)
      ensures Contents() == old(Contents()) + [node.cmdHash]
    {
      ghost var grown := Grown(nodes, node);
      IndexAdded(linkedCache, nodes, node);
      LinkBeforeLast(node, tail, nodes);
      assert Chained(grown);
      linkedCache := linkedCache[node.cmdHash := node];
      nodes := grown;
      assert Chained(nodes) && Indexes(linkedCache, nodes);
    }

    method Remove(cmdHash: Tx)
      requires Valid()
      modifies this, set n | n in nodes
      ensures Valid() && forall n :: n in nodes ==> n in old(nodes)
      ensures Contents() == Without(old(Contents()), cmdHash)
    {
      InIndex(linkedCache, nodes, cmdHash);
      if cmdHash !in linkedCache {
        WithoutNone(Contents(), cmdHash);
        return;
      }
      ghost var k :| 0 < k < |nodes| - 1 && nodes[k].cmdHash == cmdHash;
      RemoveNode(cmdHash, k);
    }

    method RemoveNode(cmdHash: Tx, ghost k: nat)
      requires Valid() && 0 < k < |nodes| - 1 && nodes[k].cmdHash == cmdHash && cmdHash in linkedCache
      modifies this, set n | n in nodes
      ensures Valid() && forall n :: n in nodes ==> n in old(nodes)
      ensures Contents() == Without(old(Contents()), cmdHash)
    {
      NoRepeats(linkedCache, nodes);
      IndexRemoved(linkedCache, nodes, k);
      InnerCut(nodes, k);
      var nodeToRemove := linkedCache[cmdHash];
      Unlink(nodeToRemove, nodes, k);
      linkedCache := linkedCache - {cmdHash};
      nodes := Cut(nodes, k);
    }

    method GetSize() returns (size: nat)
      requires Valid()
      ensures size == |Contents()|
    {
      size := |linkedCache|;
      NoRepeats(linkedCache, nodes);
      DistinctSize(Contents());
      forall c ensures c in linkedCache.Keys <==> c in Elements(Contents()) { InIndex(linkedCache, nodes, c); }
      assert linkedCache.Keys == Elements(Contents());
      assert |linkedCache| == |linkedCache.Keys|;
    }

    /** The pairs, in list order, that are missing in one direction or the other; and the caller's map,
        in which the lookups have inserted empty rows. */
    method GetCurrMissingEdges(missing: Missing) returns (edges: seq<(Tx, Tx)>, looked: Missing)
      requires Valid()
      ensures edges == MissingPairs(Contents(), missing, |Contents()|)
      ensures looked == Looked(Contents(), missing, |Contents()|)
    {
      edges, looked := MissingFrom(head, tail, missing, nodes);
    }

    /** Any sequence of operations on an empty list. */
    method Perform(ops: seq<Op>)
      requires Valid() && Contents() == []
      modifies this, set n | n in nodes
      ensures Valid() && Contents() == After(ops) && forall n :: n in nodes ==> n in old(nodes) || fresh(n)
    {
      for i := 0 to |ops|
        invariant Valid() && Contents() == After(ops[..i])
        invariant forall n :: n in nodes ==> n in old(nodes) || fresh(n)
      {
        assert ops[..i + 1][..i] == ops[..i];
        match ops[i]
        case Push(cmd) => PushBack(cmd);
        case Drop(cmd) => Remove(cmd);
      }
      assert ops[..|ops|] == ops;
    }
  }

  /** The outer loop. */
  method MissingFrom(head: LinkedNode, tail: LinkedNode, missing: Missing, ghost nodes: seq<LinkedNode>)
    returns (edges: seq<(Tx, Tx)>, looked: Missing)
    requires |nodes| >= 2 && Chained(nodes) && nodes[0] == head && nodes[|nodes| - 1] == tail
    ensures edges == MissingPairs(Inner(nodes), missing, |nodes| - 2)
    ensures looked == Looked(Inner(nodes), missing, |nodes| - 2)
  {
    edges, looked := [], missing;
    ghost var i := 0;
    Neighbours(nodes, 0);
    var ptr1 := head.next;
    while ptr1 != tail
      invariant 0 <= i <= |nodes| - 2 && ptr1 == nodes[i + 1]
      invariant edges == MissingPairs(Inner(nodes), missing, i)
      invariant looked == Looked(Inner(nodes), missing, i) && SameEdges(looked, missing)
      decreases |nodes| - i
    {
      OnlyLast(nodes, i + 1);
      SameMissing(Inner(nodes), looked, missing, i, |nodes| - 2);
      var row;
      row, looked := MissingAfter(ptr1, tail, looked, nodes, i);
      edges := edges + row;
      Neighbours(nodes, i + 1);
      ptr1 := ptr1.next;
      i := i + 1;
    }
    OnlyLast(nodes, i + 1);
  }

  /** The inner loop. */
  method MissingAfter(ptr1: LinkedNode, tail: LinkedNode, missing: Missing, ghost nodes: seq<LinkedNode>, ghost i: nat)
    returns (edges: seq<(Tx, Tx)>, looked: Missing)
    requires i + 2 < |nodes| && Chained(nodes) && nodes[|nodes| - 1] == tail && ptr1 == nodes[i + 1]
    ensures edges == MissingRow(Inner(nodes), missing, i, |nodes| - 2)
    ensures looked == LookedRow(Inner(nodes), missing, i, |nodes| - 2) && SameEdges(looked, missing)
  {
    edges, looked := [], missing;
    ghost var j := i + 1;
    Neighbours(nodes, i + 1);
    var ptr2 := ptr1.next;
    while ptr2 != tail
      invariant i < j <= |nodes| - 2 && ptr2 == nodes[j + 1]
      invariant edges == MissingRow(Inner(nodes), missing, i, j)
      invariant looked == LookedRow(Inner(nodes), missing, i, j) && SameEdges(looked, missing)
      decreases |nodes| - j
    {
      OnlyLast(nodes, j + 1);
      Neighbours(nodes, j + 1);
      RowStep(nodes, missing, i, j);
      var found;
      found, looked := LookUp(looked, ptr1.cmdHash, ptr2.cmdHash);
      if found {
        edges := edges + [(ptr1.cmdHash, ptr2.cmdHash)];
      }
      ptr2 := ptr2.next;
      j := j + 1;
    }
    OnlyLast(nodes, j + 1);
  }

  /** `missing[a].count(b) > 0 || missing[b].count(a) > 0` */
  method LookUp(missing: Missing, a: Tx, b: Tx) returns (found: bool, looked: Missing)
    ensures found <==> IsMissing(missing, a, b)
    ensures looked == LookedUp(missing, a, b) && SameEdges(looked, missing)
  {
    looked := missing;
    if a !in looked { looked := looked[a := {}]; }
    if b in looked[a] { return true, looked; }
    if b !in looked { looked := looked[b := {}]; }
    found := a in looked[b];
  }

  lemma RowStep(nodes: seq<LinkedNode>, missing: Missing, i: nat, j: nat)
    requires |nodes| >= 2 && i < j < |nodes| - 2
    ensures var s, a, b := Inner(nodes), nodes[i + 1].cmdHash, nodes[j + 1].cmdHash;
            && (IsMissing(missing, a, b) ==> MissingRow(s, missing, i, j + 1) == MissingRow(s, missing, i, j) + [(a, b)])
            && (!IsMissing(missing, a, b) ==> MissingRow(s, missing, i, j + 1) == MissingRow(s, missing, i, j))
  {
  }

  lemma OnlyLast(nodes: seq<LinkedNode>, i: nat)
    requires Distinct(nodes) && i < |nodes|
    ensures nodes[i] == nodes[|nodes| - 1] <==> i == |nodes| - 1
  {
  }

  lemma InIndex(cache: map<Tx, LinkedNode>, nodes: seq<LinkedNode>, c: Tx)
    requires Indexes(cache, nodes)
    ensures c in cache <==> c in Inner(nodes)
    ensures c in cache <==> IsHash(nodes, c)
  {
    var s := Inner(nodes);
    if IsHash(nodes, c) {
      var i :| 0 < i < |nodes| - 1 && nodes[i].cmdHash == c;
      assert s[i - 1] == c;
    }
    if c in s {
      var i :| 0 <= i < |s| && s[i] == c;
      assert nodes[i + 1].cmdHash == c;
    }
  }

  lemma NoRepeats(cache: map<Tx, LinkedNode>, nodes: seq<LinkedNode>)
    requires Indexes(cache, nodes) && Distinct(nodes)
    ensures Distinct(Inner(nodes))
  {
    var s := Inner(nodes);
    forall i, j | 0 <= i < j < |s| ensures s[i] != s[j] {
      assert s[i] == nodes[i + 1].cmdHash && s[j] == nodes[j + 1].cmdHash;
    }
  }

  lemma IndexAdded(cache: map<Tx, LinkedNode>, nodes: seq<LinkedNode>, node: LinkedNode)
    requires Indexes(cache, nodes) && node.cmdHash !in cache
    ensures Indexes(cache[node.cmdHash := node], Grown(nodes, node))
    ensures Inner(Grown(nodes, node)) == Inner(nodes) + [node.cmdHash]
  {
    var now, last := Grown(nodes, node), |nodes| - 1;
    forall c | c in cache[node.cmdHash := node] ensures IsHash(now, c) {
      if c == node.cmdHash {
        assert now[last] == node;
      } else {
        assert IsHash(nodes, c);
        var i :| 0 < i < |nodes| - 1 && nodes[i].cmdHash == c;
        assert now[i] == nodes[i];
      }
    }
    forall i | 0 < i < |now| - 1 ensures now[i].cmdHash in cache[node.cmdHash := node] && cache[node.cmdHash := node][now[i].cmdHash] == now[i] {
      if i < last { assert now[i] == nodes[i]; }
    }
  }

  /** A sequence without the element at `k`. */
  ghost function Cut<T>(s: seq<T>, k: nat): (r: seq<T>)
    requires k < |s|
    ensures |r| == |s| - 1 && forall i :: 0 <= i < |r| ==> r[i] == s[if i < k then i else i + 1]
  {
    s[..k] + s[k + 1..]
  }

  lemma InnerCut(nodes: seq<LinkedNode>, k: nat)
    requires 0 < k < |nodes| - 1 && Distinct(Inner(nodes))
    ensures Inner(Cut(nodes, k)) == Without(Inner(nodes), nodes[k].cmdHash)
  {
    var s, r := Inner(nodes), Inner(Cut(nodes, k));
    WithoutAt(s, k - 1);
    assert s[k - 1] == nodes[k].cmdHash;
    assert r == s[..k - 1] + s[k - 1 + 1..];
  }

  lemma IndexRemoved(cache: map<Tx, LinkedNode>, nodes: seq<LinkedNode>, k: nat)
    requires Indexes(cache, nodes) && Distinct(nodes) && 0 < k < |nodes| - 1
    ensures Indexes(cache - {nodes[k].cmdHash}, Cut(nodes, k))
  {
    var now, gone := Cut(nodes, k), nodes[k].cmdHash;
    forall i | 0 < i < |now| - 1 ensures now[i].cmdHash in cache - {gone} && cache[now[i].cmdHash] == now[i] {
      var m := if i < k then i else i + 1;
      assert now[i] == nodes[m] && cache[nodes[m].cmdHash] == nodes[m] && cache[nodes[k].cmdHash] == nodes[k];
    }
    forall c | c in cache && c != gone ensures IsHash(now, c) {
      assert IsHash(nodes, c);
      var m :| 0 < m < |nodes| - 1 && nodes[m].cmdHash == c;
      assert now[if m < k then m else m - 1] == nodes[m];
    }
  }

  // ---------------------------------------------------------------- what is reported missing

  lemma {:induction false} RowMeaning(s: seq<Tx>, missing: Missing, i: nat, j: nat, e: (Tx, Tx))
    requires i < j <= |s|
    ensures e in MissingRow(s, missing, i, j) <==> e.0 == s[i] && IsMissing(missing, e.0, e.1) && e.1 in s[i + 1..j]
  {
    if j > i + 1 {
      RowMeaning(s, missing, i, j - 1, e);
      assert s[i + 1..j] == s[i + 1..j - 1] + [s[j - 1]];
    }
  }

  /** `a` is among the first `i` places, `b` at a later place. */
  ghost predicate PairUpTo(s: seq<Tx>, i: nat, a: Tx, b: Tx) {
    exists k, m :: 0 <= k < i && k < m < |s| && s[k] == a && s[m] == b
  }

  lemma PairStep(s: seq<Tx>, h: nat, i: nat, a: Tx, b: Tx)
    requires i == h + 1 <= |s|
    ensures PairUpTo(s, i, a, b) <==> PairUpTo(s, h, a, b) || (a == s[h] && b in s[i..])
  {
    if b in s[i..] {
      var q :| 0 <= q < |s[i..]| && s[i..][q] == b;
      assert s[i + q] == b;
    }
    if PairUpTo(s, i, a, b) {
      var k, m :| 0 <= k < i && k < m < |s| && s[k] == a && s[m] == b;
      if k == h { assert s[i..][m - i] == b; }
    }
  }

  lemma InEither(x: seq<(Tx, Tx)>, y: seq<(Tx, Tx)>, e: (Tx, Tx))
    ensures e in x + y <==> e in x || e in y
  {
  }

  lemma {:induction false} PairsMeaning(s: seq<Tx>, missing: Missing, i: nat, e: (Tx, Tx))
    requires i <= |s|
    ensures e in MissingPairs(s, missing, i) <==> IsMissing(missing, e.0, e.1) && PairUpTo(s, i, e.0, e.1)
  {
    if i == 0 {
      assert !PairUpTo(s, i, e.0, e.1);
    } else {
      var h := i - 1;
      PairsMeaning(s, missing, h, e);
      PairsStep(s, missing, h, i, e);
    }
  }

  lemma PairsStep(s: seq<Tx>, missing: Missing, h: nat, i: nat, e: (Tx, Tx))
    requires i == h + 1 <= |s|
    requires e in MissingPairs(s, missing, h) <==> IsMissing(missing, e.0, e.1) && PairUpTo(s, h, e.0, e.1)
    ensures e in MissingPairs(s, missing, i) <==> IsMissing(missing, e.0, e.1) && PairUpTo(s, i, e.0, e.1)
  {
    var row := RowOf(s, missing, h, i, e);
    OneRowMore(s, missing, h, i, e, MissingPairs(s, missing, h), row, MissingPairs(s, missing, i));
  }

  lemma RowOf(s: seq<Tx>, missing: Missing, h: nat, i: nat, e: (Tx, Tx)) returns (row: seq<(Tx, Tx)>)
    requires i == h + 1 <= |s|
    ensures row == MissingRow(s, missing, h, |s|) && MissingPairs(s, missing, i) == MissingPairs(s, missing, h) + row
    ensures e in row <==> e.0 == s[h] && IsMissing(missing, e.0, e.1) && e.1 in s[i..]
  {
    RowMeaning(s, missing, h, |s|, e);
    assert s[h + 1..|s|] == s[i..];
    row := MissingRow(s, missing, h, |s|);
  }

  lemma OneRowMore(s: seq<Tx>, missing: Missing, h: nat, i: nat, e: (Tx, Tx),
          before: seq<(Tx, Tx)>, row: seq<(Tx, Tx)>, all: seq<(Tx, Tx)>)
    requires i == h + 1 <= |s| && all == before + row
    requires e in before <==> IsMissing(missing, e.0, e.1) && PairUpTo(s, h, e.0, e.1)
    requires e in row <==> e.0 == s[h] && IsMissing(missing, e.0, e.1) && e.1 in s[i..]
    ensures e in all <==> IsMissing(missing, e.0, e.1) && PairUpTo(s, i, e.0, e.1)
  {
    InEither(before, row, e);
    PairStep(s, h, i, e.0, e.1);
  }

  /** Exactly the pairs in list order that are missing in one direction or the other are reported, each
      once. */
  lemma MissingExactly(s: seq<Tx>, missing: Missing)
    requires Distinct(s)
    ensures forall a: Tx, b: Tx :: (a, b) in MissingPairs(s, missing, |s|) <==> IsMissing(missing, a, b) && Precedes(s, a, b)
    ensures Distinct(MissingPairs(s, missing, |s|))
  {
    forall a: Tx, b: Tx ensures (a, b) in MissingPairs(s, missing, |s|) <==> IsMissing(missing, a, b) && Precedes(s, a, b) {
      PairsMeaning(s, missing, |s|, (a, b));
    }
    PairsDistinct(s, missing, |s|);
  }

  lemma {:induction false} RowDistinct(s: seq<Tx>, missing: Missing, i: nat, j: nat)
    requires Distinct(s) && i < j <= |s|
    ensures Distinct(MissingRow(s, missing, i, j))
  {
    if j > i + 1 {
      RowDistinct(s, missing, i, j - 1);
      RowMeaning(s, missing, i, j - 1, (s[i], s[j - 1]));
    }
  }

  lemma {:induction false} PairsDistinct(s: seq<Tx>, missing: Missing, i: nat)
    requires Distinct(s) && i <= |s|
    ensures Distinct(MissingPairs(s, missing, i))
  {
    if i > 0 {
      PairsDistinct(s, missing, i - 1);
      RowDistinct(s, missing, i - 1, |s|);
      var before, row := MissingPairs(s, missing, i - 1), MissingRow(s, missing, i - 1, |s|);
      forall e | e in before ensures e !in row { RowApart(s, missing, i, e); }
      DistinctAppend(before, row);
    }
  }

  lemma RowApart(s: seq<Tx>, missing: Missing, i: nat, e: (Tx, Tx))
    requires Distinct(s) && 0 < i <= |s|
    ensures e in MissingPairs(s, missing, i - 1) ==> e !in MissingRow(s, missing, i - 1, |s|)
  {
    var h := i - 1;
    PairsMeaning(s, missing, h, e);
    var row := RowOf(s, missing, h, i, e);
    FirstDiffers(s, h, e.0, e.1);
  }

  lemma FirstDiffers(s: seq<Tx>, h: nat, a: Tx, b: Tx)
    requires Distinct(s) && h < |s|
    ensures PairUpTo(s, h, a, b) ==> a != s[h]
  {
  }

  // ---------------------------------------------------------------- the rows that looking up inserts

  /** The element at place `k` is not in the row of the one at place `i`. */
  ghost predicate Absent(s: seq<Tx>, missing: Missing, i: nat, k: nat)
    requires i < |s| && k < |s|
  {
    !Edge(missing, s[i], s[k])
  }

  lemma LookedUpKeys(m: Missing, a: Tx, b: Tx, x: Tx)
    ensures x in LookedUp(m, a, b) <==> x in m || x == a || (x == b && !Edge(m, a, b))
    ensures SameEdges(LookedUp(m, a, b), m)
  {
  }

  lemma {:induction false} LookedRowKeys(s: seq<Tx>, m: Missing, i: nat, j: nat, x: Tx)
    requires i < j <= |s|
    ensures SameEdges(LookedRow(s, m, i, j), m)
    ensures x in LookedRow(s, m, i, j) <==>
              x in m || (x == s[i] && i + 1 < j) || exists k :: i < k < j && s[k] == x && Absent(s, m, i, k)
  {
    if j > i + 1 {
      var h := j - 1;
      LookedRowKeys(s, m, i, h, x);
      LookedUpKeys(LookedRow(s, m, i, h), s[i], s[h], x);
      assert Edge(LookedRow(s, m, i, h), s[i], s[h]) <==> !Absent(s, m, i, h);
    }
  }

  /** Some element before place `n`, and before `x`, does not have `x` in its row. */
  ghost predicate LookedFor(s: seq<Tx>, missing: Missing, n: nat, x: Tx) {
    exists i, k :: 0 <= i < n && i < k < |s| && s[k] == x && Absent(s, missing, i, k)
  }

  lemma {:induction false} LookedKeys(s: seq<Tx>, m: Missing, n: nat, x: Tx)
    requires n <= |s|
    ensures SameEdges(Looked(s, m, n), m)
    ensures x in Looked(s, m, n) <==>
              x in m || (exists i :: 0 <= i < n && i < |s| - 1 && s[i] == x) || LookedFor(s, m, n, x)
  {
    if n > 0 {
      var i := n - 1;
      LookedKeys(s, m, i, x);
      LookedRowKeys(s, Looked(s, m, i), i, |s|, x);
      forall k | i < k < |s| ensures Absent(s, Looked(s, m, i), i, k) <==> Absent(s, m, i, k) {}
      LookedForStep(s, m, i, n, x);
    }
  }

  lemma LookedForStep(s: seq<Tx>, m: Missing, i: nat, n: nat, x: Tx)
    requires n == i + 1 && n <= |s|
    ensures LookedFor(s, m, n, x) <==> LookedFor(s, m, i, x) || exists k :: i < k < |s| && s[k] == x && Absent(s, m, i, k)
  {
    if k :| i < k < |s| && s[k] == x && Absent(s, m, i, k) { assert LookedFor(s, m, n, x); }
  }

  /** What `get_curr_missing_edges` leaves in its caller's map: the same edges, and a row for every
      element of the list but the last, and for the last if some row before it does not hold it. */
  lemma RowsInserted(s: seq<Tx>, missing: Missing, x: Tx)
    requires Distinct(s)
    ensures SameEdges(Looked(s, missing, |s|), missing)
    ensures x in Looked(s, missing, |s|) <==>
              || x in missing
              || (exists i :: 0 <= i < |s| - 1 && s[i] == x)
              || (s != [] && x == s[|s| - 1] && exists i :: 0 <= i < |s| - 1 && !Edge(missing, s[i], x))
  {
    LookedKeys(s, missing, |s|, x);
    if LookedFor(s, missing, |s|, x) {
      var i, k :| 0 <= i < |s| && i < k < |s| && s[k] == x && Absent(s, missing, i, k);
      assert k == |s| - 1 || s[k] == x;
    }
    if s != [] && x == s[|s| - 1] && exists i :: 0 <= i < |s| - 1 && !Edge(missing, s[i], x) {
      var last := |s| - 1;
      var i :| 0 <= i < last && !Edge(missing, s[i], x);
      assert Absent(s, missing, i, last);
      assert LookedFor(s, missing, |s|, x);
    }
  }

  // ---------------------------------------------------------------- runs of operations

  datatype Op = Push(cmd: Tx) | Drop(cmd: Tx)

  /** The list after the operations, starting from an empty one. */
  ghost function After(ops: seq<Op>): seq<Tx> {
    if ops == [] then []
    else
      var s, op := After(ops[..|ops| - 1]), ops[|ops| - 1];
      if op.Drop? then Without(s, op.cmd) else if op.cmd in s then s else s + [op.cmd]
  }

  /** The push at place `i` put `x` into the list, and nothing has removed it since. */
  ghost predicate InsertedAt(ops: seq<Op>, i: nat, x: Tx) {
    && i < |ops| && ops[i] == Push(x)
    && x !in After(ops[..i])
    && forall j :: i < j < |ops| ==> ops[j] != Drop(x)
  }

  lemma {:induction false} WithoutMembers(s: seq<Tx>, x: Tx, y: Tx)
    ensures y in Without(s, x) <==> y in s && y != x
  {
    if s != [] {
      WithoutMembers(s[..|s| - 1], x, y);
      assert s == s[..|s| - 1] + [s[|s| - 1]];
    }
  }

  lemma {:induction false} WithoutOrder(s: seq<Tx>, x: Tx, a: Tx, b: Tx)
    requires a != x && b != x
    ensures Precedes(Without(s, x), a, b) <==> Precedes(s, a, b)
  {
    if s != [] {
      var init, last := s[..|s| - 1], s[|s| - 1];
      assert s == init + [last];
      WithoutOrder(init, x, a, b);
      WithoutMembers(init, x, a);
      PrecedesAppend(init, last, a, b);
      if last != x { PrecedesAppend(Without(init, x), last, a, b); }
    }
  }

  lemma PrecedesAppend(s: seq<Tx>, x: Tx, a: Tx, b: Tx)
    ensures Precedes(s + [x], a, b) <==> Precedes(s, a, b) || (a in s && b == x)
  {
    var t := s + [x];
    if Precedes(s, a, b) {
      var i, j :| 0 <= i < j < |s| && s[i] == a && s[j] == b;
      assert t[i] == a && t[j] == b;
    }
    if a in s && b == x {
      var i :| 0 <= i < |s| && s[i] == a;
      assert t[i] == a && t[|s|] == b;
    }
  }

  /** After any operations the list has no repetitions, holds what was pushed and not removed since, and
      keeps it in the order of those pushes. */
  lemma {:induction false} InsertionOrder(ops: seq<Op>)
    ensures Distinct(After(ops))
    ensures forall x :: x in After(ops) <==> exists i :: InsertedAt(ops, i, x)
    ensures forall i, j, x, y :: InsertedAt(ops, i, x) && InsertedAt(ops, j, y) ==> (Precedes(After(ops), x, y) <==> i < j)
  {
    if ops != [] {
      var init, op := ops[..|ops| - 1], ops[|ops| - 1];
      InsertionOrder(init);
      var s := After(init);
      forall i, x ensures InsertedAt(ops, i, x) <==>
                          (InsertedAt(init, i, x) && op != Drop(x)) || (i == |ops| - 1 && op == Push(x) && x !in s) {
        InsertedStep(ops, i, x);
      }
      forall x, y ensures op.Drop? && x != op.cmd && y != op.cmd ==> (Precedes(After(ops), x, y) <==> Precedes(s, x, y)) {
        if op.Drop? && x != op.cmd && y != op.cmd { WithoutOrder(s, op.cmd, x, y); }
      }
      forall x ensures x in After(ops) <==> exists i :: InsertedAt(ops, i, x) { MembersStep(ops, x); }
      forall i, j, x, y | InsertedAt(ops, i, x) && InsertedAt(ops, j, y) ensures Precedes(After(ops), x, y) <==> i < j {
        OrderStep(ops, i, j, x, y);
      }
      if op.Drop? {
        WithoutDistinct(s, op.cmd);
      }
    }
  }

  lemma {:induction false} WithoutDistinct(s: seq<Tx>, x: Tx)
    requires Distinct(s)
    ensures Distinct(Without(s, x))
  {
    if s != [] {
      WithoutDistinct(s[..|s| - 1], x);
      WithoutMembers(s[..|s| - 1], x, s[|s| - 1]);
    }
  }

  lemma InsertedStep(ops: seq<Op>, i: nat, x: Tx)
    requires ops != []
    ensures var init, op := ops[..|ops| - 1], ops[|ops| - 1];
            InsertedAt(ops, i, x) <==> (InsertedAt(init, i, x) && op != Drop(x)) || (i == |ops| - 1 && op == Push(x) && x !in After(init))
  {
    var init := ops[..|ops| - 1];
    if i < |init| { assert init[..i] == ops[..i]; }
  }

  lemma MembersStep(ops: seq<Op>, x: Tx)
    requires ops != []
    requires var init := ops[..|ops| - 1]; x in After(init) <==> exists i :: InsertedAt(init, i, x)
    ensures x in After(ops) <==> exists i :: InsertedAt(ops, i, x)
  {
    var init, op := ops[..|ops| - 1], ops[|ops| - 1];
    WithoutMembers(After(init), op.cmd, x);
    forall i ensures InsertedAt(ops, i, x) <==>
                     (InsertedAt(init, i, x) && op != Drop(x)) || (i == |ops| - 1 && op == Push(x) && x !in After(init)) {
      InsertedStep(ops, i, x);
    }
    if i :| InsertedAt(init, i, x) && op != Drop(x) { assert InsertedAt(ops, i, x); }
    if op == Push(x) && x !in After(init) { assert InsertedAt(ops, |ops| - 1, x); }
    if i :| InsertedAt(ops, i, x) { assert InsertedAt(init, i, x) || op == Push(x); }
  }

  lemma OrderStep(ops: seq<Op>, i: nat, j: nat, x: Tx, y: Tx)
    requires ops != [] && InsertedAt(ops, i, x) && InsertedAt(ops, j, y)
    requires var init := ops[..|ops| - 1];
             && Distinct(After(init)) && (x in After(init) <==> exists i :: InsertedAt(init, i, x)) && (y in After(init) <==> exists i :: InsertedAt(init, i, y))
             && (InsertedAt(init, i, x) && InsertedAt(init, j, y) ==> (Precedes(After(init), x, y) <==> i < j))
    ensures Precedes(After(ops), x, y) <==> i < j
  {
    var init, op := ops[..|ops| - 1], ops[|ops| - 1];
    InsertedStep(ops, i, x);
    InsertedStep(ops, j, y);
    if op.Drop? {
      WithoutOrder(After(init), op.cmd, x, y);
    } else if op.cmd !in After(init) {
      PrecedesAppend(After(init), op.cmd, x, y);
    }
  }
}
