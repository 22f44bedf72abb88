/** `GraphFormatConversion`: the adjacency of a proposed graph as bits, one row of 64-bit groups a
    vertex. */
module BitGraph {
  import opened Words
  import opened Graphs
  import opened Sequences
  import opened Sorting

  const MAX_PROPOSAL_SIZE_SUPPORTED := 960
  const GROUPS := 15

  // ---------------------------------------------------------------- the format

  /** The stream, field by field. */
  datatype Field = Size(n: nat) | Hash(tx: Tx) | Group(bits: Word)

  type Row = seq<Word>

  /** The bit of a row for the vertex at index `idx`. */
  predicate Marks(row: Row, idx: nat)
    requires |row| == GROUPS
  {
    idx < MAX_PROPOSAL_SIZE_SUPPORTED && Bit(row[idx / 64], idx % 64)
  }

  /** The stream starts with these vertices and rows. */
  ghost predicate Starts(s: seq<Field>, keys: seq<Tx>, rows: seq<Row>) {
    && |s| >= 1 + 16 * |keys| && s[0] == Size(|keys|)
    && |rows| == |keys|
    && forall k :: 0 <= k < |keys| ==> RowAt(s, 1 + 16 * k, keys[k], rows[k])
  }

  ghost predicate RowAt(s: seq<Field>, at: nat, key: Tx, row: Row) {
    && |row| == GROUPS && at + GROUPS < |s|
    && s[at] == Hash(key) && forall i :: 0 <= i < GROUPS ==> s[at + 1 + i] == Group(row[i])
  }

  /** `node_to_idx`; looking up a hash that is not a vertex yields 0. */
  ghost function Slot(keys: seq<Tx>, x: Tx): nat {
    if x in Index(keys) then Index(keys)[x] else 0
  }

  ghost predicate RowFor(keys: seq<Tx>, neighbours: set<Tx>, row: Row) {
    && |row| == GROUPS
    && forall idx :: 0 <= idx < MAX_PROPOSAL_SIZE_SUPPORTED ==> (Marks(row, idx) <==> TakesSlot(keys, neighbours, idx))
  }

  ghost predicate TakesSlot(keys: seq<Tx>, neighbours: set<Tx>, idx: nat) {
    exists y :: y in neighbours && Slot(keys, y) == idx
  }

  /** The stream is the encoding of the graph, by these vertices and rows. */
  ghost predicate EncodedBy(g: Graph, s: seq<Field>, keys: seq<Tx>, rows: seq<Row>) {
    && Increasing(keys) && Elements(keys) == g.Keys
    && Starts(s, keys, rows) && |s| == 1 + 16 * |keys|
    && forall k :: 0 <= k < |keys| ==> keys[k] in g && RowFor(keys, g[keys[k]], rows[k])
  }

  ghost predicate IsEncoding(g: Graph, s: seq<Field>) {
    exists keys, rows :: EncodedBy(g, s, keys, rows)
  }

  // ---------------------------------------------------------------- serialize

  method SortedKeys(g: Graph) returns (keys: seq<Tx>)
    ensures Increasing(keys) && Elements(keys) == g.Keys
  {
    var found: seq<Tx> := [];
    var rest := g.Keys;
    while rest != {}
      invariant rest <= g.Keys && Elements(found) == g.Keys - rest && Distinct(found)
    {
      var x :| x in rest;
      assert x !in Elements(found);
      assert Elements(found + [x]) == Elements(found) + {x};
      found := found + [x];
      rest := rest - {x};
    }
    keys := SortBy(found, (x: nat) => x);
    SortingLength(found, (x: nat) => x, keys);
    SortedIncreasing(found, (x: nat) => x, keys);
    forall x ensures x in Elements(keys) <==> x in g.Keys {
      assert x in keys <==> x in found;
      assert x in found <==> x in Elements(found);
    }
  }

  lemma SortedIncreasing(items: seq<Tx>, key: Key, out: seq<Tx>)
    requires IsSorting(items, key, out) && Distinct(items) && forall x :: key(x) == x
    ensures Increasing(out)
  {
    SortingDistinct(items, key, out);
    forall i, j | 0 <= i < j < |out| ensures out[i] < out[j] {
      assert key(out[i]) <= key(out[j]);
    }
  }

  method IndexKeys(keys: seq<Tx>) returns (index: map<Tx, nat>)
    ensures index == Index(keys)
  {
    index := map[];
    for i := 0 to |keys|
      invariant index == Index(keys[..i])
    {
      assert keys[..i + 1] == keys[..i] + [keys[i]];
      IndexAppend(keys[..i], keys[i]);
      index := index[keys[i] := i];
    }
    assert keys[..|keys|] == keys;
  }

  lemma SlotBound(keys: seq<Tx>, y: Tx)
    requires Distinct(keys) && 0 < |keys| <= MAX_PROPOSAL_SIZE_SUPPORTED
    ensures Slot(keys, y) < |keys|
  {
    IndexMeaning(keys, y);
  }

  method PackRow(keys: seq<Tx>, index: map<Tx, nat>, neighbours: set<Tx>) returns (row: Row)
    requires index == Index(keys) && Distinct(keys) && 0 < |keys| <= MAX_PROPOSAL_SIZE_SUPPORTED
    ensures RowFor(keys, neighbours, row)
  {
    row := seq(GROUPS, i => 0);
    forall idx | 0 <= idx < MAX_PROPOSAL_SIZE_SUPPORTED ensures !Marks(row, idx) { BitOfZero(idx % 64); }
    var rest := neighbours;
    while rest != {}
      invariant rest <= neighbours && RowFor(keys, neighbours - rest, row)
    {
      var y :| y in rest;
      SlotBound(keys, y);
      var slot := if y in index then index[y] else 0;
      var groupI := slot / 64;
      ghost var was, done := row, neighbours - rest;
      row := row[groupI := SetBit(row[groupI], slot - 64 * groupI)];
      rest := rest - {y};
      assert neighbours - rest == done + {y};
      MarkSlot(keys, done, was, y, row);
    }
    assert neighbours - rest == neighbours;
  }

  lemma MarkSlot(keys: seq<Tx>, done: set<Tx>, was: Row, y: Tx, row: Row)
    requires RowFor(keys, done, was) && Slot(keys, y) < MAX_PROPOSAL_SIZE_SUPPORTED
    requires var slot := Slot(keys, y); row == was[slot / 64 := SetBit(was[slot / 64], slot % 64)]
    ensures RowFor(keys, done + {y}, row)
  {
    var slot := Slot(keys, y);
    forall idx | 0 <= idx < MAX_PROPOSAL_SIZE_SUPPORTED ensures Marks(row, idx) <==> TakesSlot(keys, done + {y}, idx) {
      if idx / 64 == slot / 64 { BitOfSet(was[slot / 64], slot % 64, idx % 64); }
      assert Marks(row, idx) <==> Marks(was, idx) || idx == slot;
      assert TakesSlot(keys, done + {y}, idx) <==> TakesSlot(keys, done, idx) || idx == slot;
    }
  }

  /** Whatever the order in which vertices and neighbours are visited, the encoding is the same one. */
  method Serialize(g: Graph) returns (s: seq<Field>)
    requires |g| <= MAX_PROPOSAL_SIZE_SUPPORTED
    ensures IsEncoding(g, s)
  {
    var keys := SortedKeys(g);
    DistinctSize(keys);
    var index := IndexKeys(keys);
    s := [Size(|keys|)];
    ghost var rows: seq<Row> := [];
    for k := 0 to |keys|
      invariant |rows| == k && |s| == 1 + 16 * k && s[0] == Size(|keys|)
      invariant forall m :: 0 <= m < k ==> keys[m] in g && RowAt(s, 1 + 16 * m, keys[m], rows[m]) && RowFor(keys, g[keys[m]], rows[m])
    {
      assert keys[k] in Elements(keys);
      var row := PackRow(keys, index, g[keys[k]]);
      ghost var was := s;
      s := s + [Hash(keys[k])] + Fields(row);
      forall m | 0 <= m < k ensures RowAt(s, 1 + 16 * m, keys[m], rows[m]) {
        RowStays(was, s, 1 + 16 * m, keys[m], rows[m]);
      }
      rows := rows + [row];
    }
    assert EncodedBy(g, s, keys, rows);
  }

  function Fields(row: Row): (f: seq<Field>)
    ensures |f| == |row| && forall i :: 0 <= i < |row| ==> f[i] == Group(row[i])
  {
    seq(|row|, i requires 0 <= i < |row| => Group(row[i]))
  }

  lemma RowStays(s: seq<Field>, t: seq<Field>, at: nat, key: Tx, row: Row)
    requires RowAt(s, at, key, row) && s <= t
    ensures RowAt(t, at, key, row)
  {
  }

  // ---------------------------------------------------------------- unserialize

  datatype Parsed = Read(g: Graph, rest: seq<Field>) | Malformed

  /** The vertices that a row marks. */
  ghost function Marked(keys: seq<Tx>, row: Row): set<Tx>
    requires |row| == GROUPS
  {
    set i | 0 <= i < |keys| && Marks(row, i) :: keys[i]
  }

  /** The graph of the first `k` rows; a repeated vertex is overwritten. */
  ghost function Decoded(keys: seq<Tx>, rows: seq<Row>, k: nat): Graph
    requires k <= |keys| == |rows| && forall m :: 0 <= m < |rows| ==> |rows[m]| == GROUPS
  {
    if k == 0 then map[] else Decoded(keys, rows, k - 1)[keys[k - 1] := Marked(keys, rows[k - 1])]
  }

  /** No row marks an index that is not one of a vertex. */
  ghost predicate InRange(keys: seq<Tx>, rows: seq<Row>) {
    forall m, idx :: 0 <= m < |rows| && |rows[m]| == GROUPS && |keys| <= idx ==> !Marks(rows[m], idx)
  }

  method ReadRow(s: seq<Field>, at: nat) returns (ok: bool, key: Tx, row: Row)
    ensures ok ==> RowAt(s, at, key, row)
    ensures !ok ==> NoRowAt(s, at)
  {
    ok, key, row := false, 0, [];
    if at + GROUPS >= |s| || !s[at].Hash? { return; }
    key := s[at].tx;
    for i := 0 to GROUPS
      invariant |row| == i && forall j :: 0 <= j < i ==> s[at + 1 + j] == Group(row[j])
    {
      if !s[at + 1 + i].Group? {
        assert forall k, r :: RowAt(s, at, k, r) ==> s[at + 1 + i] == Group(r[i]);
        return;
      }
      row := row + [s[at + 1 + i].bits];
    }
    ok := true;
  }

  lemma StartsOnce(s: seq<Field>, keys: seq<Tx>, rows: seq<Row>, keys': seq<Tx>, rows': seq<Row>)
    requires Starts(s, keys, rows) && Starts(s, keys', rows')
    ensures keys == keys' && rows == rows'
  {
    forall k | 0 <= k < |keys| ensures keys[k] == keys'[k] && rows[k] == rows'[k] {
      RowOnce(s, 1 + 16 * k, keys[k], rows[k], keys'[k], rows'[k]);
    }
  }

  lemma RowOnce(s: seq<Field>, at: nat, key: Tx, row: Row, key': Tx, row': Row)
    requires RowAt(s, at, key, row) && RowAt(s, at, key', row')
    ensures key == key' && row == row'
  {
    forall i | 0 <= i < GROUPS ensures row[i] == row'[i] {
      assert s[at + 1 + i] == Group(row[i]) && s[at + 1 + i] == Group(row'[i]);
    }
  }

  /** A stream that can be read. */
  ghost predicate Readable(s: seq<Field>, keys: seq<Tx>, rows: seq<Row>) {
    Starts(s, keys, rows) && InRange(keys, rows)
  }

  lemma NotReadable(s: seq<Field>, k: nat, keys: seq<Tx>, rows: seq<Row>)
    requires s != [] && s[0].Size? && k < s[0].n && NoRowAt(s, 1 + 16 * k)
    ensures !Readable(s, keys, rows)
  {
    if Starts(s, keys, rows) {
      RowOf(s, keys, rows, k);
    }
  }

  lemma RowOf(s: seq<Field>, keys: seq<Tx>, rows: seq<Row>, k: nat)
    requires Starts(s, keys, rows) && k < |keys|
    ensures !NoRowAt(s, 1 + 16 * k)
  {
    assert RowAt(s, 1 + 16 * k, keys[k], rows[k]);
  }

  ghost predicate NoRowAt(s: seq<Field>, at: nat) {
    forall key, row :: !RowAt(s, at, key, row)
  }

  /** Reading beyond the stream, and marks beyond the vertices, have no defined outcome in the program. */
  method Unserialize(s: seq<Field>) returns (parsed: Parsed)
    ensures forall keys, rows :: Readable(s, keys, rows) ==> parsed == Read(Decoded(keys, rows, |keys|), s[1 + 16 * |keys|..])
    ensures parsed.Read? ==> exists keys, rows :: Readable(s, keys, rows)
  {
    parsed := Malformed;
    if s == [] || !s[0].Size? { return; }
    var n := s[0].n;
    var ok, keys, rows := ReadRows(s, n);
    if !ok { return; }
    ghost var all := keys;
    var g: Graph := map[];
    for k := 0 to n
      invariant g == Decoded(keys, rows, k)
      invariant forall m, idx :: 0 <= m < k && n <= idx ==> !Marks(rows[m], idx)
    {
      var inRange, marked := Unpack(keys, rows[k]);
      if !inRange {
        forall keys', rows' | Readable(s, keys', rows') ensures false { StartsOnce(s, keys, rows, keys', rows'); }
        return;
      }
      g := g[keys[k] := marked];
    }
    assert Readable(s, keys, rows);
    forall keys', rows' | Readable(s, keys', rows') ensures keys' == keys && rows' == rows {
      StartsOnce(s, keys, rows, keys', rows');
    }
    parsed := Read(g, s[1 + 16 * n..]);
  }

  method ReadRows(s: seq<Field>, n: nat) returns (ok: bool, keys: seq<Tx>, rows: seq<Row>)
    requires s != [] && s[0] == Size(n)
    ensures ok ==> |keys| == n && Starts(s, keys, rows)
    ensures !ok ==> forall keys', rows' :: !Readable(s, keys', rows')
  {
    keys, rows := [], [];
    for k := 0 to n
      invariant |keys| == |rows| == k && forall m :: 0 <= m < k ==> RowAt(s, 1 + 16 * m, keys[m], rows[m])
    {
      var read, key, row := ReadRow(s, 1 + 16 * k);
      if !read {
        forall keys', rows' ensures !Readable(s, keys', rows') { NotReadable(s, k, keys', rows'); }
        return false, keys, rows;
      }
      keys, rows := keys + [key], rows + [row];
    }
    ok := true;
    assert n > 0 ==> RowAt(s, 1 + 16 * (n - 1), keys[n - 1], rows[n - 1]);
  }

  /** The vertices that a row marks below an index. */
  ghost function MarkedBelow(keys: seq<Tx>, row: Row, bound: nat): set<Tx>
    requires |row| == GROUPS
  {
    set i | 0 <= i < |keys| && i < bound && Marks(row, i) :: keys[i]
  }

  ghost predicate InRangeBelow(n: nat, row: Row, bound: nat)
    requires |row| == GROUPS
  {
    forall idx :: n <= idx < bound ==> !Marks(row, idx)
  }

  method Unpack(keys: seq<Tx>, row: Row) returns (inRange: bool, marked: set<Tx>)
    requires |row| == GROUPS
    ensures inRange <==> forall idx :: |keys| <= idx ==> !Marks(row, idx)
    ensures inRange ==> marked == Marked(keys, row)
  {
    marked := {};
    for groupI := 0 to GROUPS
      invariant InRangeBelow(|keys|, row, 64 * groupI) && marked == MarkedBelow(keys, row, 64 * groupI)
    {
      if row[groupI] == 0 {
        forall idx | 64 * groupI <= idx < 64 * groupI + 64 ensures !Marks(row, idx) { BitOfZero(idx % 64); }
        SkipUnmarked(keys, row, 64 * groupI, 64 * groupI + 64);
        continue;
      }
      for i := 0 to 64
        invariant InRangeBelow(|keys|, row, 64 * groupI + i) && marked == MarkedBelow(keys, row, 64 * groupI + i)
      {
        var idx := i + groupI * 64;
        NextMark(keys, row, idx);
        if Bit(row[groupI], i) {
          if idx >= |keys| { return false, marked; }
          marked := marked + {keys[idx]};
        }
      }
    }
    inRange := true;
    assert marked == Marked(keys, row);
  }

  lemma SkipUnmarked(keys: seq<Tx>, row: Row, from: nat, to: nat)
    requires |row| == GROUPS && from <= to
    requires forall idx :: from <= idx < to ==> !Marks(row, idx)
    ensures InRangeBelow(|keys|, row, from) ==> InRangeBelow(|keys|, row, to)
    ensures MarkedBelow(keys, row, to) == MarkedBelow(keys, row, from)
  {
  }

  lemma NextMark(keys: seq<Tx>, row: Row, idx: nat)
    requires |row| == GROUPS
    ensures InRangeBelow(|keys|, row, idx + 1) <==> InRangeBelow(|keys|, row, idx) && (idx >= |keys| ==> !Marks(row, idx))
    ensures MarkedBelow(keys, row, idx + 1) == MarkedBelow(keys, row, idx) + if idx < |keys| && Marks(row, idx) then {keys[idx]} else {}
  {
  }

  // ---------------------------------------------------------------- round trip

  lemma {:induction false} IncreasingSame(s: seq<Tx>, t: seq<Tx>)
    requires Increasing(s) && Increasing(t) && Elements(s) == Elements(t)
    ensures s == t
  {
    forall x: Tx ensures x in s <==> x in t { assert x in Elements(s) <==> x in Elements(t); }
    NoElements(s);
    NoElements(t);
    if s != [] {
      var s', t' := s[..|s| - 1], t[..|t| - 1];
      LastIsGreatest(s);
      LastIsGreatest(t);
      assert s[|s| - 1] == t[|t| - 1];
      forall x: Tx ensures x in s' <==> x in t' { assert x in s <==> x in t; }
      assert Elements(s') == Elements(t');
      IncreasingSame(s', t');
      assert s == s' + [s[|s| - 1]] && t == t' + [t[|t| - 1]];
    }
  }

  lemma NoElements(s: seq<Tx>)
    ensures s == [] <==> Elements(s) == {}
  {
    if s != [] { assert s[0] in Elements(s); }
  }

  lemma LastIsGreatest(s: seq<Tx>)
    requires Increasing(s) && s != []
    ensures s[|s| - 1] in s && forall x: Tx :: x in s ==> x <= s[|s| - 1]
    ensures forall x: Tx :: x in s[..|s| - 1] <==> x in s && x != s[|s| - 1]
  {
    assert s == s[..|s| - 1] + [s[|s| - 1]];
  }

  lemma RowForOnce(keys: seq<Tx>, neighbours: set<Tx>, row: Row, row': Row)
    requires RowFor(keys, neighbours, row) && RowFor(keys, neighbours, row')
    ensures row == row'
  {
    forall g | 0 <= g < GROUPS ensures row[g] == row'[g] {
      forall i | 0 <= i < 64 ensures Bit(row[g], i) == Bit(row'[g], i) {
        var idx := 64 * g + i;
        assert idx / 64 == g && idx % 64 == i;
        assert Marks(row, idx) <==> Marks(row', idx);
      }
      SameBits(row[g], row'[g]);
    }
  }

  /** A graph has one encoding. */
  lemma EncodingUnique(g: Graph, s: seq<Field>, t: seq<Field>)
    requires IsEncoding(g, s) && IsEncoding(g, t)
    ensures s == t
  {
    var keys, rows :| EncodedBy(g, s, keys, rows);
    var keys', rows' :| EncodedBy(g, t, keys', rows');
    IncreasingSame(keys, keys');
    forall k | 0 <= k < |keys| ensures rows[k] == rows'[k] { RowForOnce(keys, g[keys[k]], rows[k], rows'[k]); }
    SameFields(s, t, keys, rows);
  }

  lemma SameFields(s: seq<Field>, t: seq<Field>, keys: seq<Tx>, rows: seq<Row>)
    requires |s| == |t| == 1 + 16 * |keys| && |rows| == |keys| && s[0] == t[0]
    requires forall k :: 0 <= k < |keys| ==> RowAt(s, 1 + 16 * k, keys[k], rows[k]) && RowAt(t, 1 + 16 * k, keys[k], rows[k])
    ensures s == t
  {
    forall j | 0 < j < |s| ensures s[j] == t[j] {
      var k := (j - 1) / 16;
      SameRow(s, t, 1 + 16 * k, keys[k], rows[k], j);
    }
  }

  lemma SameRow(s: seq<Field>, t: seq<Field>, start: nat, key: Tx, row: Row, j: nat)
    requires RowAt(s, start, key, row) && RowAt(t, start, key, row) && start <= j < start + 16
    ensures s[j] == t[j]
  {
    var i := j - start;
    if i > 0 { assert s[start + 1 + (i - 1)] == Group(row[i - 1]) && t[start + 1 + (i - 1)] == Group(row[i - 1]); }
  }

  /** What a row for `neighbours` marks: the neighbours that are vertices, and the first vertex in place
      of any that is not. */
  lemma MarkedMeaning(keys: seq<Tx>, neighbours: set<Tx>, row: Row)
    requires Distinct(keys) && 0 < |keys| <= MAX_PROPOSAL_SIZE_SUPPORTED && RowFor(keys, neighbours, row)
    ensures forall idx :: |keys| <= idx ==> !Marks(row, idx)
    ensures Marked(keys, row) == set y | y in neighbours :: keys[Resolved(keys, y)]
  {
    forall idx | |keys| <= idx < MAX_PROPOSAL_SIZE_SUPPORTED ensures !Marks(row, idx) {
      if y :| y in neighbours && Slot(keys, y) == idx { SlotBound(keys, y); }
    }
    var named := set y | y in neighbours :: keys[Resolved(keys, y)];
    forall x | x in Marked(keys, row) ensures x in named {
      var i :| 0 <= i < |keys| && Marks(row, i) && keys[i] == x;
      assert TakesSlot(keys, neighbours, i);
      var y :| y in neighbours && Slot(keys, y) == i;
      assert Resolved(keys, y) == i;
    }
    forall y | y in neighbours ensures keys[Resolved(keys, y)] in Marked(keys, row) {
      assert TakesSlot(keys, neighbours, Slot(keys, y));
      assert Marks(row, Slot(keys, y));
    }
  }

  ghost function Resolved(keys: seq<Tx>, y: Tx): (i: nat)
    requires Distinct(keys) && 0 < |keys| <= MAX_PROPOSAL_SIZE_SUPPORTED
    ensures i < |keys| && i == Slot(keys, y)
    ensures y in keys ==> keys[i] == y
  {
    SlotBound(keys, y);
    IndexMeaning(keys, y);
    Slot(keys, y)
  }

  lemma {:induction false} DecodedAt(keys: seq<Tx>, rows: seq<Row>, k: nat, x: Tx)
    requires Distinct(keys) && k <= |keys| == |rows|
    requires forall m :: 0 <= m < |rows| ==> |rows[m]| == GROUPS
    ensures x in Decoded(keys, rows, k) <==> x in keys[..k]
    ensures forall m :: 0 <= m < k && keys[m] == x ==> Decoded(keys, rows, k)[x] == Marked(keys, rows[m])
  {
    if k > 0 {
      DecodedAt(keys, rows, k - 1, x);
      assert keys[..k] == keys[..k - 1] + [keys[k - 1]];
    }
  }

  /** Decoding the encoding, with whatever follows it in the stream, gives back the graph exactly when
      every child is a vertex. */
  lemma RoundTrip(g: Graph, s: seq<Field>, tail: seq<Field>) returns (keys: seq<Tx>, rows: seq<Row>)
    requires IsEncoding(g, s) && |g| <= MAX_PROPOSAL_SIZE_SUPPORTED
    ensures Readable(s + tail, keys, rows) && (s + tail)[1 + 16 * |keys|..] == tail
    ensures Decoded(keys, rows, |keys|) == g <==> Closed(g)
  {
    keys, rows :| EncodedBy(g, s, keys, rows);
    DistinctSize(keys);
    WithTail(s, tail, keys, rows);
    forall k | 0 <= k < |keys| ensures RowKept(g, keys, rows[k], k) { RowRoundTrip(g, keys, rows[k], k); }
    RowsDecoded(keys, rows);
    var d := Decoded(keys, rows, |keys|);
    forall x ensures x in d <==> x in g { assert x in keys <==> x in Elements(keys); }
    DecodedGraph(g, keys, rows, d);
  }

  lemma RowsDecoded(keys: seq<Tx>, rows: seq<Row>)
    requires Distinct(keys) && |rows| == |keys| && forall m :: 0 <= m < |rows| ==> |rows[m]| == GROUPS
    ensures var d := Decoded(keys, rows, |keys|);
            && (forall x :: x in d <==> x in keys)
            && forall k :: 0 <= k < |keys| ==> keys[k] in d && d[keys[k]] == Marked(keys, rows[k])
  {
    var d := Decoded(keys, rows, |keys|);
    assert keys[..|keys|] == keys;
    forall x ensures x in d <==> x in keys { DecodedAt(keys, rows, |keys|, x); }
    forall k | 0 <= k < |keys| ensures keys[k] in d && d[keys[k]] == Marked(keys, rows[k]) {
      DecodedAt(keys, rows, |keys|, keys[k]);
    }
  }

  lemma WithTail(s: seq<Field>, tail: seq<Field>, keys: seq<Tx>, rows: seq<Row>)
    requires Starts(s, keys, rows) && |s| == 1 + 16 * |keys|
    ensures Starts(s + tail, keys, rows) && (s + tail)[1 + 16 * |keys|..] == tail
  {
    forall k | 0 <= k < |keys| ensures RowAt(s + tail, 1 + 16 * k, keys[k], rows[k]) {
      RowStays(s, s + tail, 1 + 16 * k, keys[k], rows[k]);
    }
  }

  /** A row gives back the children of its vertex, with the first vertex for each that is none. */
  ghost predicate RowKept(g: Graph, keys: seq<Tx>, row: Row, k: nat)
    requires k < |keys| <= MAX_PROPOSAL_SIZE_SUPPORTED && keys[k] in g && |row| == GROUPS && Distinct(keys)
  {
    && (forall idx :: |keys| <= idx ==> !Marks(row, idx))
    && Marked(keys, row) <= Elements(keys)
    && (g[keys[k]] <= Elements(keys) ==> Marked(keys, row) == g[keys[k]])
  }

  lemma RowRoundTrip(g: Graph, keys: seq<Tx>, row: Row, k: nat)
    requires k < |keys| <= MAX_PROPOSAL_SIZE_SUPPORTED && keys[k] in g && Distinct(keys) && RowFor(keys, g[keys[k]], row)
    ensures RowKept(g, keys, row, k)
  {
    MarkedMeaning(keys, g[keys[k]], row);
  }

  lemma DecodedGraph(g: Graph, keys: seq<Tx>, rows: seq<Row>, d: Graph)
    requires Distinct(keys) && Elements(keys) == g.Keys && (forall x :: x in d <==> x in g) && |rows| == |keys| <= MAX_PROPOSAL_SIZE_SUPPORTED
    requires forall k :: 0 <= k < |keys| ==> keys[k] in g && |rows[k]| == GROUPS && RowKept(g, keys, rows[k], k)
    requires forall k :: 0 <= k < |keys| ==> keys[k] in d && d[keys[k]] == Marked(keys, rows[k])
    ensures d == g <==> Closed(g)
  {
    forall x | x in g ensures d[x] <= g.Keys && (g[x] <= g.Keys ==> d[x] == g[x]) {
      assert x in Elements(keys);
      var k :| 0 <= k < |keys| && keys[k] == x;
      assert RowKept(g, keys, rows[k], k);
    }
    if Closed(g) {
      forall x | x in g ensures g[x] <= g.Keys { forall y | y in g[x] ensures y in g { assert Edge(g, x, y); } }
    }
    if d == g {
      forall u, v | Edge(g, u, v) ensures v in g { assert v in d[u]; }
    }
  }

  // ---------------------------------------------------------------- which bit says what

  ghost function Below(g: Graph, x: Tx): set<Tx> {
    set z | z in g && z < x
  }

  /** The place of a vertex among those of the graph, in ascending order. */
  ghost function Rank(g: Graph, x: Tx): nat {
    |Below(g, x)|
  }

  lemma RankAt(g: Graph, keys: seq<Tx>, i: nat)
    requires Increasing(keys) && Elements(keys) == g.Keys && i < |keys|
    ensures Rank(g, keys[i]) == i
  {
    var lower, front := Below(g, keys[i]), keys[..i];
    forall z | z in lower ensures z in Elements(front) {
      assert z in Elements(keys);
      var j :| 0 <= j < |keys| && keys[j] == z;
      assert front[j] == z;
    }
    forall z | z in Elements(front) ensures z in lower {
      var j :| 0 <= j < |front| && front[j] == z;
      assert keys[j] in Elements(keys);
    }
    assert lower == Elements(front);
    DistinctSize(front);
  }

  lemma RankSlot(g: Graph, keys: seq<Tx>, x: Tx)
    requires Increasing(keys) && Elements(keys) == g.Keys && x in g
    ensures Rank(g, x) == Slot(keys, x) < |keys| == |g| && keys[Rank(g, x)] == x
  {
    assert x in Elements(keys);
    IndexMeaning(keys, x);
    RankAt(g, keys, Index(keys)[x]);
    DistinctSize(keys);
  }

  lemma WordAt(g: Graph, s: seq<Field>, keys: seq<Tx>, rows: seq<Row>, k: nat, idx: nat)
    requires EncodedBy(g, s, keys, rows) && k < |keys| && idx < MAX_PROPOSAL_SIZE_SUPPORTED
    ensures keys[k] in g && 2 + 16 * k + idx / 64 < |s| && s[1 + 16 * k] == Hash(keys[k])
    ensures var word := s[2 + 16 * k + idx / 64];
            word.Group? && (word.bits / Power(idx % 64) % 2 == 1 <==> TakesSlot(keys, g[keys[k]], idx))
  {
    assert RowAt(s, 1 + 16 * k, keys[k], rows[k]) && RowFor(keys, g[keys[k]], rows[k]);
    assert s[1 + 16 * k + 1 + idx / 64] == Group(rows[k][idx / 64]);
    BitWeight(rows[k][idx / 64], idx % 64);
    assert Marks(rows[k], idx) <==> TakesSlot(keys, g[keys[k]], idx);
  }

  /** Where the encoding says what: the number of vertices first; then for each vertex, in ascending order,
      its hash and 15 words, in which the bit of weight two to the `k`, in word `j`, is about the vertex of
      rank 64 j + k and set exactly if there is an edge to it. */
  lemma BitMeaning(g: Graph, s: seq<Field>, x: Tx, y: Tx)
    requires IsEncoding(g, s) && Closed(g) && |g| <= MAX_PROPOSAL_SIZE_SUPPORTED && x in g && y in g
    ensures s != [] && s[0] == Size(|g|) && |s| == 1 + 16 * |g|
    ensures Rank(g, x) < |g| && Rank(g, y) < |g|
    ensures var row, word, bit := 1 + 16 * Rank(g, x), Rank(g, y) / 64, Rank(g, y) % 64;
            && row + 1 + word < |s| && s[row] == Hash(x) && s[row + 1 + word].Group?
            && (y in g[x] <==> s[row + 1 + word].bits / Power(bit) % 2 == 1)
  {
    var keys, rows :| EncodedBy(g, s, keys, rows);
    RankSlot(g, keys, x);
    RankSlot(g, keys, y);
    var k, idx := Rank(g, x), Rank(g, y);
    WordAt(g, s, keys, rows, k, idx);
    OnlyAtItsRank(g, keys, x, y);
  }

  lemma OnlyAtItsRank(g: Graph, keys: seq<Tx>, x: Tx, y: Tx)
    requires Increasing(keys) && Elements(keys) == g.Keys && Closed(g) && x in g && y in g
    ensures TakesSlot(keys, g[x], Rank(g, y)) <==> y in g[x]
  {
    RankSlot(g, keys, y);
    if z :| z in g[x] && Slot(keys, z) == Rank(g, y) {
      assert Edge(g, x, z);
      RankSlot(g, keys, z);
      assert z == y;
    }
  }

  /** No other bit of a row is set. */
  lemma BitsBeyond(g: Graph, s: seq<Field>, x: Tx, idx: nat)
    requires IsEncoding(g, s) && Closed(g) && x in g && |g| <= idx < MAX_PROPOSAL_SIZE_SUPPORTED
    ensures var at := 2 + 16 * Rank(g, x) + idx / 64;
            at < |s| && s[at].Group? && s[at].bits / Power(idx % 64) % 2 == 0
  {
    var keys, rows :| EncodedBy(g, s, keys, rows);
    RankSlot(g, keys, x);
    var k := Rank(g, x);
    WordAt(g, s, keys, rows, k, idx);
    forall z | z in g[x] ensures Slot(keys, z) != idx {
      assert Edge(g, x, z);
      RankSlot(g, keys, z);
    }
    assert !TakesSlot(keys, g[x], idx);
  }
}
