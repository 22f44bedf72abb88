/** Themis `fair_propose` and `fair_update`, and the fairness they give: the shape of the proposed
    graph, what pruning leaves of it, and batch-order fairness with its bound. */
module FairOrdering {
  import opened Graphs
  import opened Condensation
  import opened LocalOrders
  import opened Sequences
  import opened FairProposal

  ghost predicate NonBlank(lists: seq<seq<Tx>>, cfg: Config, x: Tx)
    requires cfg.Valid()
  {
    Mentions(lists, x) > 0 && (Mentions(lists, x) % WRAP) as real >= cfg.NonBlankThreshold()
  }

  ghost predicate Solid(lists: seq<seq<Tx>>, cfg: Config, x: Tx)
    requires cfg.Valid()
  {
    Mentions(lists, x) > 0 && (Mentions(lists, x) % WRAP) as real >= cfg.SolidThreshold()
  }

  /** Enough lists put `a` before `b`. */
  ghost predicate Weighs(lists: seq<seq<Tx>>, cfg: Config, a: Tx, b: Tx)
    requires cfg.Valid()
  {
    Votes(lists, a, b) > 0 && (Votes(lists, a, b) % WRAP) as real >= cfg.EdgeThreshold()
  }

  /** The graph before pruning, whatever the order in which the hash maps are traversed. */
  ghost predicate IsProposalGraph(lists: seq<seq<Tx>>, cfg: Config, full: Graph)
    requires cfg.Valid()
  {
    && (forall a, b :: Edge(full, a, b) ==> Weighs(lists, cfg, a, b))
    && (forall a, b :: Weighs(lists, cfg, a, b) ==> Edge(full, a, b) || Edge(full, b, a))
    && (forall a, b :: Edge(full, a, b) && Edge(full, b, a) ==> a == b)
    && (forall x :: x in full <==> NonBlank(lists, cfg, x) || exists y :: Weighs(lists, cfg, x, y) || Weighs(lists, cfg, y, x))
  }

  /** `graph` is what is left of a proposal graph after pruning it at the cut. */
  ghost predicate IsPruned(lists: seq<seq<Tx>>, cfg: Config, full: Graph, parts: seq<seq<Tx>>, cut: nat, graph: Graph)
    requires cfg.Valid()
  {
    && IsProposalGraph(lists, cfg, full) && IsCondensation(full, parts)
    && IsCut(parts, (set x | x in full && Solid(lists, cfg, x)), cut)
    && Removed(full, Concat(parts[cut..]), graph)
  }

  ghost predicate IsProposal(lists: seq<seq<Tx>>, cfg: Config, graph: Graph)
    requires cfg.Valid()
  {
    exists full, parts, cut :: IsPruned(lists, cfg, full, parts, cut, graph)
  }

  /** `fair_propose` on the local orders of the replicas heard from. */
  method FairPropose(lists: seq<seq<Tx>>, cfg: Config) returns (graph: Graph)
    requires cfg.Valid()
    ensures IsProposal(lists, cfg, graph)
  {
    var txCount := CountTransactions(lists);
    var vertices, solid := FindVertices(lists, cfg, txCount);
    var edges := CountEdges(lists);
    var full := AddEdges(vertices, edges, cfg.EdgeThreshold());
    GraphFromCounts(lists, cfg, vertices.Keys, edges, full);
    var utility := new CondensationGraph(full);
    var parts := utility.GetCondensationGraph();
    var cut := FindCut(parts, solid);
    CondensationListsOnce(full, parts);
    graph := RemoveAfter(full, utility, parts, cut);
    PrunedHere(lists, cfg, full, parts, solid, cut, graph);
  }

  lemma PrunedHere(lists: seq<seq<Tx>>, cfg: Config, full: Graph, parts: seq<seq<Tx>>, solid: set<Tx>, cut: nat, graph: Graph)
    requires cfg.Valid() && IsProposalGraph(lists, cfg, full) && IsCondensation(full, parts) && IsCut(parts, solid, cut)
    requires (forall x :: x in solid <==> Solid(lists, cfg, x)) && Removed(full, Concat(parts[cut..]), graph)
    ensures IsProposal(lists, cfg, graph)
  {
    assert solid * full.Keys == set x | x in full && Solid(lists, cfg, x);
    CutInside(full, parts, solid, cut);
    assert IsPruned(lists, cfg, full, parts, cut, graph);
  }

  lemma CutInside(full: Graph, parts: seq<seq<Tx>>, solid: set<Tx>, cut: nat)
    requires IsCondensation(full, parts) && IsCut(parts, solid, cut)
    ensures IsCut(parts, solid * full.Keys, cut)
  {
    forall i, x | 0 <= i < |parts| && x in parts[i] ensures x in full {}
  }

  /** The loop that adds the non-blank transactions to the graph and collects the solid ones. */
  method FindVertices(lists: seq<seq<Tx>>, cfg: Config, txCount: map<Tx, nat>) returns (graph: Graph, solid: set<Tx>)
    requires cfg.Valid() && forall x :: Counted(txCount, x, Mentions(lists, x))
    ensures forall x :: x in graph <==> NonBlank(lists, cfg, x)
    ensures forall x :: x in graph ==> graph[x] == {}
    ensures forall x :: x in solid <==> Solid(lists, cfg, x)
  {
    graph, solid := map[], {};
    var rest := txCount.Keys;
    while rest != {}
      invariant rest <= txCount.Keys
      invariant forall x :: x in graph <==> x in txCount.Keys - rest && txCount[x] as real >= cfg.NonBlankThreshold()
      invariant forall x :: x in graph ==> graph[x] == {}
      invariant forall x :: x in solid <==> x in txCount.Keys - rest && txCount[x] as real >= cfg.SolidThreshold()
    {
      var tx :| tx in rest;
      if txCount[tx] as real >= cfg.NonBlankThreshold() { graph := graph[tx := {}]; }
      if txCount[tx] as real >= cfg.SolidThreshold() { solid := solid + {tx}; }
      rest := rest - {tx};
    }
  }

  lemma HeavyMeaning(lists: seq<seq<Tx>>, cfg: Config, edges: EdgeCount, a: Tx, b: Tx)
    requires cfg.Valid() && forall a, b :: Counted(Row(edges, a), b, Votes(lists, a, b))
    ensures Heavy(edges, cfg.EdgeThreshold(), a, b) <==> Weighs(lists, cfg, a, b)
    ensures Heavy(edges, cfg.EdgeThreshold(), a, b) ==> (a, b) in CountedPairs(edges, edges.Keys)
  {
    assert Counted(Row(edges, a), b, Votes(lists, a, b));
  }

  lemma GraphFromCounts(lists: seq<seq<Tx>>, cfg: Config, keys: set<Tx>, edges: EdgeCount, full: Graph)
    requires cfg.Valid() && forall a, b :: Counted(Row(edges, a), b, Votes(lists, a, b))
    requires forall x :: x in keys <==> NonBlank(lists, cfg, x)
    requires EdgesAdded(keys, edges, cfg.EdgeThreshold(), CountedPairs(edges, edges.Keys), full)
    ensures IsProposalGraph(lists, cfg, full) && Closed(full)
  {
    var t, done := cfg.EdgeThreshold(), CountedPairs(edges, edges.Keys);
    forall a, b ensures Heavy(edges, t, a, b) <==> Weighs(lists, cfg, a, b) { HeavyMeaning(lists, cfg, edges, a, b); }
    forall a: Tx, b: Tx | Heavy(edges, t, a, b) ensures (a, b) in done { HeavyMeaning(lists, cfg, edges, a, b); }
    forall x ensures TouchesHeavy(edges, t, done, x) <==> exists y :: Weighs(lists, cfg, x, y) || Weighs(lists, cfg, y, x) {}
    forall a, b | Edge(full, a, b) ensures b in full { assert TouchesHeavy(edges, t, done, b); }
  }

  // ---------------------------------------------------------------- lists without repetitions

  /** Fewer than 65536 lists cannot make a counter wrap around. */
  ghost predicate Sane(lists: seq<seq<Tx>>) {
    DupFree(lists) && |lists| < WRAP
  }

  lemma WeighsMeaning(lists: seq<seq<Tx>>, cfg: Config, a: Tx, b: Tx)
    requires cfg.Valid() && Sane(lists)
    ensures Weighs(lists, cfg, a, b) <==> Preferring(lists, a, b) != {} && |Preferring(lists, a, b)| as real >= cfg.EdgeThreshold()
  {
    VotesCount(lists, a, b);
    UnwrappedCount(Votes(lists, a, b), Preferring(lists, a, b));
  }

  lemma UnwrappedCount(count: nat, s: set<nat>)
    requires count == |s| < WRAP
    ensures count % WRAP == |s| && (count > 0 <==> s != {})
  {
  }

  lemma NonBlankMeaning(lists: seq<seq<Tx>>, cfg: Config, x: Tx)
    requires cfg.Valid() && Sane(lists)
    ensures NonBlank(lists, cfg, x) <==> Containing(lists, x) != {} && |Containing(lists, x)| as real >= cfg.NonBlankThreshold()
  {
    MentionsCount(lists, x);
    UnwrappedCount(Mentions(lists, x), Containing(lists, x));
  }

  lemma WeighsNonBlank(lists: seq<seq<Tx>>, cfg: Config, a: Tx, b: Tx)
    requires cfg.Valid() && Sane(lists) && Weighs(lists, cfg, a, b)
    ensures NonBlank(lists, cfg, a) && NonBlank(lists, cfg, b) && a != b
  {
    WeighsMeaning(lists, cfg, a, b);
    NonBlankMeaning(lists, cfg, a);
    NonBlankMeaning(lists, cfg, b);
    FewerOf(Preferring(lists, a, b), Containing(lists, a));
    FewerOf(Preferring(lists, a, b), Containing(lists, b));
  }

  /** The graph before pruning: its vertices are the non-blank transactions, no pair has edges in both
      directions, and a pair has an edge exactly when some direction reaches the threshold. */
  lemma ProposalShape(lists: seq<seq<Tx>>, cfg: Config, full: Graph)
    requires cfg.Valid() && Sane(lists) && IsProposalGraph(lists, cfg, full)
    ensures Closed(full)
    ensures forall x :: x in full <==> Containing(lists, x) != {} && |Containing(lists, x)| as real >= cfg.NonBlankThreshold()
    ensures forall a, b :: Edge(full, a, b) ==> !Edge(full, b, a)
    ensures forall a, b :: Edge(full, a, b) || Edge(full, b, a) <==> Weighs(lists, cfg, a, b) || Weighs(lists, cfg, b, a)
  {
    forall a, b | Weighs(lists, cfg, a, b) ensures NonBlank(lists, cfg, a) && NonBlank(lists, cfg, b) && a != b {
      WeighsNonBlank(lists, cfg, a, b);
    }
    forall x ensures x in full <==> Containing(lists, x) != {} && |Containing(lists, x)| as real >= cfg.NonBlankThreshold() {
      NonBlankMeaning(lists, cfg, x);
    }
    forall a, b | Edge(full, a, b) ensures b in full && !Edge(full, b, a) {
      assert Weighs(lists, cfg, a, b);
    }
  }

  // ---------------------------------------------------------------- what pruning leaves

  /** The transactions of the parts before the cut. */
  ghost predicate Kept(parts: seq<seq<Tx>>, cut: nat, x: Tx)
    requires cut <= |parts|
  {
    exists i :: 0 <= i < cut && x in parts[i]
  }

  /** A transaction is either kept or among the removed ones. */
  lemma KeptOrGone(full: Graph, parts: seq<seq<Tx>>, cut: nat, x: Tx)
    requires IsCondensation(full, parts) && cut <= |parts|
    ensures x in Concat(parts[cut..]) <==> x in full && !Kept(parts, cut, x)
    ensures Kept(parts, cut, x) ==> x in full
  {
    ConcatMembers(parts[cut..], x);
    if x in full && !Kept(parts, cut, x) {
      var i :| 0 <= i < |parts| && x in parts[i];
      assert x in parts[cut..][i - cut];
    }
    if x in Concat(parts[cut..]) {
      var i :| 0 <= i < |parts[cut..]| && x in parts[cut..][i];
      assert x in parts[cut + i];
    }
  }

  /** After pruning, the kept transactions carry exactly the edges among them, together with everything
      that must come before them; no edge leads from or to a removed transaction; and a removed
      transaction is still a vertex exactly when it came back. */
  lemma PrunedGraph(full: Graph, parts: seq<seq<Tx>>, cut: nat, graph: Graph)
    requires Closed(full) && IsCondensation(full, parts) && cut <= |parts| && Removed(full, Concat(parts[cut..]), graph)
    ensures forall u, w :: Edge(graph, u, w) <==> Edge(full, u, w) && Kept(parts, cut, u) && Kept(parts, cut, w)
    ensures forall u, w :: Edge(full, u, w) && Kept(parts, cut, w) ==> Kept(parts, cut, u)
    ensures forall x :: x in graph <==> Kept(parts, cut, x) || (x in full && ComesBack(full, Concat(parts[cut..]), x))
  {
    var gone := Concat(parts[cut..]);
    forall x ensures (x in gone <==> x in full && !Kept(parts, cut, x)) && (Kept(parts, cut, x) ==> x in full) {
      KeptOrGone(full, parts, cut, x);
    }
    forall x | ComesBack(full, gone, x) ensures x in gone {}
    forall u, w | Edge(full, u, w) && Kept(parts, cut, w) ensures Kept(parts, cut, u) {
      var i :| 0 <= i < cut && w in parts[i];
      var j :| 0 <= j < |parts| && u in parts[j];
    }
    forall u, w ensures Edge(graph, u, w) <==> Edge(full, u, w) && Kept(parts, cut, u) && Kept(parts, cut, w) {
      PrunedEdge(full, gone, graph, u, w);
    }
  }

  lemma PrunedEdge(full: Graph, gone: seq<Tx>, graph: Graph, u: Tx, w: Tx)
    requires Removed(full, gone, graph)
    ensures Edge(graph, u, w) <==> Edge(full, u, w) && u !in gone && w !in gone
  {
  }

  // ---------------------------------------------------------------- batch-order fairness

  ghost function ContainingBoth(lists: seq<seq<Tx>>, a: Tx, b: Tx): set<nat> {
    Containing(lists, a) * Containing(lists, b)
  }

  /** A list that contains both puts one of them first. */
  lemma OneIsFirst(lists: seq<seq<Tx>>, a: Tx, b: Tx)
    requires DupFree(lists) && a != b
    ensures |ContainingBoth(lists, a, b)| <= |Preferring(lists, a, b)| + |Preferring(lists, b, a)|
  {
    var both, ab, ba := ContainingBoth(lists, a, b), Preferring(lists, a, b), Preferring(lists, b, a);
    forall i | i in both ensures i in ab + ba {
      var j :| 0 <= j < |lists[i]| && lists[i][j] == a;
      var k :| 0 <= k < |lists[i]| && lists[i][k] == b;
      assert j < k ==> Precedes(lists[i], a, b);
      assert k < j ==> Precedes(lists[i], b, a);
    }
    FewerOf(both, ab + ba);
    assert ab + ba == ab + (ba - ab);
    FewerOf(ba - ab, ba);
  }

  /** The hypotheses of batch-order fairness. */
  ghost predicate MostPutFirst(lists: seq<seq<Tx>>, cfg: Config, a: Tx, b: Tx)
    requires cfg.Valid()
  {
    && Sane(lists) && a != b
    && |ContainingBoth(lists, a, b)| >= cfg.nmajority
    && |Preferring(lists, b, a)| as real <= cfg.n as real * (1.0 - cfg.gamma) + cfg.Faulty() as real
  }

  /** What the system must satisfy for fairness. */
  ghost predicate EnoughReplicas(cfg: Config)
    requires cfg.Valid()
  {
    cfg.n as real * (2.0 * cfg.gamma - 1.0) >= 3.0 * cfg.Faulty() as real + 1.0
  }

  /** The number of faults that the start-up code tolerates leaves enough replicas, once it tolerates
      one. */
  lemma ToleratedIsEnough(cfg: Config)
    requires cfg.n > 0 && 0.5 <= cfg.gamma <= 1.0 && cfg.nmajority == cfg.n - ToleratedFaults(cfg.n, cfg.gamma)
    requires ToleratedFaults(cfg.n, cfg.gamma) >= 1
    ensures cfg.Valid() && EnoughReplicas(cfg)
  {
    var f, m := ToleratedFaults(cfg.n, cfg.gamma), 2.0 * cfg.gamma - 1.0;
    assert 4.0 * f as real <= (cfg.n - 1) as real * m;
    assert cfg.n as real * m == (cfg.n - 1) as real * m + m;
  }

  /** Batch-order fairness: `a` before `b`, never `b` before `a`, and no component with `b` precedes
      the one with `a`. */
  lemma BatchOrderFairness(lists: seq<seq<Tx>>, cfg: Config, a: Tx, b: Tx, full: Graph, parts: seq<seq<Tx>>)
    requires cfg.Valid() && EnoughReplicas(cfg) && MostPutFirst(lists, cfg, a, b) && 0.0 <= cfg.gamma <= 1.0
    requires IsProposalGraph(lists, cfg, full) && IsCondensation(full, parts)
    ensures Edge(full, a, b) && !Edge(full, b, a)
    ensures forall i, j :: 0 <= i < |parts| && 0 <= j < |parts| && a in parts[i] && b in parts[j] ==> i <= j
    ensures forall cut :: 0 <= cut <= |parts| && Kept(parts, cut, b) ==> Kept(parts, cut, a)
  {
    OneIsFirst(lists, a, b);
    WeighsMeaning(lists, cfg, a, b);
    WeighsMeaning(lists, cfg, b, a);
    ProposalShape(lists, cfg, full);
    assert Edge(full, a, b) by { FirstWeighs(lists, cfg, a, b); }
    forall cut | 0 <= cut <= |parts| && Kept(parts, cut, b) ensures Kept(parts, cut, a) {
      var j :| 0 <= j < cut && b in parts[j];
      var i :| 0 <= i < |parts| && a in parts[i];
    }
  }

  /** The same for the proposal that leaves `fair_propose`: `a` comes before `b`, or `b` was removed and
      has no edges at all. */
  lemma ProposalFair(lists: seq<seq<Tx>>, cfg: Config, a: Tx, b: Tx, graph: Graph)
    requires cfg.Valid() && EnoughReplicas(cfg) && MostPutFirst(lists, cfg, a, b) && 0.0 <= cfg.gamma <= 1.0
    requires IsProposal(lists, cfg, graph)
    ensures !Edge(graph, b, a)
    ensures Edge(graph, a, b) || forall u :: !Edge(graph, u, b) && !Edge(graph, b, u)
    ensures forall u, w :: Edge(graph, u, w) ==> Weighs(lists, cfg, u, w) && !Edge(graph, w, u)
  {
    var full, parts, cut :| IsPruned(lists, cfg, full, parts, cut, graph);
    ProposalShape(lists, cfg, full);
    BatchOrderFairness(lists, cfg, a, b, full, parts);
    PrunedGraph(full, parts, cut, graph);
    if Kept(parts, cut, b) { assert Kept(parts, cut, a); }
  }

  lemma FirstWeighs(lists: seq<seq<Tx>>, cfg: Config, a: Tx, b: Tx)
    requires cfg.Valid() && EnoughReplicas(cfg) && MostPutFirst(lists, cfg, a, b) && 0.0 <= cfg.gamma <= 1.0
    ensures Weighs(lists, cfg, a, b) && !Weighs(lists, cfg, b, a)
  {
    var ab, ba := |Preferring(lists, a, b)|, |Preferring(lists, b, a)|;
    OneIsFirst(lists, a, b);
    assert ab + ba >= cfg.nmajority;
    EdgeIsReached(cfg, ab, ba);
    AgainstNonNegative(cfg);
    WeighsMeaning(lists, cfg, a, b);
    WeighsMeaning(lists, cfg, b, a);
  }

  /** So many lists in favour of a pair, given how few may be against it. */
  lemma EdgeIsReached(cfg: Config, ab: nat, ba: nat)
    requires cfg.Valid() && EnoughReplicas(cfg) && ab + ba >= cfg.nmajority
    requires ba as real <= cfg.n as real * (1.0 - cfg.gamma) + cfg.Faulty() as real
    ensures ba as real < cfg.EdgeThreshold() <= ab as real
  {
    assert cfg.nmajority as real == cfg.n as real - cfg.Faulty() as real;
    assert ab as real + ba as real >= cfg.nmajority as real;
    FairSum(cfg.n as real, cfg.Faulty() as real, cfg.gamma, ab as real, ba as real);
  }

  lemma FairSum(n: real, f: real, g: real, ab: real, ba: real)
    requires n * (2.0 * g - 1.0) >= 3.0 * f + 1.0 && ab + ba >= n - f && ba <= n * (1.0 - g) + f
    ensures ab >= n * (1.0 - g) + f + 1.0
  {
    assert n * (2.0 * g - 1.0) == 2.0 * (n * g) - n;
    assert n * (1.0 - g) == n - n * g;
  }

  /** As many lists put `b` first as the hypotheses allow. */
  function MostAgainst(cfg: Config): int
    requires cfg.nmajority <= cfg.n
  {
    (cfg.n as real * (1.0 - cfg.gamma) + cfg.Faulty() as real).Floor
  }

  /** With rounding taken into account, exactly these systems are fair to every pair. */
  ghost predicate ExactlyEnough(cfg: Config)
    requires cfg.Valid()
  {
    (cfg.nmajority - MostAgainst(cfg)) as real >= cfg.EdgeThreshold()
  }

  lemma FairnessExact(cfg: Config, a: Tx, b: Tx)
    requires cfg.Valid() && a != b && 0.0 <= cfg.gamma <= 1.0 && cfg.n < WRAP
    ensures (forall lists :: MostPutFirst(lists, cfg, a, b) ==> Weighs(lists, cfg, a, b)) <==> ExactlyEnough(cfg)
  {
    if ExactlyEnough(cfg) {
      forall lists | MostPutFirst(lists, cfg, a, b) ensures Weighs(lists, cfg, a, b) { FairWhenEnough(lists, cfg, a, b); }
    } else {
      var lists := WorstLists(cfg, a, b);
      WeighsMeaning(lists, cfg, a, b);
    }
  }

  lemma AgainstNonNegative(cfg: Config)
    requires cfg.Valid() && cfg.gamma <= 1.0
    ensures 0 <= MostAgainst(cfg) && cfg.EdgeThreshold() >= 1.0
  {
    assert cfg.n as real * (1.0 - cfg.gamma) >= 0.0;
  }

  lemma FairWhenEnough(lists: seq<seq<Tx>>, cfg: Config, a: Tx, b: Tx)
    requires cfg.Valid() && cfg.gamma <= 1.0 && ExactlyEnough(cfg) && MostPutFirst(lists, cfg, a, b)
    ensures Weighs(lists, cfg, a, b)
  {
    AgainstNonNegative(cfg);
    OneIsFirst(lists, a, b);
    WeighsMeaning(lists, cfg, a, b);
    assert |Preferring(lists, b, a)| <= MostAgainst(cfg);
    assert |Preferring(lists, a, b)| >= cfg.nmajority - MostAgainst(cfg);
  }

  /** The lists of `m` replicas, the first `against` of which put `b` first. */
  function Divided(m: nat, against: nat, a: Tx, b: Tx): seq<seq<Tx>> {
    seq(m, i requires 0 <= i < m => if i < against then [b, a] else [a, b])
  }

  lemma DividedAt(m: nat, against: nat, a: Tx, b: Tx, i: nat)
    requires a != b && i < m
    ensures var list := Divided(m, against, a, b)[i];
            && Distinct(list) && a in list && b in list
            && (Precedes(list, a, b) <==> i >= against) && (Precedes(list, b, a) <==> i < against)
  {
    var list := Divided(m, against, a, b)[i];
    assert list[0] == (if i < against then b else a) && list[1] == (if i < against then a else b);
  }

  lemma DividedCounts(m: nat, against: nat, a: Tx, b: Tx)
    requires a != b && against <= m
    ensures var lists := Divided(m, against, a, b);
            && DupFree(lists) && |ContainingBoth(lists, a, b)| == m
            && |Preferring(lists, b, a)| == against && |Preferring(lists, a, b)| == m - against
  {
    var lists := Divided(m, against, a, b);
    forall i | 0 <= i < m
      ensures Distinct(lists[i]) && a in lists[i] && b in lists[i]
      ensures (Precedes(lists[i], a, b) <==> i >= against) && (Precedes(lists[i], b, a) <==> i < against)
    {
      DividedAt(m, against, a, b, i);
    }
    assert ContainingBoth(lists, a, b) == Range(0, m);
    assert Preferring(lists, b, a) == Range(0, against);
    assert Preferring(lists, a, b) == Range(against, m);
  }

  lemma WorstLists(cfg: Config, a: Tx, b: Tx) returns (lists: seq<seq<Tx>>)
    requires cfg.Valid() && a != b && 0.0 <= cfg.gamma <= 1.0 && cfg.n < WRAP && !ExactlyEnough(cfg)
    ensures MostPutFirst(lists, cfg, a, b)
    ensures |Preferring(lists, a, b)| as real < cfg.EdgeThreshold()
  {
    AgainstNonNegative(cfg);
    var against := if MostAgainst(cfg) < cfg.nmajority then MostAgainst(cfg) else cfg.nmajority;
    lists := Divided(cfg.nmajority, against, a, b);
    DividedCounts(cfg.nmajority, against, a, b);
  }

  ghost function Range(lo: nat, hi: nat): (r: set<nat>)
    requires lo <= hi
    ensures forall i :: i in r <==> lo <= i < hi
    ensures |r| == hi - lo
    decreases hi - lo
  {
    if lo == hi then {} else Range(lo, hi - 1) + {hi - 1}
  }

  /** Enough replicas for the hypotheses' sake are enough also when counts are rounded. */
  lemma EnoughIsExactlyEnough(cfg: Config)
    requires cfg.Valid() && cfg.gamma <= 1.0 && EnoughReplicas(cfg)
    ensures ExactlyEnough(cfg)
  {
    var n, f, g := cfg.n as real, cfg.Faulty() as real, cfg.gamma;
    assert cfg.nmajority as real == n - f;
    assert n * (2.0 * g - 1.0) == 2.0 * (n * g) - n;
    assert n * (1.0 - g) == n - n * g;
    assert MostAgainst(cfg) as real <= n * (1.0 - g) + f;
  }

  /** A single replica that tolerates no fault is not enough: its own order adds no edge. */
  lemma SingleReplicaNotEnough()
    ensures ToleratedFaults(1, 0.75) == 0 && !ExactlyEnough(Config(1, 1, 0.75))
  {
    assert MostAgainst(Config(1, 1, 0.75)) == 0;
  }

  /** The counters have 16 bits: a transaction in `k` lists, of however many, is not blank exactly if the
      remainder of `k` by 65536 reaches the threshold. At 65536 lists that all contain it, it counts as blank. */
  lemma CountersWrap(lists: seq<seq<Tx>>, cfg: Config, x: Tx)
    requires cfg.Valid() && DupFree(lists)
    ensures var k := |Containing(lists, x)|;
            && (NonBlank(lists, cfg, x) <==> k > 0 && (k % WRAP) as real >= cfg.NonBlankThreshold())
            && (Solid(lists, cfg, x) <==> k > 0 && (k % WRAP) as real >= cfg.SolidThreshold())
            && (k == WRAP && cfg.NonBlankThreshold() > 0.0 ==> !NonBlank(lists, cfg, x))
  {
    MentionsCount(lists, x);
  }

  // ---------------------------------------------------------------- fair_update

  /** How many times the replicas reported the edge. */
  ghost function Reports(updates: seq<seq<(Tx, Tx)>>, a: Tx, b: Tx): nat {
    if updates == [] then 0 else Reports(updates[..|updates| - 1], a, b) + multiset(updates[|updates| - 1])[(a, b)]
  }

  ghost predicate ReportsWeigh(updates: seq<seq<(Tx, Tx)>>, cfg: Config, a: Tx, b: Tx)
    requires cfg.Valid()
  {
    Reports(updates, a, b) > 0 && (Reports(updates, a, b) % WRAP) as real >= cfg.EdgeThreshold()
  }

  method CountUpdates(updates: seq<seq<(Tx, Tx)>>) returns (edges: EdgeCount)
    ensures forall a, b :: Counted(Row(edges, a), b, Reports(updates, a, b))
  {
    edges := map[];
    for i := 0 to |updates|
      invariant forall a, b :: Counted(Row(edges, a), b, Reports(updates[..i], a, b))
    {
      assert updates[..i + 1][..i] == updates[..i];
      StartUpdate(edges, updates[..i], updates[i]);
      edges := CountUpdate(edges, updates[i], updates[..i]);
      EndUpdate(edges, updates[..i], updates[i]);
    }
    assert updates[..|updates|] == updates;
  }

  /** Counted so far: the lists done and the first `k` edges of the next one. */
  ghost predicate UpdatesCounted(edges: EdgeCount, done: seq<seq<(Tx, Tx)>>, list: seq<(Tx, Tx)>, k: nat)
    requires k <= |list|
  {
    forall a, b :: UpdateCounted(edges, done, list, k, a, b)
  }

  ghost predicate UpdateCounted(edges: EdgeCount, done: seq<seq<(Tx, Tx)>>, list: seq<(Tx, Tx)>, k: nat, a: Tx, b: Tx)
    requires k <= |list|
  {
    Counted(Row(edges, a), b, Reports(done, a, b) + multiset(list[..k])[(a, b)])
  }

  lemma StartUpdate(edges: EdgeCount, done: seq<seq<(Tx, Tx)>>, list: seq<(Tx, Tx)>)
    requires forall a, b :: Counted(Row(edges, a), b, Reports(done, a, b))
    ensures UpdatesCounted(edges, done, list, 0)
  {
    forall a, b ensures UpdateCounted(edges, done, list, 0, a, b) { assert Counted(Row(edges, a), b, Reports(done, a, b)); }
  }

  lemma EndUpdate(edges: EdgeCount, done: seq<seq<(Tx, Tx)>>, list: seq<(Tx, Tx)>)
    requires UpdatesCounted(edges, done, list, |list|)
    ensures forall a, b :: Counted(Row(edges, a), b, Reports(done, a, b) + multiset(list)[(a, b)])
  {
    assert list[..|list|] == list;
    forall a, b ensures Counted(Row(edges, a), b, Reports(done, a, b) + multiset(list)[(a, b)]) {
      assert UpdateCounted(edges, done, list, |list|, a, b);
    }
  }

  lemma UpdateStep(edges: EdgeCount, done: seq<seq<(Tx, Tx)>>, list: seq<(Tx, Tx)>, k: nat)
    requires k < |list| && UpdatesCounted(edges, done, list, k)
    ensures UpdatesCounted(IncrementEdge(edges, list[k]), done, list, k + 1)
  {
    var after, next := IncrementEdge(edges, list[k]), k + 1;
    forall a, b ensures UpdateCounted(after, done, list, next, a, b) {
      OneUpdate(edges, done, list, k, a, b);
    }
  }

  lemma OneUpdate(edges: EdgeCount, done: seq<seq<(Tx, Tx)>>, list: seq<(Tx, Tx)>, k: nat, a: Tx, b: Tx)
    requires k < |list| && UpdateCounted(edges, done, list, k, a, b)
    ensures UpdateCounted(IncrementEdge(edges, list[k]), done, list, k + 1, a, b)
  {
    PrefixCount(list, k, (a, b));
    IncrementEdgeCounts(edges, list[k], a, b, Reports(done, a, b) + multiset(list[..k])[(a, b)]);
  }

  method CountUpdate(before: EdgeCount, list: seq<(Tx, Tx)>, ghost done: seq<seq<(Tx, Tx)>>) returns (edges: EdgeCount)
    requires UpdatesCounted(before, done, list, 0)
    ensures UpdatesCounted(edges, done, list, |list|)
  {
    edges := before;
    for k := 0 to |list|
      invariant UpdatesCounted(edges, done, list, k)
    {
      UpdateStep(edges, done, list, k);
      edges := IncrementEdge(edges, list[k]);
    }
  }

  function IncrementEdge(edges: EdgeCount, e: (Tx, Tx)): EdgeCount {
    edges[e.0 := Increment(Row(edges, e.0), e.1)]
  }

  lemma IncrementEdgeCounts(edges: EdgeCount, e: (Tx, Tx), a: Tx, b: Tx, count: nat)
    requires Counted(Row(edges, a), b, count)
    ensures Counted(Row(IncrementEdge(edges, e), a), b, if e == (a, b) then count + 1 else count)
  {
    if a == e.0 { IncrementCounts(Row(edges, a), e.1, b, count); }
  }

  lemma PrefixCount(list: seq<(Tx, Tx)>, k: nat, e: (Tx, Tx))
    requires k < |list|
    ensures multiset(list[..k + 1])[e] == multiset(list[..k])[e] + if e == list[k] then 1 else 0
  {
    assert list[..k + 1] == list[..k] + [list[k]];
  }

  /** The edges that enough replicas reported, once each, and never a pair in both directions. */
  method FairUpdate(updates: seq<seq<(Tx, Tx)>>, cfg: Config) returns (update: seq<(Tx, Tx)>)
    requires cfg.Valid()
    ensures forall a: Tx, b: Tx :: (a, b) in update ==> ReportsWeigh(updates, cfg, a, b)
    ensures forall a: Tx, b: Tx :: ReportsWeigh(updates, cfg, a, b) ==> (a, b) in update || (b, a) in update
    ensures forall a: Tx, b: Tx :: (a, b) in update && (b, a) in update ==> a == b
    ensures Distinct(update)
  {
    var edges := CountUpdates(updates);
    var g := AddEdges(map[], edges, cfg.EdgeThreshold());
    forall a, b ensures Heavy(edges, cfg.EdgeThreshold(), a, b) <==> ReportsWeigh(updates, cfg, a, b) {
      assert Counted(Row(edges, a), b, Reports(updates, a, b));
    }
    assert forall a: Tx, b: Tx :: Heavy(edges, cfg.EdgeThreshold(), a, b) ==> (a, b) in CountedPairs(edges, edges.Keys);
    update := ListEdges(g);
  }

  method ListEdges(g: Graph) returns (list: seq<(Tx, Tx)>)
    ensures forall a: Tx, b: Tx :: (a, b) in list <==> Edge(g, a, b)
    ensures Distinct(list)
  {
    list := [];
    var froms := g.Keys;
    while froms != {}
      invariant froms <= g.Keys && Distinct(list)
      invariant forall a: Tx, b: Tx :: (a, b) in list <==> Edge(g, a, b) && a !in froms
    {
      var from :| from in froms;
      var row := ListRow(from, g[from]);
      list := list + row;
      froms := froms - {from};
    }
  }

  method ListRow(from: Tx, tos: set<Tx>) returns (list: seq<(Tx, Tx)>)
    ensures forall e :: e in list <==> e.0 == from && e.1 in tos
    ensures Distinct(list)
  {
    list := [];
    var rest := tos;
    while rest != {}
      invariant rest <= tos && Distinct(list)
      invariant forall e :: e in list <==> e.0 == from && e.1 in tos - rest
    {
      var to :| to in rest;
      list := list + [(from, to)];
      rest := rest - {to};
    }
  }
}
