/** What Themis' thresholds mean for the lists: which transactions are not blank or solid, which pairs get an
    edge, and that what nearly all replicas report is proposed. */
module FairThresholds {
  import opened Graphs
  import opened Condensation
  import opened LocalOrders
  import opened Sequences
  import opened FairProposal
  import opened FairOrdering
  import opened Pruning

  /** The thresholds in the numbers of replicas and faults and in gamma, for lists without repetitions. */
  lemma ThresholdsExactly(lists: seq<seq<Tx>>, cfg: Config, x: Tx, y: Tx)
    requires cfg.Valid() && Sane(lists)
    ensures var n, f := cfg.n as real, (cfg.n - cfg.nmajority) as real;
            var count, before := |Containing(lists, x)|, |Preferring(lists, x, y)|;
            && (Solid(lists, cfg, x) <==> count > 0 && count as real >= n - 2.0 * f)
            && (NonBlank(lists, cfg, x) <==>
                  count > 0 && (count as real >= n - 2.0 * f || count as real >= n * (1.0 - cfg.gamma) + f + 1.0))
            && (Weighs(lists, cfg, x, y) <==> before > 0 && before as real >= n * (1.0 - cfg.gamma) + f + 1.0)
  {
    ThresholdValues(cfg);
    CountsUnwrapped(lists, x, y);
  }

  lemma ThresholdValues(cfg: Config)
    requires cfg.Valid()
    ensures var n, f := cfg.n as real, (cfg.n - cfg.nmajority) as real;
            && cfg.SolidThreshold() == n - 2.0 * f && cfg.EdgeThreshold() == n * (1.0 - cfg.gamma) + f + 1.0
            && (cfg.NonBlankThreshold() == cfg.SolidThreshold() || cfg.NonBlankThreshold() == cfg.EdgeThreshold())
            && cfg.NonBlankThreshold() <= cfg.SolidThreshold() && cfg.NonBlankThreshold() <= cfg.EdgeThreshold()
  {
  }

  lemma CountsUnwrapped(lists: seq<seq<Tx>>, x: Tx, y: Tx)
    requires Sane(lists)
    ensures Mentions(lists, x) == Mentions(lists, x) % WRAP == |Containing(lists, x)|
    ensures Votes(lists, x, y) == Votes(lists, x, y) % WRAP == |Preferring(lists, x, y)|
  {
    MentionsCount(lists, x);
    VotesCount(lists, x, y);
    UnwrappedCount(Mentions(lists, x), Containing(lists, x));
    UnwrappedCount(Votes(lists, x, y), Preferring(lists, x, y));
  }

  /** Edges are listed in an update by as many reports as the proposal needs lists. */
  lemma ReportsExactly(updates: seq<seq<(Tx, Tx)>>, cfg: Config, a: Tx, b: Tx)
    requires cfg.Valid() && Reports(updates, a, b) < WRAP
    ensures var n, f, count := cfg.n as real, (cfg.n - cfg.nmajority) as real, Reports(updates, a, b);
            ReportsWeigh(updates, cfg, a, b) <==> count > 0 && count as real >= n * (1.0 - cfg.gamma) + f + 1.0
  {
    ThresholdValues(cfg);
    SmallCount(Reports(updates, a, b));
  }

  lemma SmallCount(count: nat)
    requires count < WRAP
    ensures count % WRAP == count
  {
  }

  /** The start-up code tolerates the greatest number of faults that is at most (n - 1)(2 gamma - 1) / 4. */
  lemma ToleratedExactly(n: nat, gamma: real)
    requires n > 0 && gamma >= 0.5
    ensures var f, bound := ToleratedFaults(n, gamma), (n - 1) as real * (2.0 * gamma - 1.0);
            4.0 * f as real <= bound < 4.0 * f as real + 4.0
  {
    var bound := (n - 1) as real * (2.0 * gamma - 1.0);
    assert ToleratedFaults(n, gamma) as real <= bound / 4.0 < ToleratedFaults(n, gamma) as real + 1.0;
  }

  /** The lists without `x`. */
  ghost function Lacking(lists: seq<seq<Tx>>, x: Tx): set<nat> {
    set i | 0 <= i < |lists| && x !in lists[i]
  }

  /** Some replica reported it and no more than the faulty ones may have left it out. */
  ghost predicate WidelyReported(lists: seq<seq<Tx>>, cfg: Config, x: Tx) {
    Containing(lists, x) != {} && |Lacking(lists, x)| <= cfg.n - cfg.nmajority
  }

  lemma ContainOrLack(lists: seq<seq<Tx>>, x: Tx)
    ensures |Containing(lists, x)| + |Lacking(lists, x)| == |lists|
  {
    assert Containing(lists, x) + Lacking(lists, x) == Range(0, |lists|);
  }

  /** With n - f lists or more, a transaction that at most f of them lack is solid; with n - f of them, none
      that more lack is. */
  lemma SolidExactly(lists: seq<seq<Tx>>, cfg: Config, x: Tx)
    requires cfg.Valid() && Sane(lists) && |lists| >= cfg.nmajority
    ensures WidelyReported(lists, cfg, x) ==> Solid(lists, cfg, x)
    ensures |lists| == cfg.nmajority ==> (Solid(lists, cfg, x) <==> WidelyReported(lists, cfg, x))
    ensures cfg.nmajority > cfg.n - cfg.nmajority && |Lacking(lists, x)| <= cfg.n - cfg.nmajority ==> Solid(lists, cfg, x)
  {
    ContainOrLack(lists, x);
    ThresholdsExactly(lists, cfg, x, x);
    var f := cfg.n - cfg.nmajority;
    assert cfg.n as real - 2.0 * f as real == (cfg.nmajority - f) as real;
  }

  /** What is widely reported is proposed, whatever the order of the components, if the components that it
      does not reach hold such transactions too. */
  lemma WidelyReportedProposed(lists: seq<seq<Tx>>, cfg: Config, x: Tx, graph: Graph)
    requires cfg.Valid() && Sane(lists) && |lists| >= cfg.nmajority && WidelyReported(lists, cfg, x)
    requires IsProposal(lists, cfg, graph)
    requires forall full :: IsProposalGraph(lists, cfg, full) ==>
               forall y :: y in full && !Reach(full, x, y) ==> exists z :: z in full && WidelyReported(lists, cfg, z) && Mutual(full, y, z)
    ensures x in graph
  {
    var full, parts, cut :| IsPruned(lists, cfg, full, parts, cut, graph);
    var solid := set u | u in full && Solid(lists, cfg, u);
    SolidExactly(lists, cfg, x);
    ThresholdsExactly(lists, cfg, x, x);
    assert NonBlank(lists, cfg, x) && x in full;
    ProposalShape(lists, cfg, full);
    forall y | y in full && !Reach(full, x, y) ensures SolidComponent(full, solid, y) {
      var z :| z in full && WidelyReported(lists, cfg, z) && Mutual(full, y, z);
      SolidExactly(lists, cfg, z);
    }
    KeptForSure(full, solid, x, parts, cut);
    PrunedGraph(full, parts, cut, graph);
  }
}
