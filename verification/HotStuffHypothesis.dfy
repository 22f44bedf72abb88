/** Exactly when agreement depends on the hypothesis that certificates refer to their own chain. */
module HotStuffHypothesis {
  import opened BlockTree
  import opened Consensus
  import opened HotStuff
  import opened HotStuffTheorems
  import opened HotStuffBreach

  ghost predicate LogsComparable(run: seq<System>, i: nat, p: ReplicaId, j: nat, q: ReplicaId)
    requires i < |run| && j < |run| && p in run[i].replicas && q in run[j].replicas
  {
    var lp, lq := run[i].replicas[p].core.log, run[j].replicas[q].core.log;
    lp <= lq || lq <= lp
  }

  /** The logs of any two correct replicas, each taken at any moment, are prefixes of one another. */
  ghost predicate AllComparable(run: seq<System>) {
    forall i: nat, p: ReplicaId, j: nat, q: ReplicaId ::
      i < |run| && j < |run| && p in run[i].replicas && q in run[j].replicas ==> LogsComparable(run, i, p, j, q)
  }

  /** Agreement in all runs in which any block that verifies may be created. */
  ghost predicate AlwaysAgrees(v: Variant) {
    forall cfg: Config, run: seq<System> :: cfg.Valid() && cfg.v == v && IsLooseRun(cfg, run) ==> AllComparable(run)
  }

  lemma LooseIsNext(cfg: Config, s: System, s': System)
    requires cfg.Valid() && cfg.v.twoStep && LooseNext(cfg, s, s')
    ensures Next(cfg, s, s')
  {
    var step :| LooseStep(cfg, s, s', step);
    assert NextStep(cfg, s, s', step);
  }

  /** In the two-step protocol the hypothesis excludes no run. */
  lemma LooseRunIsRun(cfg: Config, run: seq<System>)
    requires cfg.Valid() && cfg.v.twoStep && IsLooseRun(cfg, run)
    ensures IsRun(cfg, run)
  {
    forall i | 0 <= i < |run| - 1 ensures Next(cfg, run[i], run[i + 1]) {
      LooseIsNext(cfg, run[i], run[i + 1]);
    }
  }

  lemma TwoStepAgrees(cfg: Config, run: seq<System>)
    requires cfg.Valid() && cfg.v.twoStep && IsLooseRun(cfg, run)
    ensures AllComparable(run)
  {
    LooseRunIsRun(cfg, run);
    forall i: nat, p: ReplicaId, j: nat, q: ReplicaId
      | i < |run| && j < |run| && p in run[i].replicas && q in run[j].replicas
      ensures LogsComparable(run, i, p, j, q)
    {
      Agreed(cfg, run, i, p, j, q);
    }
  }

  lemma NotPrefixes(a: seq<BlockId>, b: seq<BlockId>)
    requires a == [1] && b == [4, 5, 6, 7]
    ensures !(a <= b) && !(b <= a)
  {
    assert a[0] != b[0];
  }

  lemma DifferentLogs(run: seq<System>, i: nat, p: ReplicaId, q: ReplicaId)
    requires i < |run| && p in run[i].replicas && q in run[i].replicas
    requires run[i].replicas[p].core.log == [1] && run[i].replicas[q].core.log == [4, 5, 6, 7]
    ensures !AllComparable(run)
  {
    NotPrefixes(run[i].replicas[p].core.log, run[i].replicas[q].core.log);
    assert !LogsComparable(run, i, p, i, q);
  }

  lemma BreachDisagrees(voteFirst: bool) returns (run: seq<System>)
    ensures Four(voteFirst).Valid() && IsLooseRun(Four(voteFirst), run) && !AllComparable(run)
  {
    run := BreachLogs(voteFirst);
    DifferentLogs(run, |run| - 1, 0, 2);
  }

  lemma BreachLogs(voteFirst: bool) returns (run: seq<System>)
    ensures Four(voteFirst).Valid() && IsLooseRun(Four(voteFirst), run)
    ensures 0 in run[|run| - 1].replicas && run[|run| - 1].replicas[0].core.log == [1]
    ensures 2 in run[|run| - 1].replicas && run[|run| - 1].replicas[2].core.log == [4, 5, 6, 7]
  {
    run := HypothesisNeeded(voteFirst);
  }

  lemma ThreeStepDisagrees(v: Variant)
    requires !v.twoStep
    ensures !AlwaysAgrees(v)
  {
    var run := BreachDisagrees(v.voteFirst);
    assert Four(v.voteFirst).v == v;
  }

  /** Without the hypothesis on certificates the protocol agrees in all its runs exactly if it is
      compiled as the two-step one. */
  lemma AgreesExactlyInTwoSteps(v: Variant)
    ensures AlwaysAgrees(v) <==> v.twoStep
  {
    if v.twoStep {
      forall cfg: Config, run: seq<System> | cfg.Valid() && cfg.v == v && IsLooseRun(cfg, run) ensures AllComparable(run) {
        TwoStepAgrees(cfg, run);
      }
    } else {
      ThreeStepDisagrees(v);
    }
  }
}
