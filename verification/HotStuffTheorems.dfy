/** The safety theorems of HotStuff, over whole runs. */
module HotStuffTheorems {
  import opened BlockTree
  import opened Sequences
  import opened Consensus
  import opened HotStuff
  import opened HotStuffRuns
  import opened HotStuffVoting
  import opened HotStuffSafety

  lemma StepKeepsInv(cfg: Config, s: System, s': System, step: Step)
    requires cfg.Valid() && Inv(cfg, s) && Sane(s) && NextStep(cfg, s, s', step)
    ensures Inv(cfg, s')
  {
    match step
    case Forge(b, blk) => ForgeStep(cfg, s, b, blk);
    case ForgeVote(r, b) => ForgeVoteStep(cfg, s, r, b);
    case Deliver(r, b) => DeliverStep(cfg, s, s', r, b);
    case HandleProposal(r, b) => ProposalStep(cfg, s, s', r, b);
    case HandleVote(r, voter, b) => ReceiveVoteStep(cfg, s, s', r, voter, b);
    case MakeProposal(r, b, cmds) => ProposeStep(cfg, s, s', r, b, cmds);
    case SetVoteDisabled(r, flag) => ToggleStep(cfg, s, s', r, flag);
  }

  /** `Sane` only makes the handlers applicable; `RunInv` shows that it excludes no run. */
  ghost predicate Next(cfg: Config, s: System, s': System)
    requires cfg.Valid()
  {
    Sane(s) && exists step :: NextStep(cfg, s, s', step)
  }

  ghost predicate IsRun(cfg: Config, run: seq<System>)
    requires cfg.Valid()
  {
    && |run| > 0 && Init(cfg, run[0])
    && forall i :: 0 <= i < |run| - 1 ==> Next(cfg, run[i], run[i + 1])
  }

  lemma {:induction false} RunInv(cfg: Config, run: seq<System>, i: nat)
    requires cfg.Valid() && IsRun(cfg, run) && i < |run|
    ensures Inv(cfg, run[i]) && Sane(run[i])
  {
    if i == 0 {
      InitInv(cfg, run[0]);
    } else {
      RunInv(cfg, run, i - 1);
      assert Next(cfg, run[i - 1], run[i - 1 + 1]);
      var step :| NextStep(cfg, run[i - 1], run[i], step);
      StepKeepsInv(cfg, run[i - 1], run[i], step);
    }
    InvImpliesSane(cfg, run[i]);
  }

  // ---------------------------------------------------------------- logs

  /** What `update` leaves alone: the log is at most extended, the certified block is not replaced by
      a lower one, no vote is cast or collected. */
  ghost predicate Extends(c: Core, o: Outcome)
    requires c.Valid()
  {
    && c.log <= o.core.log && o.core.vheight == c.vheight && !o.vote && o.core.voted == c.voted
    && o.core.nmajority == c.nmajority && o.core.tree == c.tree
    && o.core.hqc in c.tree && c.Height(c.hqc) <= c.Height(o.core.hqc)
  }

  lemma LockAndCommitExtends(c: Core, mid: BlockId, direct: bool)
    requires c.Valid() && mid in c.tree && mid != GENESIS
    ensures Extends(c, LockAndCommit(c, mid, direct))
  {
    LockAndCommitUnfold(c, mid, direct);
  }

  lemma BelowTopExtends(v: Variant, c: Core, top: BlockId)
    requires c.Valid() && top in c.tree && top != GENESIS
    ensures Extends(c, BelowTop(v, c, top))
  {
    if v.twoStep {
      LockAndCommitExtends(c, top, true);
    } else if QcRef(c.tree, top).Some? && QcRef(c.tree, top).value !in c.decided {
      var mid := QcRef(c.tree, top).value;
      LockAndCommitExtends(c, mid, Parent(c.tree, top) == mid);
    }
  }

  lemma UpdateExtends(v: Variant, c: Core, b: BlockId)
    requires c.Valid() && b in c.tree
    ensures Extends(c, Update(v, c, b))
  {
    if QcRef(c.tree, b).Some? && QcRef(c.tree, b).value !in c.decided {
      var top := QcRef(c.tree, b).value;
      UpdateUnfold(v, c, b);
      BelowTopExtends(v, UpdateHqc(c, top, c.tree[b].qc.value), top);
    }
  }

  /** What any handler does to a core: nothing decided is undone, nothing delivered is lost, the
      certified block never falls, and only received votes are collected. */
  ghost predicate Progresses(c: Core, c': Core)
    requires c.Valid()
  {
    && c'.Valid() && c.log <= c'.log && SubTree(c.tree, c'.tree) && c'.nmajority == c.nmajority
    && c.Height(c.hqc) <= c'.Height(c'.hqc)
  }

  lemma ReceiveProposalProgresses(v: Variant, c: Core, b: BlockId)
    requires c.Valid()
    ensures var c' := ReceiveProposal(v, c, b).core; Progresses(c, c') && c'.voted == c.voted && c'.tree == c.tree
  {
    if b in c.tree {
      UpdateExtends(v, c, b);
      CastVoteUnfold(Update(v, c, b).core, b);
    }
  }

  lemma ReceiveVoteProgresses(c: Core, voter: ReplicaId, b: BlockId)
    requires c.Valid()
    ensures Progresses(c, ReceiveVote(c, voter, b).core) && ReceiveVote(c, voter, b).core.tree == c.tree
  {
    ReceiveVoteVoted(c, voter, b);
  }

  lemma ProposeProgresses(cfg: Config, s: System, r: ReplicaId, b: BlockId, cmds: seq<Cmd>)
    requires cfg.Valid() && Sane(s) && r in s.replicas && b !in s.replicas[r].core.tree
    requires SaneReplica(s.replicas[r])
    ensures var c := s.replicas[r].core;
            var c' := Propose(cfg.v, c, b, [s.replicas[r].tail], cmds).core;
            Progresses(c, c') && c'.voted == c.voted && c'.tree.Keys == c.tree.Keys + {b}
  {
    var c, tail := s.replicas[r].core, s.replicas[r].tail;
    ProposeUnfold(cfg.v, c, b, [tail], cmds);
    var c1 := DeliverBlk(c, b, NewBlock(c, [tail], cmds));
    OwnBlockProgresses(cfg.v, c1, b);
  }

  lemma OwnBlockProgresses(v: Variant, c: Core, b: BlockId)
    requires c.Valid() && b in c.tree
    ensures var c' := OwnBlock(v, c, b).core; Progresses(c, c') && c'.voted == c.voted && c'.tree == c.tree
  {
    if v.voteFirst {
      CastVoteUnfold(c, b);
      UpdateExtends(v, CastVote(c, b).core, b);
    } else {
      UpdateExtends(v, c, b);
      CastVoteUnfold(Update(v, c, b).core, b);
    }
  }

  lemma DeliverProgresses(c: Core, b: BlockId, blk: Block)
    requires c.Valid() && b !in c.tree
    requires |blk.parents| > 0 && forall p :: p in blk.parents ==> p in c.tree
    requires blk.height == c.tree[blk.parents[0]].height + 1
    ensures Progresses(c, DeliverBlk(c, b, blk))
  {
    DeliverKeepsValid(c, b, blk);
  }

  /** What every step but a received vote does. */
  ghost predicate Quiet(c: Core, c': Core)
    requires c.Valid()
  {
    Progresses(c, c') && c'.voted == c.voted
  }

  lemma SameCore(c: Core)
    requires c.Valid()
    ensures Quiet(c, c)
  {
  }

  lemma QuietProposal(cfg: Config, s: System, s': System, q: ReplicaId, b: BlockId, r: ReplicaId)
    requires Sane(s) && HandlesProposal(cfg, s, s', q, b) && r in s.replicas && s.replicas[r].core.Valid()
    ensures r in s'.replicas && Quiet(s.replicas[r].core, s'.replicas[r].core)
  {
    if q == r {
      ReceiveProposalProgresses(cfg.v, s.replicas[r].core, b);
    } else {
      SameCore(s.replicas[r].core);
    }
  }

  lemma QuietPropose(cfg: Config, s: System, s': System, q: ReplicaId, b: BlockId, cmds: seq<Cmd>, r: ReplicaId)
    requires cfg.Valid() && Sane(s) && Proposes(cfg, s, s', q, b, cmds) && r in s.replicas && SaneReplica(s.replicas[r])
    ensures r in s'.replicas && Quiet(s.replicas[r].core, s'.replicas[r].core)
  {
    if q == r {
      ProposeProgresses(cfg, s, r, b, cmds);
    } else {
      SameCore(s.replicas[r].core);
    }
  }

  lemma QuietDeliver(cfg: Config, s: System, s': System, q: ReplicaId, b: BlockId, r: ReplicaId)
    requires cfg.n > 0 && Inv(cfg, s) && Delivers(s, s', q, b) && r in s.replicas && s.replicas[r].core.Valid()
    ensures r in s'.replicas && Quiet(s.replicas[r].core, s'.replicas[r].core)
  {
    if q == r {
      assert ReplicaInv(cfg, s.net, r, s.replicas[r]);
      DeliverableHere(s.net.tree, s.replicas[r].core.tree, b);
      DeliverProgresses(s.replicas[r].core, b, s.net.tree[b]);
    } else {
      SameCore(s.replicas[r].core);
    }
  }

  lemma DeliverableHere(t: Tree, mine: Tree, b: BlockId)
    requires ValidTree(t) && SubTree(mine, t) && b in t && b != GENESIS && forall p :: p in t[b].parents ==> p in mine
    ensures |t[b].parents| > 0 && t[b].parents[0] in mine && t[b].height == mine[t[b].parents[0]].height + 1
  {
    assert HasParents(t, b);
    assert t[b].parents[0] in t[b].parents;
  }

  /** No step takes anything back from a correct replica, removes a replica, or collects a vote other
      than one received. */
  lemma StepQuiet(cfg: Config, s: System, s': System, step: Step, r: ReplicaId)
    requires cfg.Valid() && Inv(cfg, s) && Sane(s) && NextStep(cfg, s, s', step) && r in s.replicas && !step.HandleVote?
    ensures r in s'.replicas && s.replicas[r].core.Valid() && Quiet(s.replicas[r].core, s'.replicas[r].core)
  {
    assert SaneReplica(s.replicas[r]);
    if step.HandleProposal? {
      QuietProposal(cfg, s, s', step.r, step.b, r);
    } else if step.MakeProposal? {
      QuietPropose(cfg, s, s', step.r, step.b, step.cmds, r);
    } else if step.Deliver? {
      QuietDeliver(cfg, s, s', step.r, step.b, r);
    } else {
      SameCore(s.replicas[r].core);
    }
  }

  lemma StepProgresses(cfg: Config, s: System, s': System, step: Step, r: ReplicaId)
    requires cfg.Valid() && Inv(cfg, s) && Sane(s) && NextStep(cfg, s, s', step) && r in s.replicas
    ensures r in s'.replicas && s.replicas[r].core.Valid() && Progresses(s.replicas[r].core, s'.replicas[r].core)
  {
    assert SaneReplica(s.replicas[r]);
    if step.HandleVote? {
      ReceiveVoteProgresses(s.replicas[r].core, step.voter, step.b);
      SameCore(s.replicas[r].core);
    } else {
      StepQuiet(cfg, s, s', step, r);
    }
  }

  lemma ProgressTransitive(c0: Core, c1: Core, c2: Core)
    requires c0.Valid() && Progresses(c0, c1) && Progresses(c1, c2)
    ensures Progresses(c0, c2)
  {
  }

  lemma {:induction false} Progressed(cfg: Config, run: seq<System>, i: nat, j: nat, r: ReplicaId)
    requires cfg.Valid() && IsRun(cfg, run) && i <= j < |run| && r in run[i].replicas
    ensures r in run[j].replicas && run[i].replicas[r].core.Valid()
    ensures Progresses(run[i].replicas[r].core, run[j].replicas[r].core)
    decreases j - i
  {
    RunInv(cfg, run, i);
    assert SaneReplica(run[i].replicas[r]);
    if i < j {
      var k := i + 1;
      assert Next(cfg, run[i], run[i + 1]);
      var step :| NextStep(cfg, run[i], run[k], step);
      StepProgresses(cfg, run[i], run[k], step, r);
      Progressed(cfg, run, k, j, r);
      ProgressTransitive(run[i].replicas[r].core, run[k].replicas[r].core, run[j].replicas[r].core);
    } else {
      SameCore(run[i].replicas[r].core);
    }
  }

  /** No step shortens or rewrites the log of a correct replica. */
  lemma LogsOnlyGrow(cfg: Config, run: seq<System>, i: nat, j: nat, r: ReplicaId)
    requires cfg.Valid() && IsRun(cfg, run) && i <= j < |run| && r in run[i].replicas
    ensures r in run[j].replicas && run[i].replicas[r].core.log <= run[j].replicas[r].core.log
  {
    Progressed(cfg, run, i, j, r);
  }

  /** The highest certified block of a correct replica is never replaced by a lower one, and what the
      replica has delivered stays delivered. */
  lemma CertifiedOnlyRises(cfg: Config, run: seq<System>, i: nat, j: nat, r: ReplicaId)
    requires cfg.Valid() && IsRun(cfg, run) && i <= j < |run| && r in run[i].replicas
    ensures r in run[j].replicas
    ensures var c, c' := run[i].replicas[r].core, run[j].replicas[r].core;
            && SubTree(c.tree, c'.tree) && c.hqc in c'.tree && c'.hqc in c'.tree
            && c'.Height(c.hqc) <= c'.Height(c'.hqc)
  {
    Progressed(cfg, run, i, j, r);
  }

  /** At one moment the logs of two correct replicas are prefixes of one another. */
  lemma LogsAgreeNow(cfg: Config, s: System, p: ReplicaId, q: ReplicaId)
    requires cfg.Valid() && Inv(cfg, s) && p in s.replicas && q in s.replicas
    ensures var lp, lq := s.replicas[p].core.log, s.replicas[q].core.log; lp <= lq || lq <= lp
  {
    var cp, cq := s.replicas[p].core, s.replicas[q].core;
    assert ReplicaInv(cfg, s.net, p, s.replicas[p]) && ReplicaInv(cfg, s.net, q, s.replicas[q]);
    InvVoteRules(cfg, s);
    CommittedAgree(cfg, s.net, cp.bExec, cq.bExec);
    WalkSub(cp.tree, s.net.tree, cp.bExec, 0);
    WalkSub(cq.tree, s.net.tree, cq.bExec, 0);
    if OnBranch(s.net.tree, cp.bExec, cq.bExec) {
      ChainUpSplit(s.net.tree, cq.bExec, cp.bExec, 0);
    } else {
      ChainUpSplit(s.net.tree, cp.bExec, cq.bExec, 0);
    }
  }

  /** Agreement: over a whole run, the logs of two correct replicas, each taken at any moment, are
      prefixes of one another. */
  lemma Agreed(cfg: Config, run: seq<System>, i: nat, p: ReplicaId, j: nat, q: ReplicaId)
    requires cfg.Valid() && IsRun(cfg, run) && i < |run| && j < |run|
    requires p in run[i].replicas && q in run[j].replicas
    ensures var lp, lq := run[i].replicas[p].core.log, run[j].replicas[q].core.log; lp <= lq || lq <= lp
  {
    var m := if i <= j then j else i;
    LogsOnlyGrow(cfg, run, i, m, p);
    LogsOnlyGrow(cfg, run, j, m, q);
    RunInv(cfg, run, m);
    LogsAgreeNow(cfg, run[m], p, q);
  }

  /** The commands a replica decides, in order: those of each committed block (`fair_finalize`). */
  function Decisions(t: Tree, log: seq<BlockId>): seq<Cmd> {
    if log == [] then []
    else Decisions(t, log[..|log| - 1]) + if log[|log| - 1] in t then t[log[|log| - 1]].cmds else []
  }

  lemma {:induction false} DecisionsPrefix(t: Tree, a: seq<BlockId>, b: seq<BlockId>)
    requires a <= b
    ensures Decisions(t, a) <= Decisions(t, b)
  {
    if a == b {
    } else {
      DecisionsPrefix(t, a, b[..|b| - 1]);
    }
  }

  lemma {:induction false} DecisionsSub(t: Tree, u: Tree, log: seq<BlockId>)
    requires SubTree(t, u) && forall b :: b in log ==> b in t
    ensures Decisions(t, log) == Decisions(u, log)
  {
    if log != [] { DecisionsSub(t, u, log[..|log| - 1]); }
  }

  /** Two correct replicas decide commands in one order. */
  lemma DecisionsAgree(cfg: Config, s: System, p: ReplicaId, q: ReplicaId)
    requires cfg.Valid() && Inv(cfg, s) && p in s.replicas && q in s.replicas
    ensures var cp, cq := s.replicas[p].core, s.replicas[q].core;
            var dp, dq := Decisions(cp.tree, cp.log), Decisions(cq.tree, cq.log);
            dp <= dq || dq <= dp
  {
    var cp, cq := s.replicas[p].core, s.replicas[q].core;
    assert ReplicaInv(cfg, s.net, p, s.replicas[p]) && ReplicaInv(cfg, s.net, q, s.replicas[q]);
    forall b | b in cp.log ensures b in cp.tree { ChainUpMembers(cp.tree, cp.bExec, 0, b); }
    forall b | b in cq.log ensures b in cq.tree { ChainUpMembers(cq.tree, cq.bExec, 0, b); }
    DecisionsSub(cp.tree, s.net.tree, cp.log);
    DecisionsSub(cq.tree, s.net.tree, cq.log);
    LogsAgreeNow(cfg, s, p, q);
    if cp.log <= cq.log {
      DecisionsPrefix(s.net.tree, cp.log, cq.log);
    } else {
      DecisionsPrefix(s.net.tree, cq.log, cp.log);
    }
  }

  // ---------------------------------------------------------------- further run-wide facts

  /** The "safety breached" exception is unreachable, for received proposals and for own ones. */
  lemma NeverBreached(cfg: Config, run: seq<System>, i: nat, step: Step)
    requires cfg.Valid() && IsRun(cfg, run) && i < |run| - 1
    requires Sane(run[i]) && NextStep(cfg, run[i], run[i + 1], step)
    ensures step.HandleProposal? ==>
              ReceiveProposal(cfg.v, run[i].replicas[step.r].core, step.b).error != Some(SafetyBreached)
    ensures step.MakeProposal? ==>
              var p := run[i].replicas[step.r];
              Propose(cfg.v, p.core, step.b, [p.tail], step.cmds).error != Some(SafetyBreached)
  {
    RunInv(cfg, run, i);
    match step
    case HandleProposal(r, b) => ProposalStep(cfg, run[i], run[i + 1], r, b);
    case MakeProposal(r, b, cmds) => ProposeStep(cfg, run[i], run[i + 1], r, b, cmds);
    case _ =>
  }

  /** Every reachable state of a correct replica: the executed block is not above the locked one,
      which is not above the highest certified one; the stored certificate certifies the latter;
      `decision` is set exactly on the executed block's ancestors, which are the log. */
  lemma ReachableCore(cfg: Config, run: seq<System>, i: nat, r: ReplicaId)
    requires cfg.Valid() && IsRun(cfg, run) && i < |run| && r in run[i].replicas
    ensures var c := run[i].replicas[r].core;
            && CoreInv(c)
            && c.Height(c.bExec) <= c.Height(c.bLock) <= c.Height(c.hqc)
            && c.hqcCert.obj == c.hqc && QcValid(cfg, run[i].net, c.hqcCert)
            && (forall b :: b in c.decided <==> OnBranch(c.tree, b, c.bExec))
            && (forall b :: b in c.log <==> b in c.decided && b != GENESIS)
  {
    RunInv(cfg, run, i);
    var c := run[i].replicas[r].core;
    assert ReplicaInv(cfg, run[i].net, r, run[i].replicas[r]);
    forall b ensures b in c.log <==> b in c.decided && b != GENESIS {
      ChainUpMembers(c.tree, c.bExec, 0, b);
      if b in c.tree { OnlyGenesisAtZero(c.tree, b); }
    }
  }

  /** A correct replica never votes for two blocks of one height. */
  lemma OneVotePerHeight(cfg: Config, run: seq<System>, i: nat, r: ReplicaId, x: BlockId, y: BlockId)
    requires cfg.Valid() && IsRun(cfg, run) && i < |run| && r in run[i].replicas
    requires (r, x) in run[i].net.votes && (r, y) in run[i].net.votes
    ensures x in run[i].net.tree && y in run[i].net.tree
    ensures run[i].net.tree[x].height == run[i].net.tree[y].height ==> x == y
    ensures run[i].net.tree[x].height <= run[i].replicas[r].core.vheight
  {
    RunInv(cfg, run, i);
    assert ReplicaInv(cfg, run[i].net, r, run[i].replicas[r]);
    assert VotesAgree(cfg, run[i].net, x, y);
  }

  lemma VoteAboveVheight(v: Variant, c: Core, b: BlockId)
    requires c.Valid() && b in c.tree
    ensures ReceiveProposal(v, c, b).vote ==> c.Height(b) > c.vheight
    ensures OwnBlock(v, c, b).vote ==> c.Height(b) > c.vheight
  {
    UpdateExtends(v, c, b);
    CastVoteUnfold(c, b);
    CastVoteUnfold(Update(v, c, b).core, b);
  }

  /** The voted heights of a correct replica strictly increase: each vote it sends is for a block
      above all those it voted for before. */
  lemma VotesAscend(cfg: Config, s: System, s': System, step: Step, r: ReplicaId, b: BlockId, x: BlockId)
    requires cfg.Valid() && Inv(cfg, s) && Sane(s) && NextStep(cfg, s, s', step) && r in s.replicas
    requires (r, b) in s'.net.votes && (r, b) !in s.net.votes && (r, x) in s.net.votes
    ensures b in s'.net.tree && x in s'.net.tree && s'.net.tree[b].height > s'.net.tree[x].height
  {
    assert ReplicaInv(cfg, s.net, r, s.replicas[r]) && SaneReplica(s.replicas[r]);
    match step
    case HandleProposal(q, y) => ReceivedVoteAbove(cfg, s, s', q, y, r, b);
    case MakeProposal(q, y, cmds) => ProposedVoteAbove(cfg, s, s', q, y, cmds, r, b);
    case _ =>
  }

  lemma ProposedVoteAbove(cfg: Config, s: System, s': System, q: ReplicaId, y: BlockId, cmds: seq<Cmd>, r: ReplicaId, b: BlockId)
    requires cfg.Valid() && Sane(s) && Proposes(cfg, s, s', q, y, cmds) && r in s.replicas && SaneReplica(s.replicas[r])
    requires (r, b) in s'.net.votes && (r, b) !in s.net.votes
    ensures SubTree(s.net.tree, s'.net.tree) && b in s'.net.tree && s'.net.tree[b].height > s.replicas[r].core.vheight
  {
    assert q == r && y == b;
    OwnVoteAbove(cfg.v, s.replicas[r].core, b, s.replicas[r].tail, cmds);
  }

  lemma ReceivedVoteAbove(cfg: Config, s: System, s': System, q: ReplicaId, y: BlockId, r: ReplicaId, b: BlockId)
    requires cfg.Valid() && Sane(s) && NextStep(cfg, s, s', HandleProposal(q, y)) && r in s.replicas
    requires SubTree(s.replicas[r].core.tree, s.net.tree)
    requires (r, b) in s'.net.votes && (r, b) !in s.net.votes
    ensures s'.net.tree == s.net.tree && b in s.net.tree && s.net.tree[b].height > s.replicas[r].core.vheight
  {
    assert q == r && y == b && SaneReplica(s.replicas[r]);
    var c := s.replicas[r].core;
    assert ReceiveProposal(cfg.v, c, b).vote;
    VoteAboveVheight(cfg.v, c, b);
  }

  lemma OwnVoteAbove(v: Variant, c: Core, b: BlockId, tail: BlockId, cmds: seq<Cmd>)
    requires c.Valid() && b !in c.tree && c.hqcCert.obj == c.hqc && tail in c.tree
    ensures Propose(v, c, b, [tail], cmds).vote ==> NewBlock(c, [tail], cmds).height > c.vheight
  {
    ProposeUnfold(v, c, b, [tail], cmds);
    VoteAboveVheight(v, DeliverBlk(c, b, NewBlock(c, [tail], cmds)), b);
  }

  // ---------------------------------------------------------------- forming certificates

  /** The steps behind a run. */
  ghost predicate IsTrace(cfg: Config, run: seq<System>, steps: seq<Step>)
    requires cfg.Valid()
  {
    && IsRun(cfg, run) && |steps| == |run| - 1
    && forall i {:trigger steps[i]} :: 0 <= i < |steps| ==> Sane(run[i]) && NextStep(cfg, run[i], run[i + 1], steps[i])
  }

  lemma {:induction false} TraceExists(cfg: Config, run: seq<System>, n: nat) returns (steps: seq<Step>)
    requires cfg.Valid() && IsRun(cfg, run) && n < |run|
    ensures |steps| == n && forall i :: 0 <= i < n ==> Sane(run[i]) && NextStep(cfg, run[i], run[i + 1], steps[i])
  {
    if n == 0 {
      steps := [];
    } else {
      var init := TraceExists(cfg, run, n - 1);
      assert Next(cfg, run[n - 1], run[n - 1 + 1]);
      var step :| NextStep(cfg, run[n - 1], run[n], step);
      steps := init + [step];
    }
  }

  /** The step hands replica `r` a vote for the delivered block `b`. */
  ghost predicate VoteArrives(s: System, step: Step, r: ReplicaId, b: BlockId) {
    step.HandleVote? && step.r == r && step.b == b && r in s.replicas && b in s.replicas[r].core.tree
  }

  /** The vote completes the certificate of `b`. */
  predicate Completes(c: Core, voter: ReplicaId, b: BlockId) {
    voter !in c.Voters(b) && |c.Voters(b)| + 1 == c.nmajority
  }

  /** The distinct voters for `b` among the votes handed to `r` in the first `n` steps. */
  ghost function Arrived(run: seq<System>, steps: seq<Step>, n: nat, r: ReplicaId, b: BlockId): set<ReplicaId>
    requires n <= |steps| < |run|
  {
    if n == 0 then {}
    else Arrived(run, steps, n - 1, r, b) + if VoteArrives(run[n - 1], steps[n - 1], r, b) then {steps[n - 1].voter} else {}
  }

  /** How often a certificate of `b` was completed by `r` in the first `n` steps. */
  ghost function Completions(run: seq<System>, steps: seq<Step>, n: nat, r: ReplicaId, b: BlockId): nat
    requires n <= |steps| < |run|
  {
    if n == 0 then 0
    else Completions(run, steps, n - 1, r, b)
         + if VoteArrives(run[n - 1], steps[n - 1], r, b) && Completes(run[n - 1].replicas[r].core, steps[n - 1].voter, b) then 1
           else 0
  }

  lemma ReceiveVoteVoted(c: Core, voter: ReplicaId, x: BlockId)
    requires c.Valid()
    ensures var c' := ReceiveVote(c, voter, x).core;
            && c'.nmajority == c.nmajority
            && c'.voted == if x in c.tree && |c.Voters(x)| < c.nmajority && voter !in c.Voters(x)
                           then c.voted[x := c.Voters(x) + {voter}] else c.voted
  {
    if x in c.tree && |c.Voters(x)| < c.nmajority && voter !in c.Voters(x) {
      var c1 := c.(voted := c.voted[x := c.Voters(x) + {voter}]);
      assert UpdateHqc(c1, x, QC(x, c1.Voters(x))).voted == c1.voted;
    }
  }

  /** What a step does to the voters for `b` that `r` has collected. */
  lemma StepVoters(cfg: Config, s: System, s': System, step: Step, r: ReplicaId, b: BlockId)
    requires cfg.Valid() && Inv(cfg, s) && Sane(s) && NextStep(cfg, s, s', step) && r in s.replicas && r in s'.replicas
    ensures var c, c' := s.replicas[r].core, s'.replicas[r].core;
            c'.Voters(b) == if VoteArrives(s, step, r, b) && |c.Voters(b)| < c.nmajority then c.Voters(b) + {step.voter}
                            else c.Voters(b)
  {
    assert SaneReplica(s.replicas[r]);
    if step.HandleVote? {
      HandledVoters(cfg, s, s', step.r, step.voter, step.b, r, b);
    } else {
      StepQuiet(cfg, s, s', step, r);
    }
  }

  lemma HandledVoters(cfg: Config, s: System, s': System, q: ReplicaId, voter: ReplicaId, x: BlockId, r: ReplicaId, b: BlockId)
    requires Sane(s) && HandlesVote(cfg, s, s', q, voter, x) && r in s.replicas && r in s'.replicas
    requires s.replicas[r].core.Valid()
    ensures var c, c' := s.replicas[r].core, s'.replicas[r].core;
            c'.Voters(b) == if q == r && x == b && b in c.tree && |c.Voters(b)| < c.nmajority then c.Voters(b) + {voter}
                            else c.Voters(b)
  {
    var c := s.replicas[r].core;
    ReceiveVoteVoted(c, voter, x);
    if voter in c.Voters(b) { assert c.Voters(b) + {voter} == c.Voters(b); }
  }

  /** A completed certificate leaves the certified block no lower than `b`. */
  lemma CompletionRaises(cfg: Config, s: System, s': System, step: Step, r: ReplicaId, b: BlockId)
    requires cfg.Valid() && Inv(cfg, s) && Sane(s) && NextStep(cfg, s, s', step) && r in s.replicas && r in s'.replicas
    requires VoteArrives(s, step, r, b) && Completes(s.replicas[r].core, step.voter, b)
    ensures CertifiedReaches(s'.replicas[r].core, b)
  {
    assert SaneReplica(s.replicas[r]);
  }

  ghost predicate CertificateState(c: Core, voters: set<ReplicaId>, completions: nat, b: BlockId) {
    && completions == (if |voters| >= c.nmajority then 1 else 0)
    && |c.Voters(b)| == (if |voters| >= c.nmajority then c.nmajority else |voters|)
    && c.Voters(b) <= voters
    && (|voters| < c.nmajority ==> c.Voters(b) == voters)
  }

  ghost predicate CertifiedReaches(c: Core, b: BlockId) {
    b in c.tree && c.hqc in c.tree && c.Height(b) <= c.Height(c.hqc)
  }

  lemma CertificateStep(c: Core, c': Core, voters: set<ReplicaId>, completions: nat, voter: ReplicaId, b: BlockId)
    requires CertificateState(c, voters, completions, b) && c'.nmajority == c.nmajority > 0
    requires c'.Voters(b) == if |c.Voters(b)| < c.nmajority then c.Voters(b) + {voter} else c.Voters(b)
    ensures CertificateState(c', voters + {voter}, completions + if Completes(c, voter, b) then 1 else 0, b)
  {
    FewerOf(voters, voters + {voter});
    if voter in voters {
      assert voters + {voter} == voters;
      if voter in c.Voters(b) { assert c.Voters(b) + {voter} == c.Voters(b); }
    }
  }

  /** The certificate of `b` at the replica `r` after `n` steps. */
  ghost predicate CertificateAt(run: seq<System>, steps: seq<Step>, n: nat, r: ReplicaId, b: BlockId)
    requires n <= |steps| < |run|
  {
    && r in run[n].replicas
    && var c, completions := run[n].replicas[r].core, Completions(run, steps, n, r, b);
       && CertificateState(c, Arrived(run, steps, n, r, b), completions, b)
       && (completions == 1 ==> CertifiedReaches(c, b))
  }

  /** One step and what has been collected for `b`. */
  lemma CollectedNext(cfg: Config, s: System, s': System, step: Step, r: ReplicaId, b: BlockId,
                      voters: set<ReplicaId>, voters': set<ReplicaId>, n: nat, n': nat)
    requires cfg.Valid() && Inv(cfg, s) && Sane(s) && NextStep(cfg, s, s', step) && r in s.replicas
    requires CertificateState(s.replicas[r].core, voters, n, b) && (n == 1 ==> CertifiedReaches(s.replicas[r].core, b))
    requires voters' == if VoteArrives(s, step, r, b) then voters + {step.voter} else voters
    requires n' == n + if VoteArrives(s, step, r, b) && Completes(s.replicas[r].core, step.voter, b) then 1 else 0
    ensures r in s'.replicas && CertificateState(s'.replicas[r].core, voters', n', b)
    ensures n' == 1 ==> CertifiedReaches(s'.replicas[r].core, b)
  {
    StepProgresses(cfg, s, s', step, r);
    StepVoters(cfg, s, s', step, r, b);
    ReachesStays(s.replicas[r].core, s'.replicas[r].core, b);
    if VoteArrives(s, step, r, b) {
      ReplicaMajority(cfg, s, r);
      CertificateStep(s.replicas[r].core, s'.replicas[r].core, voters, n, step.voter, b);
      if Completes(s.replicas[r].core, step.voter, b) { CompletionRaises(cfg, s, s', step, r, b); }
    }
  }

  lemma CertificateNext(cfg: Config, run: seq<System>, steps: seq<Step>, i: nat, j: nat, r: ReplicaId, b: BlockId)
    requires cfg.Valid() && i < |steps| < |run| && j == i + 1 && CertificateAt(run, steps, i, r, b)
    requires Inv(cfg, run[i]) && Sane(run[i]) && NextStep(cfg, run[i], run[j], steps[i])
    ensures CertificateAt(run, steps, j, r, b)
  {
    var voters, n := Arrived(run, steps, i, r, b), Completions(run, steps, i, r, b);
    var voters', n' := Arrived(run, steps, j, r, b), Completions(run, steps, j, r, b);
    assert voters' == voters + if VoteArrives(run[i], steps[i], r, b) then {steps[i].voter} else {};
    CollectedNext(cfg, run[i], run[j], steps[i], r, b, voters, voters', n, n');
  }

  lemma ReachesStays(c: Core, c': Core, b: BlockId)
    requires c.Valid() && Progresses(c, c')
    ensures CertifiedReaches(c, b) ==> CertifiedReaches(c', b)
  {
  }

  lemma ReplicaMajority(cfg: Config, s: System, r: ReplicaId)
    requires cfg.Valid() && Inv(cfg, s) && r in s.replicas
    ensures s.replicas[r].core.nmajority == cfg.NMajority() > 0
  {
    assert ReplicaInv(cfg, s.net, r, s.replicas[r]);
  }

  lemma {:induction false} CertificateAlways(cfg: Config, run: seq<System>, steps: seq<Step>, n: nat, r: ReplicaId, b: BlockId)
    requires cfg.Valid() && IsTrace(cfg, run, steps) && n <= |steps| && r in run[0].replicas && b != GENESIS
    ensures CertificateAt(run, steps, n, r, b)
  {
    if n == 0 {
      assert run[0].replicas[r].core == InitCore(r, cfg.NMajority(), cfg.Replicas());
    } else {
      var m := n - 1;
      CertificateAlways(cfg, run, steps, m, r, b);
      RunInv(cfg, run, m);
      assert steps[m] == steps[m];
      CertificateNext(cfg, run, steps, m, n, r, b);
    }
  }

  /** Whatever a correct replica handles in between, and in whatever order and with whatever repetition
      votes arrive: a block's certificate is completed once if the distinct voters whose votes arrived
      after the block was delivered reach the majority, and otherwise not at all; it then holds exactly
      a majority of distinct voters, and the replica's highest certified block is no lower. */
  lemma CertificateOnce(cfg: Config, run: seq<System>, steps: seq<Step>, n: nat, r: ReplicaId, b: BlockId)
    requires cfg.Valid() && IsTrace(cfg, run, steps) && n <= |steps| && r in run[0].replicas && b != GENESIS
    ensures r in run[n].replicas
    ensures var c, voters := run[n].replicas[r].core, Arrived(run, steps, n, r, b);
            && Completions(run, steps, n, r, b) == (if |voters| >= cfg.NMajority() then 1 else 0)
            && |c.Voters(b)| == (if |voters| >= cfg.NMajority() then cfg.NMajority() else |voters|)
            && c.Voters(b) <= voters
            && (|voters| >= cfg.NMajority() ==> CertifiedReaches(c, b))
  {
    CertificateAlways(cfg, run, steps, n, r, b);
    RunInv(cfg, run, n);
    ReplicaMajority(cfg, run[n], r);
  }
}
