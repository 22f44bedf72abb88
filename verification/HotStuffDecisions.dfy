/** What runs of HotStuff decide: the commands that correct replicas propose, each block's in one piece;
    and what the tails of a replica are. */
module HotStuffDecisions {
  import opened BlockTree
  import opened Sequences
  import opened Consensus
  import opened HotStuff
  import opened HotStuffRuns
  import opened HotStuffVoting
  import opened HotStuffSafety
  import opened HotStuffTheorems
  import opened HotStuffHandlers

  // ---------------------------------------------------------------- tails

  /** The tails are the delivered blocks that are parents of no delivered block. */
  ghost predicate TailsAreLeaves(c: Core) {
    forall x :: x in c.tails <==> x in c.tree && forall y :: y in c.tree ==> x !in c.tree[y].parents
  }

  ghost predicate RootHasNoParents(c: Core) {
    GENESIS in c.tree && c.tree[GENESIS].parents == []
  }

  lemma DeliverLeaves(c: Core, b: BlockId, blk: Block, c': Core)
    requires c.Valid() && TailsAreLeaves(c) && RootHasNoParents(c) && b !in c.tree
    requires c'.tree == c.tree[b := blk] && c'.tails == c.tails - Elements(blk.parents) + {b}
    requires forall p :: p in blk.parents ==> p in c.tree
    ensures TailsAreLeaves(c') && RootHasNoParents(c')
  {
    forall y | y in c'.tree ensures b !in c'.tree[y].parents {
      if y != b && y != GENESIS { assert HasParents(c.tree, y); }
    }
    forall x ensures x in c'.tails <==> x in c'.tree && forall y :: y in c'.tree ==> x !in c'.tree[y].parents {
      if x in c'.tails {
        forall y | y in c'.tree ensures x !in c'.tree[y].parents {}
      } else if x in c.tree && x !in c.tails {
        var y :| y in c.tree && x in c.tree[y].parents;
        assert x in c'.tree[y].parents;
      } else if x in c.tree {
        assert x in c'.tree[b].parents;
      }
    }
  }

  lemma SameLeaves(c: Core, c': Core)
    requires TailsAreLeaves(c) && RootHasNoParents(c) && c'.tree == c.tree && c'.tails == c.tails
    ensures TailsAreLeaves(c') && RootHasNoParents(c')
  {
  }

  lemma ProposalLeaves(cfg: Config, s: System, s': System, r: ReplicaId, b: BlockId, cmds: seq<Cmd>)
    requires cfg.Valid() && Inv(cfg, s) && Sane(s) && NextStep(cfg, s, s', MakeProposal(r, b, cmds))
    requires SaneReplica(s.replicas[r])
    requires TailsAreLeaves(s.replicas[r].core) && RootHasNoParents(s.replicas[r].core)
    ensures TailsAreLeaves(s'.replicas[r].core) && RootHasNoParents(s'.replicas[r].core)
  {
    var p, c' := s.replicas[r], s'.replicas[r].core;
    ProposalMade(cfg, s, s', r, b, cmds);
    assert Elements([p.tail]) == {p.tail};
    DeliverLeaves(p.core, b, c'.tree[b], c');
  }

  lemma DeliveredLeaves(cfg: Config, s: System, s': System, r: ReplicaId, b: BlockId)
    requires cfg.Valid() && Inv(cfg, s) && Sane(s) && NextStep(cfg, s, s', Deliver(r, b))
    requires TailsAreLeaves(s.replicas[r].core) && RootHasNoParents(s.replicas[r].core)
    ensures TailsAreLeaves(s'.replicas[r].core) && RootHasNoParents(s'.replicas[r].core)
  {
    assert SaneReplica(s.replicas[r]);
    DeliverLeaves(s.replicas[r].core, b, s.net.tree[b], s'.replicas[r].core);
  }

  /** A handler of the replica leaves its blocks and tails alone. */
  lemma HandlerLeaves(cfg: Config, s: System, s': System, step: Step, r: ReplicaId)
    requires cfg.Valid() && Sane(s) && NextStep(cfg, s, s', step) && r in s.replicas && r in s'.replicas
    requires step.HandleProposal? || step.HandleVote?
    ensures SaneReplica(s.replicas[r])
    ensures var c, c' := s.replicas[r].core, s'.replicas[r].core; c'.tree == c.tree && c'.tails == c.tails
  {
    assert SaneReplica(s.replicas[r]);
    var c := s.replicas[r].core;
    if step.HandleProposal? {
      ReceiveProposalKeeps(cfg.v, c, step.b);
    } else {
      VoteKeepsTree(c, step.voter, step.b);
    }
  }

  lemma StepLeaves(cfg: Config, s: System, s': System, step: Step, r: ReplicaId)
    requires cfg.Valid() && Inv(cfg, s) && Sane(s) && NextStep(cfg, s, s', step) && r in s.replicas && r in s'.replicas
    requires TailsAreLeaves(s.replicas[r].core) && RootHasNoParents(s.replicas[r].core)
    ensures TailsAreLeaves(s'.replicas[r].core) && RootHasNoParents(s'.replicas[r].core)
  {
    assert SaneReplica(s.replicas[r]);
    var c, c' := s.replicas[r].core, s'.replicas[r].core;
    if step.MakeProposal? && step.r == r {
      ProposalLeaves(cfg, s, s', r, step.b, step.cmds);
    } else if step.Deliver? && step.r == r {
      DeliveredLeaves(cfg, s, s', r, step.b);
    } else {
      if step.HandleProposal? || step.HandleVote? { HandlerLeaves(cfg, s, s', step, r); }
      SameLeaves(c, c');
    }
  }

  lemma VoteKeepsTree(c: Core, voter: ReplicaId, b: BlockId)
    requires c.Valid()
    ensures var c' := ReceiveVote(c, voter, b).core; c'.tree == c.tree && c'.tails == c.tails
  {
  }

  /** In every reachable state the tails of a correct replica are its delivered blocks without delivered
      children. */
  lemma {:induction false} ReachableTails(cfg: Config, run: seq<System>, i: nat, r: ReplicaId)
    requires cfg.Valid() && IsRun(cfg, run) && i < |run| && r in run[i].replicas
    ensures TailsAreLeaves(run[i].replicas[r].core) && RootHasNoParents(run[i].replicas[r].core)
  {
    if i > 0 {
      var k := i - 1;
      RunInv(cfg, run, k);
      RunInv(cfg, run, i);
      ReachableTails(cfg, run, k, r);
      assert Next(cfg, run[k], run[k + 1]);
      var step :| NextStep(cfg, run[k], run[i], step);
      StepLeaves(cfg, run[k], run[i], step, r);
    }
  }

  // ---------------------------------------------------------------- decisions

  lemma StepKeepsBlocks(cfg: Config, s: System, s': System, step: Step)
    requires cfg.Valid() && Inv(cfg, s) && Sane(s) && NextStep(cfg, s, s', step)
    ensures SubTree(s.net.tree, s'.net.tree)
  {
  }

  lemma {:induction false} BlocksStay(cfg: Config, run: seq<System>, i: nat, j: nat)
    requires cfg.Valid() && IsRun(cfg, run) && i <= j < |run|
    ensures SubTree(run[i].net.tree, run[j].net.tree)
    decreases j - i
  {
    if i < j {
      var k := i + 1;
      RunInv(cfg, run, i);
      assert Next(cfg, run[i], run[i + 1]);
      var step :| NextStep(cfg, run[i], run[k], step);
      StepKeepsBlocks(cfg, run[i], run[k], step);
      BlocksStay(cfg, run, k, j);
    }
  }

  /** A proposal makes the block, which was not there before. */
  lemma BlockMade(cfg: Config, run: seq<System>, steps: seq<Step>, k: nat, m: nat, r: ReplicaId, b: BlockId, cmds: seq<Cmd>)
    requires cfg.Valid() && IsTrace(cfg, run, steps) && k < |steps| && m == k + 1 && steps[k] == MakeProposal(r, b, cmds)
    ensures b !in run[k].net.tree && b in run[m].net.tree && run[m].net.tree[b].cmds == cmds
  {
    RunInv(cfg, run, k);
    assert Sane(run[k]) && NextStep(cfg, run[k], run[k + 1], steps[k]);
    assert SaneReplica(run[k].replicas[r]);
    ProposalMade(cfg, run[k], run[m], r, b, cmds);
  }

  /** A block in a correct replica's tree is the one that was created. */
  lemma DeliveredAsMade(cfg: Config, run: seq<System>, steps: seq<Step>, k: nat, r: ReplicaId, b: BlockId, cmds: seq<Cmd>,
                        i: nat, p: ReplicaId)
    requires cfg.Valid() && IsTrace(cfg, run, steps) && k < |steps| && steps[k] == MakeProposal(r, b, cmds)
    requires i < |run| && p in run[i].replicas && b in run[i].replicas[p].core.tree
    ensures run[i].replicas[p].core.tree[b].cmds == cmds
  {
    var m := k + 1;
    RunInv(cfg, run, i);
    assert ReplicaInv(cfg, run[i].net, p, run[i].replicas[p]) && b in run[i].net.tree;
    BlockMade(cfg, run, steps, k, m, r, b, cmds);
    if i <= k {
      BlocksStay(cfg, run, i, k);
      assert false;
    } else {
      BlocksStay(cfg, run, m, i);
    }
  }

  lemma DecisionsNext(t: Tree, log: seq<BlockId>, n: nat)
    requires n < |log| && log[n] in t
    ensures Decisions(t, log[..n + 1]) == Decisions(t, log[..n]) + t[log[n]].cmds
  {
    assert log[..n + 1][..n] == log[..n];
  }

  /** What is proposed is what is decided: wherever a block that a correct replica proposed stands in the
      log of a correct replica, the decisions go on, after those of the blocks before it, with exactly the
      proposed commands. */
  lemma ProposedDecided(cfg: Config, run: seq<System>, steps: seq<Step>, k: nat, r: ReplicaId, b: BlockId, cmds: seq<Cmd>,
                        i: nat, p: ReplicaId, n: nat)
    requires cfg.Valid() && IsTrace(cfg, run, steps) && k < |steps| && steps[k] == MakeProposal(r, b, cmds)
    requires i < |run| && p in run[i].replicas
    requires n < |run[i].replicas[p].core.log| && run[i].replicas[p].core.log[n] == b
    ensures var c := run[i].replicas[p].core;
            && Decisions(c.tree, []) == []
            && Decisions(c.tree, c.log[..n + 1]) == Decisions(c.tree, c.log[..n]) + cmds
            && Decisions(c.tree, c.log[..n]) + cmds <= Decisions(c.tree, c.log)
            && (forall m :: 0 <= m < |c.log| && m != n ==> c.log[m] != b)
  {
    var c := run[i].replicas[p].core;
    RunInv(cfg, run, i);
    assert ReplicaInv(cfg, run[i].net, p, run[i].replicas[p]);
    ChainUpMembers(c.tree, c.bExec, 0, b);
    DeliveredAsMade(cfg, run, steps, k, r, b, cmds, i, p);
    DecisionsNext(c.tree, c.log, n);
    DecisionsPrefix(c.tree, c.log[..n + 1], c.log);
    forall m | 0 <= m < |c.log| && m != n ensures c.log[m] != b { ChainHeights(c.tree, c.bExec, 0, m); ChainHeights(c.tree, c.bExec, 0, n); }
  }

  /** The blocks of a chain ascend one by one. */
  lemma {:induction false} ChainHeights(t: Tree, b: BlockId, h: nat, m: nat)
    requires ValidTree(t) && b in t && m < |ChainUp(t, b, h)|
    ensures ChainUp(t, b, h)[m] in t && t[ChainUp(t, b, h)[m]].height == h + 1 + m
    decreases t[b].height
  {
    if m < |ChainUp(t, b, h)| - 1 { ChainHeights(t, Parent(t, b), h, m); }
  }
}
