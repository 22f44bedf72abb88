/** The invariant holds in every reachable state, and with it the safety theorems. */
module HotStuffSafety {
  import opened BlockTree
  import opened Consensus
  import opened PaceMaker
  import opened HotStuff
  import opened HotStuffRuns
  import opened HotStuffVoting

  lemma InvImpliesSane(cfg: Config, s: System)
    requires cfg.n > 0 && Inv(cfg, s)
    ensures Sane(s)
  {
    forall r | r in s.replicas ensures SaneReplica(s.replicas[r]) {
      assert ReplicaInv(cfg, s.net, r, s.replicas[r]);
    }
  }

  lemma InitInv(cfg: Config, s: System)
    requires cfg.Valid() && Init(cfg, s)
    ensures Inv(cfg, s)
  {
    forall r | r in s.replicas ensures ReplicaInv(cfg, s.net, r, s.replicas[r]) {
      var c := s.replicas[r].core;
      assert c.decided == {GENESIS} && forall x :: OnBranch(c.tree, x, GENESIS) <==> x == GENESIS;
      assert LinkInv(cfg, s.net, r, c);
    }
    forall w | Certified(cfg, s.net, w) ensures w == GENESIS {
      assert Voters(s.net, w) * cfg.Replicas() == {};
    }
  }

  // ---------------------------------------------------------------- steps of the environment

  /** The invariant survives any growth of the network that leaves the votes of correct replicas
      alone. */
  lemma NetGrows(cfg: Config, s: System, net: Net)
    requires cfg.n > 0 && Inv(cfg, s) && TreeInv(cfg, net) && CertsBacked(cfg, net) && Grows(s.net, net)
    requires forall x, y :: (x, y) in net.votes && x !in cfg.faulty ==> (x, y) in s.net.votes
    ensures Inv(cfg, s.(net := net))
  {
    forall r | r in s.replicas ensures ReplicaInv(cfg, net, r, s.replicas[r]) {
      ReplicaInvGrows(cfg, s.net, net, r, s.replicas[r]);
    }
  }

  lemma VotesKeepTreeInv(cfg: Config, s: Net, s': Net)
    requires cfg.n > 0 && TreeInv(cfg, s) && s.votes <= s'.votes && s'.tree == s.tree
    requires forall rb :: rb in s'.votes ==> rb.1 in s.tree
    ensures TreeInv(cfg, s') && Grows(s, s')
  {
    forall b | b in s.tree && QcRef(s.tree, b).Some? ensures QcValid(cfg, s', s.tree[b].qc.value) {
      QcValidGrows(cfg, s, s', s.tree[b].qc.value);
    }
  }

  lemma QcObjExists(cfg: Config, s: Net, qc: QC)
    requires cfg.Valid() && TreeInv(cfg, s) && QcValid(cfg, s, qc)
    ensures qc.obj in s.tree
  {
    if qc.obj != GENESIS {
      var r :| r in qc.signers;
      assert (r, qc.obj) in s.votes;
    }
  }

  lemma AddBlkValid(cfg: Config, s: Net, b: BlockId, blk: Block)
    requires cfg.Valid() && TreeInv(cfg, s) && Creatable(cfg, s, b, blk)
    ensures var t := AddBlk(s, b, blk).tree;
            ValidTree(t) && (cfg.v.twoStep || WellFormed(t)) && SubTree(s.tree, t)
  {
    QcObjExists(cfg, s, blk.qc.value);
    AddValid(s.tree, b, blk);
    if !cfg.v.twoStep { AddWellFormed(s.tree, b, blk); }
  }

  lemma AddBlkKeepsTreeInv(cfg: Config, s: Net, b: BlockId, blk: Block)
    requires cfg.Valid() && TreeInv(cfg, s) && Creatable(cfg, s, b, blk)
    ensures TreeInv(cfg, AddBlk(s, b, blk)) && Grows(s, AddBlk(s, b, blk))
  {
    var s' := AddBlk(s, b, blk);
    AddBlkValid(cfg, s, b, blk);
    forall x | x in s'.tree && QcRef(s'.tree, x).Some? ensures QcValid(cfg, s', s'.tree[x].qc.value) {
      assert x != b ==> QcRef(s.tree, x) == QcRef(s'.tree, x) && QcValid(cfg, s, s.tree[x].qc.value);
    }
  }

  /** Certificates are as well backed after the tree has grown. */
  lemma AddBlkBacked(cfg: Config, s: Net, b: BlockId, blk: Block)
    requires cfg.Valid() && TreeInv(cfg, s) && CertsBacked(cfg, s) && Creatable(cfg, s, b, blk)
    ensures ValidTree(AddBlk(s, b, blk).tree) && CertsBacked(cfg, AddBlk(s, b, blk))
  {
    var s' := AddBlk(s, b, blk);
    AddBlkValid(cfg, s, b, blk);
    forall w | w != GENESIS && Certified(cfg, s', w) ensures exists q :: Backed(cfg, s', w, q) {
      assert Voters(s', w) == Voters(s, w) && Certified(cfg, s, w);
      var q :| Backed(cfg, s, w, q);
      forall r, x | r in q - cfg.faulty && (r, x) in s'.votes && x in s'.tree && s'.tree[x].height < s'.tree[w].height
        ensures Justified(cfg, s', w, LockHeight(cfg.v, s'.tree, x))
      {
        LockHeightGrows(cfg.v, s.tree, s'.tree, x);
        JustifiedGrows(cfg, s, s', w, LockHeight(cfg.v, s.tree, x));
      }
      assert Backed(cfg, s', w, q);
    }
  }

  /** What any participant does by creating a block. */
  lemma ForgeStep(cfg: Config, s: System, b: BlockId, blk: Block)
    requires cfg.Valid() && Inv(cfg, s) && Creatable(cfg, s.net, b, blk)
    ensures Inv(cfg, s.(net := AddBlk(s.net, b, blk)))
  {
    AddBlkKeepsTreeInv(cfg, s.net, b, blk);
    AddBlkBacked(cfg, s.net, b, blk);
    NetGrows(cfg, s, AddBlk(s.net, b, blk));
  }

  lemma ForgeVoteStep(cfg: Config, s: System, r: ReplicaId, b: BlockId)
    requires cfg.Valid() && Inv(cfg, s) && r in cfg.faulty && b in s.net.tree
    ensures Inv(cfg, s.(net := s.net.(votes := s.net.votes + {(r, b)})))
  {
    var net := s.net.(votes := s.net.votes + {(r, b)});
    VotesKeepTreeInv(cfg, s.net, net);
    InvVoteRules(cfg, s);
    AddVoteBacked(cfg, s.net, net, r, b);
    NetGrows(cfg, s, net);
  }

  // ---------------------------------------------------------------- steps of a correct replica

  /** Replacing one replica, whose votes alone may grow. */
  lemma FinishStep(cfg: Config, s: System, net: Net, r: ReplicaId, p: Replica)
    requires cfg.n > 0 && Inv(cfg, s) && r in s.replicas
    requires TreeInv(cfg, net) && CertsBacked(cfg, net) && Grows(s.net, net)
    requires forall x, y :: (x, y) in net.votes && x != r ==> (x, y) in s.net.votes
    requires ReplicaInv(cfg, net, r, p)
    ensures Inv(cfg, System(net, s.replicas[r := p]))
  {
    var replicas := s.replicas[r := p];
    forall x | x in replicas ensures ReplicaInv(cfg, net, x, replicas[x]) {
      if x != r {
        assert ReplicaInv(cfg, s.net, x, s.replicas[x]);
        ReplicaInvGrows(cfg, s.net, net, x, s.replicas[x]);
      }
    }
  }

  lemma RecordGrows(cfg: Config, s: Net, o: Outcome, r: ReplicaId, b: BlockId)
    requires cfg.n > 0 && TreeInv(cfg, s) && (o.vote ==> b in s.tree)
    ensures TreeInv(cfg, Record(s, o, r, b)) && Grows(s, Record(s, o, r, b))
    ensures forall x, y :: (x, y) in Record(s, o, r, b).votes && x != r ==> (x, y) in s.votes
  {
    VotesKeepTreeInv(cfg, s, Record(s, o, r, b));
  }

  /** A step without a vote. */
  lemma FinishQuietStep(cfg: Config, s: System, s': System, r: ReplicaId, p: Replica)
    requires cfg.n > 0 && Inv(cfg, s) && r in s.replicas
    requires s' == s.(replicas := s.replicas[r := p])
    requires ReplicaInv(cfg, s.net, r, p)
    ensures Inv(cfg, s')
  {
    FinishStep(cfg, s, s.net, r, p);
  }

  lemma DeliveredCoreInv(c: Core, b: BlockId, blk: Block)
    requires CoreInv(c) && b !in c.tree && DeliverBlk(c, b, blk).Valid()
    ensures CoreInv(DeliverBlk(c, b, blk))
  {
    var c1 := DeliverBlk(c, b, blk);
    assert SubTree(c.tree, c1.tree);
    forall x ensures x in c1.decided <==> OnBranch(c1.tree, x, c1.bExec) {
      OnBranchSub(c.tree, c1.tree, x, c.bExec);
    }
    WalkSub(c.tree, c1.tree, c.bExec, 0);
  }

  lemma DeliveredLinkInv(cfg: Config, s: Net, r: ReplicaId, c: Core, b: BlockId)
    requires cfg.n > 0 && ValidTree(s.tree) && c.Valid() && LinkInv(cfg, s, r, c)
    requires b in s.tree && b !in c.tree && DeliverBlk(c, b, s.tree[b]).Valid()
    ensures LinkInv(cfg, s, r, DeliverBlk(c, b, s.tree[b]))
  {
  }

  /** Delivering a block of the tree whose parents are delivered. */
  lemma DeliverKept(cfg: Config, s: Net, r: ReplicaId, p: Replica, b: BlockId)
    requires cfg.Valid() && TreeInv(cfg, s) && ReplicaInv(cfg, s, r, p)
    requires b in s.tree && b !in p.core.tree
    requires forall x :: x in s.tree[b].parents ==> x in p.core.tree
    ensures ReplicaInv(cfg, s, r, p.(core := DeliverBlk(p.core, b, s.tree[b])))
  {
    var c := p.core;
    var c1 := DeliverBlk(c, b, s.tree[b]);
    assert HasParents(s.tree, b);
    DeliverKeepsValid(c, b, s.tree[b]);
    DeliveredCoreInv(c, b, s.tree[b]);
    DeliveredLinkInv(cfg, s, r, c, b);
    NoVoteKeepsVoteInv(cfg, s, r, c, c1);
    OnBranchSub(c.tree, c1.tree, c.hqc, p.tail);
  }

  lemma DeliverStep(cfg: Config, s: System, s': System, r: ReplicaId, b: BlockId)
    requires cfg.Valid() && Inv(cfg, s) && Sane(s) && NextStep(cfg, s, s', Deliver(r, b))
    ensures Inv(cfg, s')
  {
    DeliverKept(cfg, s.net, r, s.replicas[r], b);
    FinishQuietStep(cfg, s, s', r, s'.replicas[r]);
  }

  lemma ToggleKept(cfg: Config, s: Net, r: ReplicaId, p: Replica, flag: bool)
    requires cfg.n > 0 && ValidTree(s.tree) && ReplicaInv(cfg, s, r, p)
    ensures ReplicaInv(cfg, s, r, p.(core := p.core.(voteDisabled := flag)))
  {
    NoVoteKeepsVoteInv(cfg, s, r, p.core, p.core.(voteDisabled := flag));
  }

  lemma ToggleStep(cfg: Config, s: System, s': System, r: ReplicaId, flag: bool)
    requires cfg.Valid() && Inv(cfg, s) && Sane(s) && NextStep(cfg, s, s', SetVoteDisabled(r, flag))
    ensures Inv(cfg, s')
  {
    ToggleKept(cfg, s.net, r, s.replicas[r], flag);
    FinishQuietStep(cfg, s, s', r, s'.replicas[r]);
  }

  /** The state after one more vote. */
  function Collected(c: Core, voter: ReplicaId, b: BlockId): Core {
    c.(voted := c.voted[b := c.Voters(b) + {voter}])
  }

  lemma CollectCore(c: Core, voter: ReplicaId, b: BlockId)
    requires CoreInv(c) && b in c.tree && |c.Voters(b)| < c.nmajority && voter !in c.Voters(b)
    ensures CoreInv(Collected(c, voter, b))
  {
  }

  lemma CollectLink(cfg: Config, s: Net, r: ReplicaId, c: Core, voter: ReplicaId, b: BlockId)
    requires cfg.n > 0 && ValidTree(s.tree) && c.Valid() && LinkInv(cfg, s, r, c)
    requires (voter, b) in s.votes && voter in cfg.Replicas()
    ensures LinkInv(cfg, s, r, Collected(c, voter, b))
  {
  }

  lemma CollectKept(cfg: Config, s: Net, r: ReplicaId, c: Core, voter: ReplicaId, b: BlockId)
    requires cfg.n > 0 && ValidTree(s.tree) && Kept(cfg, s, r, c)
    requires (voter, b) in s.votes && voter in cfg.Replicas()
    requires b in c.tree && |c.Voters(b)| < c.nmajority && voter !in c.Voters(b)
    ensures Kept(cfg, s, r, Collected(c, voter, b))
  {
    CollectCore(c, voter, b);
    CollectLink(cfg, s, r, c, voter, b);
    NoVoteKeepsVoteInv(cfg, s, r, c, Collected(c, voter, b));
  }

  lemma QcFormedKept(cfg: Config, s: Net, r: ReplicaId, c: Core, b: BlockId)
    requires cfg.n > 0 && TreeInv(cfg, s) && Kept(cfg, s, r, c)
    requires b in c.voted && b in c.tree && |c.voted[b]| == c.nmajority
    ensures Kept(cfg, s, r, UpdateHqc(c, b, QC(b, c.voted[b])))
  {
    var qc := QC(b, c.voted[b]);
    forall y | b != GENESIS && y in qc.signers ensures y in Voters(s, b) * cfg.Replicas() {
      assert (y, b) in s.votes;
    }
    UpdateHqcSafe(cfg, s, r, c, b, qc);
    NoVoteKeepsVoteInv(cfg, s, r, c, UpdateHqc(c, b, qc));
  }

  lemma ReceiveVoteKept(cfg: Config, s: Net, r: ReplicaId, c: Core, voter: ReplicaId, b: BlockId)
    requires cfg.n > 0 && TreeInv(cfg, s) && Kept(cfg, s, r, c)
    requires (voter, b) in s.votes && voter in cfg.Replicas()
    ensures var o := ReceiveVote(c, voter, b);
            !o.vote && o.core.tree == c.tree && Kept(cfg, s, r, o.core)
  {
    if b in c.tree && |c.Voters(b)| < c.nmajority && voter !in c.Voters(b) {
      CollectKept(cfg, s, r, c, voter, b);
      VoteCollected(c, voter, b);
      if |c.Voters(b)| + 1 == c.nmajority {
        QcFormedKept(cfg, s, r, Collected(c, voter, b), b);
      }
    } else {
      VoteIgnored(c, voter, b);
    }
  }

  lemma VoteCollected(c: Core, voter: ReplicaId, b: BlockId)
    requires c.Valid() && b in c.tree && |c.Voters(b)| < c.nmajority && voter !in c.Voters(b)
    ensures var c1 := Collected(c, voter, b);
            && c1.Valid() && b in c1.voted && |c1.voted[b]| == |c.Voters(b)| + 1
            && ReceiveVote(c, voter, b) == Done(if |c.Voters(b)| + 1 == c.nmajority then UpdateHqc(c1, b, QC(b, c1.voted[b])) else c1)
  {
  }

  lemma VoteIgnored(c: Core, voter: ReplicaId, b: BlockId)
    requires c.Valid() && !(b in c.tree && |c.Voters(b)| < c.nmajority && voter !in c.Voters(b))
    ensures ReceiveVote(c, voter, b).core == c && !ReceiveVote(c, voter, b).vote
  {
  }

  lemma TailKept(before: Core, after: Core, tail: BlockId, newTail: BlockId)
    requires after.Valid() && before.Valid() && before.tree == after.tree
    requires OnBranch(before.tree, before.hqc, tail) && AfterHqc(before, after, tail, newTail)
    ensures OnBranch(after.tree, after.hqc, newTail)
  {
  }

  lemma ReceiveVoteStep(cfg: Config, s: System, s': System, r: ReplicaId, voter: ReplicaId, b: BlockId)
    requires cfg.Valid() && Inv(cfg, s) && Sane(s) && NextStep(cfg, s, s', HandleVote(r, voter, b))
    ensures Inv(cfg, s')
  {
    var p := s.replicas[r];
    assert ReplicaInv(cfg, s.net, r, p);
    ReceiveVoteKept(cfg, s.net, r, p.core, voter, b);
    TailKept(p.core, s'.replicas[r].core, p.tail, s'.replicas[r].tail);
    FinishQuietStep(cfg, s, s', r, s'.replicas[r]);
  }

  lemma ProposalStep(cfg: Config, s: System, s': System, r: ReplicaId, b: BlockId)
    requires cfg.Valid() && Inv(cfg, s) && Sane(s) && NextStep(cfg, s, s', HandleProposal(r, b))
    ensures Inv(cfg, s')
    ensures ReceiveProposal(cfg.v, s.replicas[r].core, b).error != Some(SafetyBreached)
  {
    var p := s.replicas[r];
    assert ReplicaInv(cfg, s.net, r, p);
    if b in p.core.tree {
      InvVoteRules(cfg, s);
      var o := UpdateThenVote(cfg, s.net, r, p.core, b);
      ProposalFinish(cfg, s, s', r, b, o);
    } else {
      UndeliveredProposal(cfg, s, s', r, b);
    }
  }

  lemma UndeliveredProposal(cfg: Config, s: System, s': System, r: ReplicaId, b: BlockId)
    requires cfg.Valid() && Sane(s) && NextStep(cfg, s, s', HandleProposal(r, b))
    requires r in s.replicas && b !in s.replicas[r].core.tree
    ensures s' == s
  {
    assert ReceiveProposal(cfg.v, s.replicas[r].core, b) == Outcome(s.replicas[r].core, false, Some(NotDelivered));
  }

  lemma ProposalFinish(cfg: Config, s: System, s': System, r: ReplicaId, b: BlockId, o: Outcome)
    requires cfg.Valid() && Inv(cfg, s) && Sane(s) && NextStep(cfg, s, s', HandleProposal(r, b))
    requires b in s.replicas[r].core.tree && b in s.net.tree
    requires o == ReceiveProposal(cfg.v, s.replicas[r].core, b) && o.error == None
    requires o.core.tree == s.replicas[r].core.tree
    requires Kept(cfg, Record(s.net, o, r, b), r, o.core) && CertsBacked(cfg, Record(s.net, o, r, b))
    ensures Inv(cfg, s')
  {
    var p := s.replicas[r];
    assert ReplicaInv(cfg, s.net, r, p);
    var tail :| AfterHqc(p.core, o.core, p.tail, tail) && tail in o.core.tree
                && s'.replicas[r].tail == AfterReceive(o.core, b, tail);
    TailKept(p.core, o.core, p.tail, tail);
    TailAfterReceive(o.core, b, tail);
    RecordGrows(cfg, s.net, o, r, b);
    KeptReplica(cfg, Record(s.net, o, r, b), r, o.core, AfterReceive(o.core, b, tail));
    FinishStep(cfg, s, Record(s.net, o, r, b), r, s'.replicas[r]);
  }

  lemma TailAfterReceive(c: Core, b: BlockId, tail: BlockId)
    requires c.Valid() && OnBranch(c.tree, c.hqc, tail)
    ensures OnBranch(c.tree, c.hqc, AfterReceive(c, b, tail))
  {
  }

  lemma KeptReplica(cfg: Config, s: Net, r: ReplicaId, c: Core, tail: BlockId)
    requires cfg.n > 0 && ValidTree(s.tree) && Kept(cfg, s, r, c) && OnBranch(c.tree, c.hqc, tail)
    ensures ReplicaInv(cfg, s, r, Replica(c, tail))
  {
  }

  // ---------------------------------------------------------------- proposing

  /** A block that a correct replica proposes refers, through its certificate, to a block on its own
      parent chain: the hypothesis made about other blocks holds of these. */
  lemma HonestBlockWellFormed(cfg: Config, s: System, r: ReplicaId, b: BlockId, cmds: seq<Cmd>)
    requires cfg.Valid() && Inv(cfg, s) && Sane(s) && r in s.replicas && b !in s.net.tree
    ensures var p := s.replicas[r];
            var blk := NewBlock(p.core, [p.tail], cmds);
            && Creatable(cfg, s.net, b, blk)
            && OnBranch(s.net.tree, blk.qc.value.obj, blk.parents[0])
            && blk.qc.value.obj == p.core.hqc && blk.qc.value.obj in p.core.tree
  {
    var p := s.replicas[r];
    assert ReplicaInv(cfg, s.net, r, p);
    OnBranchSub(p.core.tree, s.net.tree, p.core.hqc, p.tail);
  }

  lemma HonestOnChain(cfg: Config, s: System, r: ReplicaId, b: BlockId, cmds: seq<Cmd>)
    requires cfg.Valid() && Inv(cfg, s) && Sane(s) && r in s.replicas && b !in s.net.tree
    ensures var p := s.replicas[r];
            var t := AddBlk(s.net, b, NewBlock(p.core, [p.tail], cmds)).tree;
            ValidTree(t) && QcOnChain(t, b)
  {
    var p := s.replicas[r];
    var blk := NewBlock(p.core, [p.tail], cmds);
    HonestBlockWellFormed(cfg, s, r, b, cmds);
    AddBlkValid(cfg, s.net, b, blk);
    OnBranchSub(s.net.tree, AddBlk(s.net, b, blk).tree, blk.qc.value.obj, p.tail);
  }

  lemma OwnBlockKept(cfg: Config, s: Net, r: ReplicaId, c: Core, b: BlockId) returns (o: Outcome)
    requires cfg.Valid() && TreeInv(cfg, s) && VoteRules(cfg, s) && Kept(cfg, s, r, c) && b in c.tree
    requires QcRef(s.tree, b) == Some(c.hqc) && QcOnChain(s.tree, b)
    ensures o == OwnBlock(cfg.v, c, b)
    ensures o.error != Some(SafetyBreached)
    ensures Kept(cfg, Record(s, o, r, b), r, o.core) && CertsBacked(cfg, Record(s, o, r, b))
    ensures o.core.hqc == c.hqc && o.core.tree == c.tree && o.core.tails == c.tails
  {
    if cfg.v.voteFirst {
      if c.Height(b) <= c.vheight {
        o := Outcome(c, false, Some(NotHigher));
      } else {
        o := VoteThenUpdate(cfg, s, r, c, b);
      }
    } else {
      o := UpdateThenVote(cfg, s, r, c, b);
      var u := Update(cfg.v, c, b).core;
      CastVoteUnfold(u, b);
      if u.Height(b) <= u.vheight {
        assert o.core == u;
        o := Outcome(u, false, Some(NotHigher));
      }
    }
  }

  /** The proposer's new block, created and delivered to itself. */
  lemma OwnBlockAdded(cfg: Config, s: System, r: ReplicaId, b: BlockId, cmds: seq<Cmd>)
    requires cfg.Valid() && Inv(cfg, s) && Sane(s) && r in s.replicas && b !in s.net.tree && b !in s.replicas[r].core.tree
    ensures var p := s.replicas[r];
            var blk := NewBlock(p.core, [p.tail], cmds);
            var net := AddBlk(s.net, b, blk);
            && ValidTree(net.tree) && Inv(cfg, System(net, s.replicas)) && VoteRules(cfg, net) && QcOnChain(net.tree, b)
            && ReplicaInv(cfg, net, r, Replica(DeliverBlk(p.core, b, blk), p.tail))
  {
    var p := s.replicas[r];
    var blk := NewBlock(p.core, [p.tail], cmds);
    var net := AddBlk(s.net, b, blk);
    HonestBlockWellFormed(cfg, s, r, b, cmds);
    HonestOnChain(cfg, s, r, b, cmds);
    ForgeStep(cfg, s, b, blk);
    var s1 := System(net, s.replicas);
    InvVoteRules(cfg, s1);
    assert ReplicaInv(cfg, net, r, s1.replicas[r]);
    assert p.core.tree[p.tail] == net.tree[p.tail];
    DeliverKept(cfg, net, r, p, b);
  }

  lemma ProposeStep(cfg: Config, s: System, s': System, r: ReplicaId, b: BlockId, cmds: seq<Cmd>)
    requires cfg.Valid() && Inv(cfg, s) && Sane(s) && NextStep(cfg, s, s', MakeProposal(r, b, cmds))
    ensures Inv(cfg, s')
    ensures Propose(cfg.v, s.replicas[r].core, b, [s.replicas[r].tail], cmds).error != Some(SafetyBreached)
  {
    OwnBlockAdded(cfg, s, r, b, cmds);
    var p := s.replicas[r];
    var blk := NewBlock(p.core, [p.tail], cmds);
    var net := AddBlk(s.net, b, blk);
    ProposeUnfold(cfg.v, p.core, b, [p.tail], cmds);
    var c1 := DeliverBlk(p.core, b, blk);
    var o := OwnBlockKept(cfg, net, r, c1, b);
    ProposeFinish(cfg, System(net, s.replicas), s', r, b, c1, p.tail, o);
  }

  lemma ProposeFinish(cfg: Config, s: System, s': System, r: ReplicaId, b: BlockId, c: Core, tail: BlockId, o: Outcome)
    requires cfg.n > 0 && Inv(cfg, s) && r in s.replicas && b in s.net.tree
    requires c.Valid() && OnBranch(c.tree, c.hqc, tail) && b in c.tree && b != GENESIS && Parent(c.tree, b) == tail
    requires Kept(cfg, Record(s.net, o, r, b), r, o.core) && CertsBacked(cfg, Record(s.net, o, r, b))
    requires o.core.hqc == c.hqc && o.core.tree == c.tree
    requires s' == System(Record(s.net, o, r, b),
                          s.replicas[r := Replica(o.core, if o.error.Some? then tail else b)])
    ensures Inv(cfg, s')
  {
    RecordGrows(cfg, s.net, o, r, b);
    FinishStep(cfg, s, Record(s.net, o, r, b), r, s'.replicas[r]);
  }
}
