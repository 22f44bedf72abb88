/** What the handlers of a correct replica do in a reachable state, said of its fields alone: the early
    returns of `update` then make no difference, proposals that are not refused get their proposer's
    vote, and what is proposed is what is decided. */
module HotStuffHandlers {
  import opened BlockTree
  import opened Sequences
  import opened Consensus
  import opened PaceMaker
  import opened HotStuff
  import opened HotStuffRuns
  import opened HotStuffVoting
  import opened HotStuffSafety
  import opened HotStuffTheorems

  // ---------------------------------------------------------------- update

  /** The higher one of a block and another, if there is another. */
  function Higher(t: Tree, b: BlockId, other: Option<BlockId>): BlockId
    requires b in t
  {
    if other.Some? && other.value in t && t[other.value].height > t[b].height then other.value else b
  }

  /** `b` closes a chain of certificates, each about the parent of the block that carries it, but for the
      last, which `b` carries: over `blk` and its child in two steps, over one more child in three. */
  ghost predicate Closes(v: Variant, t: Tree, b: BlockId, blk: BlockId)
    requires ValidTree(t)
  {
    exists mid: BlockId, top: BlockId ::
      && Child(t, mid, blk) && (if v.twoStep then top == mid else Child(t, top, mid))
      && QcRef(t, b) == Some(top)
  }

  /** A child that carries a certificate about its parent. */
  ghost predicate Child(t: Tree, x: BlockId, parent: BlockId)
    requires ValidTree(t)
  {
    x in t && x != GENESIS && Parent(t, x) == parent && QcRef(t, x) == Some(parent)
  }

  lemma ParentDecided(c: Core, x: BlockId)
    requires CoreInv(c) && x in c.tree && x != GENESIS && x in c.decided
    ensures Parent(c.tree, x) in c.decided
  {
    assert OnBranch(c.tree, Parent(c.tree, x), x);
    OnBranchTransitive(c.tree, Parent(c.tree, x), x, c.bExec);
  }

  lemma CommitEnds(c: Core, b: BlockId)
    requires CoreInv(c) && b in c.tree && b !in c.decided && Commit(c, b).error == None
    ensures Commit(c, b).core.bExec == b && OnBranch(c.tree, c.bExec, b)
  {
    assert OnBranch(c.tree, c.bExec, c.bExec);
  }

  lemma LockAndCommitExactly(c: Core, mid: BlockId, direct: bool)
    requires CoreInv(c) && mid in c.tree && mid != GENESIS && CoreInv(Lock(c, mid))
    requires LockAndCommit(c, mid, direct).error == None && CoreInv(LockAndCommit(c, mid, direct).core)
    ensures var c' := LockAndCommit(c, mid, direct).core;
            && c'.bLock == Higher(c.tree, c.bLock, Some(mid)) && c'.hqc == c.hqc && c'.hqcCert == c.hqcCert && c'.tree == c.tree
            && (c'.bExec == c.bExec || (direct && Child(c.tree, mid, c'.bExec) && OnBranch(c.tree, c.bExec, c'.bExec)))
            && (direct && Child(c.tree, mid, Parent(c.tree, mid)) ==> Parent(c.tree, mid) in c'.decided)
  {
    LockAndCommitUnfold(c, mid, direct);
    LockAndCommitFrame(c, mid, direct);
    var b := CommitTarget(c, mid, direct);
    if b.Some? { CommitEnds(Lock(c, mid), b.value); }
  }

  /** The lock that `update` may raise for `b`, stated by the certificates alone. */
  function LockFor(v: Variant, t: Tree, b: BlockId): Option<BlockId> {
    if v.twoStep || QcRef(t, b) == None then QcRef(t, b) else QcRef(t, QcRef(t, b).value)
  }

  /** What `update` does with `b`, whichever of its returns it takes: the certified block, the lock and the
      executed block become the higher ones, the last by a chain that `b` closes, and whatever `b` closes
      a chain over is decided. */
  ghost predicate UpdatedTo(v: Variant, c: Core, b: BlockId, c': Core)
    requires c.Valid() && b in c.tree
  {
    && c'.tree == c.tree
    && c'.hqc == Higher(c.tree, c.hqc, QcRef(c.tree, b))
    && c'.hqcCert == (if c'.hqc == c.hqc || c.tree[b].qc.None? then c.hqcCert else c.tree[b].qc.value)
    && c'.bLock == Higher(c.tree, c.bLock, LockFor(v, c.tree, b))
    && (c'.bExec == c.bExec || (Closes(v, c.tree, b, c'.bExec) && OnBranch(c.tree, c.bExec, c'.bExec)))
    && (forall blk :: Closes(v, c.tree, b, blk) ==> blk in c'.decided)
  }

  /** The early returns: what is asked for is decided already, or not delivered. */
  lemma UpdateReturns(cfg: Config, s: Net, c: Core, b: BlockId)
    requires cfg.n > 0 && ValidTree(s.tree) && QcsSound(cfg, s) && CoreInv(c) && SubTree(c.tree, s.tree) && b in c.tree
    requires QcRef(c.tree, b).Some? ==> QcRef(c.tree, b).value in c.decided
    ensures UpdatedTo(cfg.v, c, b, c)
  {
    UpdateDecided(cfg, s, c, b);
    if QcRef(c.tree, b).Some? { DecidedBelowLock(c, QcRef(c.tree, b).value); }
    forall blk | Closes(cfg.v, c.tree, b, blk) ensures blk in c.decided {
      ClosesAt(cfg.v, c.tree, b, blk);
      if !cfg.v.twoStep { ParentDecided(c, QcRef(c.tree, b).value); }
      ParentDecided(c, LockFor(cfg.v, c.tree, b).value);
    }
  }

  /** The part of it below a certified block that is not decided yet. */
  ghost predicate BelowTo(v: Variant, c: Core, b: BlockId, c': Core)
    requires c.Valid() && b in c.tree
  {
    && c'.tree == c.tree && c'.hqc == c.hqc && c'.hqcCert == c.hqcCert
    && c'.bLock == Higher(c.tree, c.bLock, LockFor(v, c.tree, b))
    && (c'.bExec == c.bExec || (Closes(v, c.tree, b, c'.bExec) && OnBranch(c.tree, c.bExec, c'.bExec)))
    && (forall blk :: Closes(v, c.tree, b, blk) ==> blk in c'.decided)
  }

  lemma ClosesAt(v: Variant, t: Tree, b: BlockId, blk: BlockId)
    requires ValidTree(t)
    ensures Closes(v, t, b, blk) <==>
              && LockFor(v, t, b).Some? && Child(t, LockFor(v, t, b).value, blk)
              && (v.twoStep || Child(t, QcRef(t, b).value, LockFor(v, t, b).value))
  {
    if LockFor(v, t, b).Some? && Child(t, LockFor(v, t, b).value, blk)
       && (v.twoStep || Child(t, QcRef(t, b).value, LockFor(v, t, b).value)) {
      var mid, top := LockFor(v, t, b).value, QcRef(t, b).value;
      assert Child(t, mid, blk) && (if v.twoStep then top == mid else Child(t, top, mid)) && QcRef(t, b) == Some(top);
    }
  }

  lemma BelowMid(v: Variant, c: Core, b: BlockId, top: BlockId, mid: BlockId)
    requires CoreInv(c) && b in c.tree && QcRef(c.tree, b) == Some(top) && top in c.tree && top != GENESIS
    requires LockFor(v, c.tree, b) == Some(mid) && mid !in c.decided && CoreInv(Lock(c, mid))
    requires var o := LockAndCommit(c, mid, v.twoStep || Parent(c.tree, top) == mid); o.error == None && CoreInv(o.core)
    ensures BelowTo(v, c, b, LockAndCommit(c, mid, v.twoStep || Parent(c.tree, top) == mid).core)
  {
    var c' := LockAndCommit(c, mid, v.twoStep || Parent(c.tree, top) == mid).core;
    LockAndCommitExactly(c, mid, v.twoStep || Parent(c.tree, top) == mid);
    forall blk | Closes(v, c.tree, b, blk) ensures blk in c'.decided { ClosesAt(v, c.tree, b, blk); }
    ClosesAt(v, c.tree, b, c'.bExec);
  }

  lemma BelowDone(v: Variant, c: Core, b: BlockId, top: BlockId)
    requires CoreInv(c) && b in c.tree && QcRef(c.tree, b) == Some(top) && top in c.tree && top != GENESIS
    requires LockFor(v, c.tree, b).Some? ==> LockFor(v, c.tree, b).value in c.decided
    ensures BelowTo(v, c, b, c)
  {
    var lock := LockFor(v, c.tree, b);
    if lock.Some? {
      DecidedBelowLock(c, lock.value);
      if lock.value != GENESIS { ParentDecided(c, lock.value); }
    }
    forall blk | Closes(v, c.tree, b, blk) ensures blk in c.decided { ClosesAt(v, c.tree, b, blk); }
  }

  lemma LockForSound(cfg: Config, s: Net, c: Core, b: BlockId, top: BlockId, mid: BlockId)
    requires cfg.n > 0 && ValidTree(s.tree) && QcsSound(cfg, s) && CoreInv(c) && SubTree(c.tree, s.tree) && b in c.tree
    requires QcRef(c.tree, b) == Some(top) && top in c.tree && top != GENESIS && Certified(cfg, s, top)
    requires LockFor(cfg.v, c.tree, b) == Some(mid)
    ensures mid in c.tree && Certified(cfg, s, mid) && c.Height(mid) <= c.Height(top)
    ensures if cfg.v.twoStep then mid == top else QcRef(s.tree, top) == Some(mid)
  {
    if !cfg.v.twoStep { assert QcRef(s.tree, top) == QcRef(c.tree, top) && s.tree[mid] == c.tree[mid] && s.tree[top] == c.tree[top]; }
  }

  lemma BelowTopExactly(cfg: Config, s: Net, r: ReplicaId, c: Core, top: BlockId, b: BlockId)
    requires cfg.n > 0 && ValidTree(s.tree) && QcsSound(cfg, s) && Agreement(cfg, s) && CoreInv(c) && LinkInv(cfg, s, r, c)
    requires b in c.tree && QcRef(c.tree, b) == Some(top) && top in c.tree && top != GENESIS && Certified(cfg, s, top)
    requires top !in c.decided && c.Height(top) <= c.Height(c.hqc)
    ensures BelowTo(cfg.v, c, b, BelowTop(cfg.v, c, top).core)
  {
    var lock := LockFor(cfg.v, c.tree, b);
    if lock.Some? && lock.value !in c.decided {
      LockForSound(cfg, s, c, b, top, lock.value);
      BelowUndecided(cfg, s, r, c, b, top, lock.value);
      BelowTopUnfold(cfg.v, c, b, top);
    } else {
      BelowDone(cfg.v, c, b, top);
      BelowTopUnfold(cfg.v, c, b, top);
    }
  }

  lemma BelowTopUnfold(v: Variant, c: Core, b: BlockId, top: BlockId)
    requires CoreInv(c) && b in c.tree && QcRef(c.tree, b) == Some(top) && top in c.tree && top != GENESIS && top !in c.decided
    ensures var lock := LockFor(v, c.tree, b);
            if lock.Some? && lock.value !in c.decided
            then BelowTop(v, c, top) == LockAndCommit(c, lock.value, v.twoStep || Parent(c.tree, top) == lock.value)
            else BelowTop(v, c, top) == Done(c)
  {
  }

  lemma BelowUndecided(cfg: Config, s: Net, r: ReplicaId, c: Core, b: BlockId, top: BlockId, mid: BlockId)
    requires cfg.n > 0 && ValidTree(s.tree) && Agreement(cfg, s) && CoreInv(c) && LinkInv(cfg, s, r, c)
    requires b in c.tree && QcRef(c.tree, b) == Some(top) && top in c.tree && top != GENESIS && Certified(cfg, s, top)
    requires LockFor(cfg.v, c.tree, b) == Some(mid) && mid in c.tree && mid !in c.decided && Certified(cfg, s, mid)
    requires c.Height(mid) <= c.Height(c.hqc) && if cfg.v.twoStep then mid == top else QcRef(s.tree, top) == Some(mid)
    ensures BelowTo(cfg.v, c, b, LockAndCommit(c, mid, cfg.v.twoStep || Parent(c.tree, top) == mid).core)
  {
    LockSafe(cfg, s, r, c, mid);
    LockAndCommitSafe(cfg, s, r, c, mid, top);
    BelowMid(cfg.v, c, b, top, mid);
  }

  lemma UpdateFromTop(cfg: Config, s: Net, r: ReplicaId, c: Core, b: BlockId)
    requires cfg.n > 0 && ValidTree(s.tree) && QcsSound(cfg, s) && Agreement(cfg, s) && CoreInv(c) && LinkInv(cfg, s, r, c)
    requires b in c.tree && QcRef(c.tree, b).Some? && QcRef(c.tree, b).value !in c.decided
    ensures UpdatedTo(cfg.v, c, b, Update(cfg.v, c, b).core)
  {
    var top, qc := QcRef(c.tree, b).value, c.tree[b].qc.value;
    assert s.tree[b] == c.tree[b] && QcRef(s.tree, b) == Some(top) && s.tree[top] == c.tree[top];
    UpdateHqcSafe(cfg, s, r, c, top, qc);
    UpdateUnfold(cfg.v, c, b);
    BelowTopExactly(cfg, s, r, UpdateHqc(c, top, qc), top, b);
  }

  /** In every reachable state `update` does exactly this, for every delivered block. */
  lemma UpdateExactly(cfg: Config, s: System, r: ReplicaId, b: BlockId)
    requires cfg.Valid() && Inv(cfg, s) && r in s.replicas && s.replicas[r].core.Valid() && b in s.replicas[r].core.tree
    ensures UpdatedTo(cfg.v, s.replicas[r].core, b, Update(cfg.v, s.replicas[r].core, b).core)
    ensures CoreInv(Update(cfg.v, s.replicas[r].core, b).core)
  {
    assert ReplicaInv(cfg, s.net, r, s.replicas[r]);
    InvVoteRules(cfg, s);
    UpdateHere(cfg, s.net, r, s.replicas[r].core, b);
  }

  lemma UpdateHere(cfg: Config, s: Net, r: ReplicaId, c: Core, b: BlockId)
    requires cfg.Valid() && TreeInv(cfg, s) && VoteRules(cfg, s) && CoreInv(c) && LinkInv(cfg, s, r, c) && b in c.tree
    ensures UpdatedTo(cfg.v, c, b, Update(cfg.v, c, b).core) && CoreInv(Update(cfg.v, c, b).core)
  {
    TreeInvQcsSound(cfg, s);
    RulesAgreement(cfg, s);
    UpdateSafe(cfg, s, r, c, b);
    if QcRef(c.tree, b).Some? && QcRef(c.tree, b).value !in c.decided {
      UpdateFromTop(cfg, s, r, c, b);
    } else {
      UpdateReturns(cfg, s, c, b);
    }
  }

  // ---------------------------------------------------------------- received proposals

  /** The vote rule: above every block voted for, and certified above the lock or on the locked branch. */
  ghost predicate Acceptable(c: Core, b: BlockId, lock: BlockId)
    requires c.Valid() && b in c.tree && lock in c.tree
  {
    && c.Height(b) > c.vheight
    && ((QcRef(c.tree, b).Some? && c.Height(QcRef(c.tree, b).value) > c.Height(lock)) || OnBranch(c.tree, lock, b))
  }

  lemma OpinionExactly(c: Core, b: BlockId)
    requires c.Valid() && b in c.tree
    ensures Opinion(c, b) <==> Acceptable(c, b, c.bLock)
  {
  }

  lemma VoteExactly(v: Variant, c: Core, u: Core, b: BlockId)
    requires c.Valid() && b in c.tree && u.Valid() && u.tree == c.tree && u.vheight == c.vheight && u.voteDisabled == c.voteDisabled
    requires UpdatedTo(v, c, b, u) && CoreInv(u)
    ensures var o := CastVote(u, b);
            && o.error == None && o.core.tails == u.tails
            && UpdatedTo(v, c, b, o.core) && CoreInv(o.core)
            && o.core.vheight == (if Acceptable(c, b, o.core.bLock) then c.Height(b) else c.vheight)
            && o.vote == (Acceptable(c, b, o.core.bLock) && !c.voteDisabled)
  {
    CastVoteUnfold(u, b);
    OpinionExactly(u, b);
  }

  /** A delivered proposal: the replica updates, then votes for the block exactly if it is acceptable under
      the new lock and voting is enabled; nothing else is signed, and no error is reported. */
  lemma ProposalHandled(cfg: Config, s: System, s': System, r: ReplicaId, b: BlockId)
    requires cfg.Valid() && Inv(cfg, s) && Sane(s) && NextStep(cfg, s, s', HandleProposal(r, b))
    requires SaneReplica(s.replicas[r]) && b in s.replicas[r].core.tree
    ensures var c, c' := s.replicas[r].core, s'.replicas[r].core;
            && UpdatedTo(cfg.v, c, b, c') && CoreInv(c')
            && c'.vheight == (if Acceptable(c, b, c'.bLock) then c.Height(b) else c.vheight)
            && s'.net.votes == s.net.votes + (if Acceptable(c, b, c'.bLock) && !c.voteDisabled then {(r, b)} else {})
            && s'.net.tree == s.net.tree && c'.tails == c.tails
    ensures ReceiveProposal(cfg.v, s.replicas[r].core, b).error == None
  {
    var c := s.replicas[r].core;
    ReceivedExactly(cfg, s, r, b);
    assert s'.net == Record(s.net, ReceiveProposal(cfg.v, c, b), r, b);
  }

  lemma ReceivedExactly(cfg: Config, s: System, r: ReplicaId, b: BlockId)
    requires cfg.Valid() && Inv(cfg, s) && r in s.replicas && SaneReplica(s.replicas[r]) && b in s.replicas[r].core.tree
    ensures var c := s.replicas[r].core;
            var o := ReceiveProposal(cfg.v, c, b);
            && o.error == None && o.core.tails == c.tails && UpdatedTo(cfg.v, c, b, o.core) && CoreInv(o.core)
            && o.core.vheight == (if Acceptable(c, b, o.core.bLock) then c.Height(b) else c.vheight)
            && o.vote == (Acceptable(c, b, o.core.bLock) && !c.voteDisabled)
  {
    var c := s.replicas[r].core;
    UpdateExactly(cfg, s, r, b);
    UpdateFrame(cfg, s, r, b);
    VoteExactly(cfg.v, c, Update(cfg.v, c, b).core, b);
  }

  lemma UpdateFrame(cfg: Config, s: System, r: ReplicaId, b: BlockId)
    requires cfg.Valid() && Inv(cfg, s) && r in s.replicas && s.replicas[r].core.Valid() && b in s.replicas[r].core.tree
    ensures var c := s.replicas[r].core;
            var u := Update(cfg.v, c, b);
            u.error == None && u.core.vheight == c.vheight && u.core.voteDisabled == c.voteDisabled && u.core.tails == c.tails
  {
    assert ReplicaInv(cfg, s.net, r, s.replicas[r]);
    InvVoteRules(cfg, s);
    TreeInvQcsSound(cfg, s.net);
    RulesAgreement(cfg, s.net);
    UpdateSafe(cfg, s.net, r, s.replicas[r].core, b);
  }

  // ---------------------------------------------------------------- the tail

  /** Where the tail is after a delivered proposal: on the received block if that descends from the highest
      certified block and is higher, and otherwise where it was, unless the certified block changed; then it
      is no lower than any delivered tail above the new one. */
  ghost predicate TailMoved(c: Core, tail: BlockId, b: BlockId, c': Core, tail': BlockId)
    requires c.Valid() && c'.Valid() && c'.tree == c.tree && b in c.tree && tail in c.tree && tail' in c.tree
  {
    && OnBranch(c.tree, c'.hqc, tail')
    && (OnBranch(c.tree, c'.hqc, b) ==> c.Height(tail') >= c.Height(b))
    && if c'.hqc == c.hqc
       then tail' == if OnBranch(c.tree, c.hqc, b) && c.Height(b) > c.Height(tail) then b else tail
       else forall x :: x in c'.tails && OnBranch(c.tree, c'.hqc, x) ==> c.Height(x) <= c.Height(tail')
  }

  lemma TailAfter(v: Variant, p: Replica, b: BlockId, p': Replica)
    requires SaneReplica(p) && AfterProposal(v, p, b, p') && b in p.core.tree && OnBranch(p.core.tree, p.core.hqc, p.tail)
    requires ReceiveProposal(v, p.core, b).error == None
    ensures p'.core.Valid() && p'.core.tree == p.core.tree && p'.tail in p.core.tree
    ensures TailMoved(p.core, p.tail, b, p'.core, p'.tail)
  {
    ReceiveProposalKeeps(v, p.core, b);
    var c' := p'.core;
    var tail :| AfterHqc(p.core, c', p.tail, tail) && tail in c'.tree && p'.tail == AfterReceive(c', b, tail);
  }

  lemma TailHandled(cfg: Config, s: System, s': System, r: ReplicaId, b: BlockId)
    requires cfg.Valid() && Inv(cfg, s) && Sane(s) && NextStep(cfg, s, s', HandleProposal(r, b))
    requires SaneReplica(s.replicas[r]) && b in s.replicas[r].core.tree
    ensures var p, p' := s.replicas[r], s'.replicas[r];
            && p'.core.Valid() && p'.core.tree == p.core.tree && p'.tail in p.core.tree
            && TailMoved(p.core, p.tail, b, p'.core, p'.tail)
  {
    assert ReplicaInv(cfg, s.net, r, s.replicas[r]);
    ReceivedExactly(cfg, s, r, b);
    TailAfter(cfg.v, s.replicas[r], b, s'.replicas[r]);
  }

  /** A correct replica that handles a block descending from its highest certified block, with a certificate
      on its own chain, has a tail at least as high afterwards. */
  lemma TailFollows(cfg: Config, s: System, s': System, r: ReplicaId, b: BlockId)
    requires cfg.Valid() && Inv(cfg, s) && Sane(s) && NextStep(cfg, s, s', HandleProposal(r, b))
    requires SaneReplica(s.replicas[r]) && b in s.replicas[r].core.tree
    requires OnBranch(s.replicas[r].core.tree, s.replicas[r].core.hqc, b)
    requires !cfg.v.twoStep || QcOnChain(s.replicas[r].core.tree, b)
    ensures s'.replicas[r].tail in s.replicas[r].core.tree
    ensures s.replicas[r].core.Height(s'.replicas[r].tail) >= s.replicas[r].core.Height(b)
  {
    TailHandled(cfg, s, s', r, b);
    ProposalHandled(cfg, s, s', r, b);
    assert ReplicaInv(cfg, s.net, r, s.replicas[r]);
    OwnChain(cfg, s.net, s.replicas[r].core.tree, b);
  }

  lemma OwnChain(cfg: Config, s: Net, t: Tree, b: BlockId)
    requires cfg.n > 0 && TreeInv(cfg, s) && ValidTree(t) && SubTree(t, s.tree) && b in t
    requires !cfg.v.twoStep || QcOnChain(t, b)
    ensures QcRef(t, b).Some? && b != GENESIS ==> OnBranch(t, QcRef(t, b).value, b)
    ensures b == GENESIS ==> QcRef(t, b) == Some(GENESIS)
  {
    assert t[b] == s.tree[b];
    if !cfg.v.twoStep && b != GENESIS && QcRef(t, b).Some? {
      assert QcOnChain(s.tree, b);
      OnBranchSub(t, s.tree, QcRef(t, b).value, Parent(t, b));
    }
  }

  // ---------------------------------------------------------------- own proposals

  /** Under its own lock a proposer accepts a block that carries its highest certificate and extends that. */
  lemma OwnAcceptable(cfg: Config, s: Net, r: ReplicaId, c: Core, b: BlockId)
    requires cfg.Valid() && TreeInv(cfg, s) && VoteRules(cfg, s) && CoreInv(c) && LinkInv(cfg, s, r, c) && b in c.tree
    requires QcRef(c.tree, b) == Some(c.hqc) && OnBranch(c.tree, c.hqc, b) && c.Height(b) > c.vheight
    ensures Acceptable(c, b, c.bLock)
  {
    if c.Height(c.hqc) == c.Height(c.bLock) {
      CertifiedByQc(cfg, s, c.hqcCert);
      CertifiedUniqueAtHeight(cfg, s, c.hqc, c.bLock);
    }
  }

  /** The outcome of handling an own block, in either order of voting and updating: refused exactly if it is
      not above `vheight`, and otherwise voted for, unless voting is disabled. */
  ghost predicate OwnHandled(v: Variant, c: Core, b: BlockId, o: Outcome)
    requires c.Valid() && b in c.tree
  {
    var refused := c.Height(b) <= c.vheight;
    && o.error == (if refused then Some(NotHigher) else None)
    && o.vote == (!refused && !c.voteDisabled)
    && o.core.vheight == (if refused then c.vheight else c.Height(b))
    && (!refused ==> UpdatedTo(v, c, b, o.core))
    && o.core.tree == c.tree && o.core.hqc == c.hqc && o.core.tails == c.tails
  }

  /** A proposer's state with the new block delivered. */
  ghost predicate OwnReady(cfg: Config, s: Net, r: ReplicaId, c: Core, b: BlockId)
    requires cfg.n > 0
  {
    && TreeInv(cfg, s) && VoteRules(cfg, s) && CoreInv(c) && LinkInv(cfg, s, r, c) && b in c.tree
    && QcRef(c.tree, b) == Some(c.hqc) && OnBranch(c.tree, c.hqc, b)
  }

  /** `update` on an own block. */
  lemma OwnUpdated(cfg: Config, s: Net, r: ReplicaId, c: Core, b: BlockId)
    requires cfg.Valid() && OwnReady(cfg, s, r, c, b)
    ensures var u := Update(cfg.v, c, b);
            && u.error == None && UpdatedTo(cfg.v, c, b, u.core) && OwnReady(cfg, s, r, u.core, b)
            && u.core.hqc == c.hqc && u.core.vheight == c.vheight && u.core.voteDisabled == c.voteDisabled && u.core.tails == c.tails
  {
    UpdateHere(cfg, s, r, c, b);
    TreeInvQcsSound(cfg, s);
    RulesAgreement(cfg, s);
    UpdateSafe(cfg, s, r, c, b);
  }

  lemma OwnVote(cfg: Config, s: Net, r: ReplicaId, c: Core, b: BlockId)
    requires cfg.Valid() && OwnReady(cfg, s, r, c, b)
    ensures CastVote(c, b) == if c.Height(b) > c.vheight then Outcome(c.(vheight := c.Height(b)), !c.voteDisabled, None) else Done(c)
  {
    CastVoteUnfold(c, b);
    OpinionExactly(c, b);
    if c.Height(b) > c.vheight { OwnAcceptable(cfg, s, r, c, b); }
  }

  lemma OwnBlockExactly(cfg: Config, s: Net, r: ReplicaId, c: Core, b: BlockId)
    requires cfg.Valid() && OwnReady(cfg, s, r, c, b)
    ensures OwnHandled(cfg.v, c, b, OwnBlock(cfg.v, c, b))
  {
    OwnVote(cfg, s, r, c, b);
    if !cfg.v.voteFirst {
      OwnUpdated(cfg, s, r, c, b);
      OwnVote(cfg, s, r, Update(cfg.v, c, b).core, b);
    } else if c.Height(b) > c.vheight {
      var c1 := c.(vheight := c.Height(b));
      VheightFrame(cfg, s, r, c, c.Height(b));
      OwnUpdated(cfg, s, r, c1, b);
    }
  }

  /** The replica's core after the delivery of a block proposed on its tail. */
  ghost predicate OwnDelivered(p: Replica, b: BlockId, cmds: seq<Cmd>, c: Core)
    requires SaneReplica(p)
  {
    var blk := Block([p.tail], cmds, Some(p.core.hqcCert), p.core.Height(p.tail) + 1);
    c.Valid() && c == p.core.(tree := p.core.tree[b := blk], tails := p.core.tails - {p.tail} + {b})
  }

  lemma DeliversOwn(v: Variant, p: Replica, b: BlockId, cmds: seq<Cmd>)
    requires SaneReplica(p) && b !in p.core.tree
    ensures var c := DeliverBlk(p.core, b, NewBlock(p.core, [p.tail], cmds));
            OwnDelivered(p, b, cmds, c) && b in c.tree && Propose(v, p.core, b, [p.tail], cmds) == OwnBlock(v, c, b)
  {
    assert Elements([p.tail]) == {p.tail};
    ProposeUnfold(v, p.core, b, [p.tail], cmds);
  }

  lemma ReadyOwn(cfg: Config, s: System, r: ReplicaId, b: BlockId, cmds: seq<Cmd>)
    requires cfg.Valid() && Inv(cfg, s) && Sane(s) && r in s.replicas && SaneReplica(s.replicas[r])
    requires b !in s.net.tree && b !in s.replicas[r].core.tree
    ensures var p := s.replicas[r];
            var blk := NewBlock(p.core, [p.tail], cmds);
            OwnReady(cfg, AddBlk(s.net, b, blk), r, DeliverBlk(p.core, b, blk), b)
  {
    var p := s.replicas[r];
    var blk := NewBlock(p.core, [p.tail], cmds);
    OwnBlockAdded(cfg, s, r, b, cmds);
    OwnBlockReady(cfg, AddBlk(s.net, b, blk), r, DeliverBlk(p.core, b, blk), p.tail, b);
  }

  /** Proposing, up to the vote: the block with the given commands on the tail, with the stored
      certificate, and how the proposer handles it. */
  lemma ProposeExactly(cfg: Config, s: System, r: ReplicaId, b: BlockId, cmds: seq<Cmd>) returns (c: Core)
    requires cfg.Valid() && Inv(cfg, s) && Sane(s) && r in s.replicas && SaneReplica(s.replicas[r])
    requires b !in s.net.tree && b !in s.replicas[r].core.tree
    ensures OwnDelivered(s.replicas[r], b, cmds, c) && b in c.tree
    ensures OwnHandled(cfg.v, c, b, Propose(cfg.v, s.replicas[r].core, b, [s.replicas[r].tail], cmds))
  {
    var p := s.replicas[r];
    c := DeliverBlk(p.core, b, NewBlock(p.core, [p.tail], cmds));
    DeliversOwn(cfg.v, p, b, cmds);
    ReadyOwn(cfg, s, r, b, cmds);
    OwnBlockExactly(cfg, AddBlk(s.net, b, NewBlock(s.replicas[r].core, [s.replicas[r].tail], cmds)), r, c, b);
  }

  /** A proposal over a run: the new block holds exactly the given commands, on the tail, with the stored
      certificate. It is refused exactly if the tail is lower than the highest block voted for; otherwise
      the proposer votes for it, unless voting is disabled, and goes on from it. */
  lemma ProposalMade(cfg: Config, s: System, s': System, r: ReplicaId, b: BlockId, cmds: seq<Cmd>)
    requires cfg.Valid() && Inv(cfg, s) && Sane(s) && NextStep(cfg, s, s', MakeProposal(r, b, cmds))
    requires SaneReplica(s.replicas[r])
    ensures var p, p' := s.replicas[r], s'.replicas[r];
            var blk := Block([p.tail], cmds, Some(p.core.hqcCert), p.core.Height(p.tail) + 1);
            && s'.net.tree == s.net.tree[b := blk] && p'.core.tree == p.core.tree[b := blk]
            && p'.core.hqc == p.core.hqc && p'.core.tails == p.core.tails - {p.tail} + {b}
    ensures var p, p' := s.replicas[r], s'.replicas[r];
            var refused := p.core.Height(p.tail) < p.core.vheight;
            && Propose(cfg.v, p.core, b, [p.tail], cmds).error == (if refused then Some(NotHigher) else None)
            && s'.net.votes == s.net.votes + (if refused || p.core.voteDisabled then {} else {(r, b)})
            && p'.core.vheight == (if refused then p.core.vheight else p.core.Height(p.tail) + 1)
            && p'.tail == (if refused then p.tail else b)
  {
    var c := ProposeExactly(cfg, s, r, b, cmds);
  }

  lemma OwnBlockReady(cfg: Config, s: Net, r: ReplicaId, c: Core, tail: BlockId, b: BlockId)
    requires cfg.Valid() && TreeInv(cfg, s) && VoteRules(cfg, s) && ReplicaInv(cfg, s, r, Replica(c, tail))
    requires b in c.tree && c.tree[b].qc == Some(c.hqcCert) && b != GENESIS && Parent(c.tree, b) == tail
    ensures OwnReady(cfg, s, r, c, b)
  {
    assert OnBranch(c.tree, tail, b);
    OnBranchTransitive(c.tree, c.hqc, tail, b);
  }

  ghost predicate Refused(v: Variant, p: Replica, b: BlockId, cmds: seq<Cmd>)
    requires SaneReplica(p)
  {
    b !in p.core.tree && Propose(v, p.core, b, [p.tail], cmds).error == Some(NotHigher)
  }

  /** After a delivered proposal the next own one is not refused exactly if the tail, which is where
      `TailHandled` says, is as high as the highest block voted for. That is so after a vote for a block
      that descends from the highest certified one, and after no vote if it was so before and the
      certified block did not change. */
  lemma NextProposal(cfg: Config, s: System, s': System, s'': System, r: ReplicaId, b: BlockId, next: BlockId, cmds: seq<Cmd>)
    requires cfg.Valid() && Inv(cfg, s) && Sane(s) && NextStep(cfg, s, s', HandleProposal(r, b))
    requires SaneReplica(s.replicas[r]) && b in s.replicas[r].core.tree
    requires Sane(s') && NextStep(cfg, s', s'', MakeProposal(r, next, cmds)) && SaneReplica(s'.replicas[r])
    ensures var p, p' := s.replicas[r], s'.replicas[r];
            var refused := Refused(cfg.v, p', next, cmds);
            && (refused <==> p'.core.Height(p'.tail) < p'.core.vheight)
            && (p'.core.vheight <= p.core.Height(b) && OnBranch(p.core.tree, p'.core.hqc, b) ==> !refused)
            && (p'.core.vheight > p.core.vheight ==> (refused <==> p'.core.Height(p'.tail) < p.core.Height(b)))
            && (p'.core.vheight == p.core.vheight <= p.core.Height(p.tail) && p'.core.hqc == p.core.hqc ==> !refused)
  {
    ProposalStep(cfg, s, s', r, b);
    TailHandled(cfg, s, s', r, b);
    ProposalHandled(cfg, s, s', r, b);
    ProposalMade(cfg, s', s'', r, next, cmds);
  }

  // ---------------------------------------------------------------- quorums

  /** The fault bound is the largest one below a third of the replicas, and the correct replicas alone are
      always a majority. */
  lemma QuorumSizes(cfg: Config)
    requires cfg.Valid()
    ensures 3 * cfg.NFaulty() < cfg.n <= 3 * cfg.NFaulty() + 3
    ensures cfg.NMajority() == cfg.n - cfg.NFaulty() <= |cfg.Replicas() - cfg.faulty|
  {
    assert cfg.Replicas() == (cfg.Replicas() - cfg.faulty) + cfg.faulty;
  }
}
