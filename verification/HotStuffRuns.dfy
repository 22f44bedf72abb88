/** Every step of every participant keeps the invariant of module `HotStuff`; the safety theorems
    over whole runs follow. */
module HotStuffRuns {
  import opened BlockTree
  import opened Sequences
  import opened Consensus
  import opened HotStuff

  // ---------------------------------------------------------------- growth of tree and votes

  ghost predicate Grows(s: Net, s': Net) {
    ValidTree(s.tree) && CertsExist(s.tree) && ValidTree(s'.tree) && SubTree(s.tree, s'.tree) && s.votes <= s'.votes
  }

  lemma CertifiedGrows(cfg: Config, s: Net, s': Net, b: BlockId)
    requires cfg.n > 0 && Grows(s, s') && Certified(cfg, s, b)
    ensures Certified(cfg, s', b)
  {
    FewerOf(Voters(s, b) * cfg.Replicas(), Voters(s', b) * cfg.Replicas());
  }

  lemma QcValidGrows(cfg: Config, s: Net, s': Net, qc: QC)
    requires cfg.n > 0 && Grows(s, s') && QcValid(cfg, s, qc)
    ensures QcValid(cfg, s', qc)
  {
  }

  lemma CommittedGrows(cfg: Config, s: Net, s': Net, b: BlockId)
    requires cfg.n > 0 && Grows(s, s') && Committed(cfg, s, b)
    ensures Committed(cfg, s', b)
  {
    if b != GENESIS {
      var mid, top :| CommitRule(cfg, s, b, mid, top);
      CertifiedGrows(cfg, s, s', top);
      assert CommitRule(cfg, s', b, mid, top);
    }
  }

  lemma LockHeightGrows(v: Variant, t: Tree, u: Tree, x: BlockId)
    requires ValidTree(t) && CertsExist(t) && ValidTree(u) && SubTree(t, u) && x in t
    ensures LockHeight(v, u, x) == LockHeight(v, t, x)
  {
  }

  lemma JustifiedGrows(cfg: Config, s: Net, s': Net, w: BlockId, h: nat)
    requires cfg.n > 0 && Grows(s, s') && Justified(cfg, s, w, h)
    ensures Justified(cfg, s', w, h)
  {
    var y :| OnBranch(s.tree, y, w) && y != w && s.tree[y].height >= h && Certified(cfg, s, y);
    CertifiedGrows(cfg, s, s', y);
    OnBranchSub(s.tree, s'.tree, y, w);
  }

  lemma VotesAgreeGrows(cfg: Config, s: Net, s': Net, x: BlockId, w: BlockId)
    requires cfg.n > 0 && Grows(s, s') && VotesAgree(cfg, s, x, w) && x in s.tree && w in s.tree
    ensures VotesAgree(cfg, s', x, w)
  {
    LockHeightGrows(cfg.v, s.tree, s'.tree, x);
    if Certified(cfg, s, w) {
      CertifiedGrows(cfg, s, s', w);
    } else if s.tree[x].height < s.tree[w].height {
      JustifiedGrows(cfg, s, s', w, LockHeight(cfg.v, s.tree, x));
    }
  }

  lemma VoteInvGrows(cfg: Config, s: Net, s': Net, r: ReplicaId, c: Core)
    requires cfg.n > 0 && Grows(s, s') && c.Valid() && VoteInv(cfg, s, r, c)
    requires forall x :: (r, x) in s'.votes ==> (r, x) in s.votes
    ensures VoteInv(cfg, s', r, c)
  {
    forall x | (r, x) in s'.votes
      ensures x in s'.tree && s'.tree[x].height <= c.vheight
      ensures LockHeight(cfg.v, s'.tree, x) <= c.Height(c.bLock)
    {
      LockHeightGrows(cfg.v, s.tree, s'.tree, x);
    }
    forall x, w | (r, x) in s'.votes && (r, w) in s'.votes ensures VotesAgree(cfg, s', x, w) {
      VotesAgreeGrows(cfg, s, s', x, w);
    }
  }

  /** A step of others leaves a replica's part of the invariant alone. */
  lemma ReplicaInvGrows(cfg: Config, s: Net, s': Net, r: ReplicaId, p: Replica)
    requires cfg.n > 0 && Grows(s, s') && ReplicaInv(cfg, s, r, p)
    requires forall x :: (r, x) in s'.votes ==> (r, x) in s.votes
    ensures ReplicaInv(cfg, s', r, p)
  {
    LinkInvGrows(cfg, s, s', r, p.core);
    VoteInvGrows(cfg, s, s', r, p.core);
  }

  lemma LinkInvGrows(cfg: Config, s: Net, s': Net, r: ReplicaId, c: Core)
    requires cfg.n > 0 && Grows(s, s') && c.Valid() && LinkInv(cfg, s, r, c)
    ensures LinkInv(cfg, s', r, c)
  {
    CertifiedGrows(cfg, s, s', c.bLock);
    CommittedGrows(cfg, s, s', c.bExec);
  }

  // ---------------------------------------------------------------- update

  /** Each certificate in the tree is about a certified block; in the three-step protocol that is
      below the block carrying it. */
  ghost predicate QcsSound(cfg: Config, s: Net)
    requires cfg.n > 0 && ValidTree(s.tree)
  {
    && (cfg.v.twoStep || WellFormed(s.tree))
    && forall b {:trigger QcRef(s.tree, b)} :: b in s.tree && QcRef(s.tree, b).Some? ==>
         var q := QcRef(s.tree, b).value;
         && q in s.tree && QcValid(cfg, s, s.tree[b].qc.value) && Certified(cfg, s, q)
         && (b == GENESIS || cfg.v.twoStep || s.tree[q].height < s.tree[b].height)
  }

  lemma TreeInvQcsSound(cfg: Config, s: Net)
    requires cfg.n > 0 && TreeInv(cfg, s)
    ensures QcsSound(cfg, s)
  {
    forall b | b in s.tree && QcRef(s.tree, b).Some?
      ensures var q := QcRef(s.tree, b).value;
              && q in s.tree && QcValid(cfg, s, s.tree[b].qc.value) && Certified(cfg, s, q)
              && (b == GENESIS || cfg.v.twoStep || s.tree[q].height < s.tree[b].height)
    {
      CertifiedByQc(cfg, s, s.tree[b].qc.value);
      if b != GENESIS && !cfg.v.twoStep { assert QcOnChain(s.tree, b); QcRefFacts(cfg, s, b); }
    }
  }

  /** Committing a block that meets the commit rule never breaches safety. */
  lemma CommitSafe(cfg: Config, s: Net, r: ReplicaId, c: Core, b: BlockId, mid: BlockId, top: BlockId)
    requires cfg.n > 0 && ValidTree(s.tree) && Agreement(cfg, s) && CoreInv(c) && LinkInv(cfg, s, r, c)
    requires CommitRule(cfg, s, b, mid, top)
    requires b in c.tree && b !in c.decided && c.Height(b) <= c.Height(c.bLock)
    ensures Commit(c, b).error == None
    ensures CoreInv(Commit(c, b).core) && LinkInv(cfg, s, r, Commit(c, b).core)
  {
    var t := c.tree;
    assert Committed(cfg, s, b);
    OnBranchSub(t, s.tree, c.bExec, b);
    OnBranchSub(t, s.tree, b, c.bExec);
    assert OnBranch(t, c.bExec, b);
    var c' := Commit(c, b).core;
    forall x ensures x in c'.decided <==> OnBranch(t, x, b) {
      ChainUpMembers(t, b, c.Height(c.bExec), x);
      if x in c.decided {
        OnBranchTransitive(t, x, c.bExec, b);
      } else if OnBranch(t, x, b) && c.Height(x) <= c.Height(c.bExec) {
        OnBranchComparable(t, x, c.bExec, b);
      }
    }
    ChainUpSplit(t, b, c.bExec, 0);
    assert Committed(cfg, s, b);
  }

  /** What `update` does, given that it starts in a state satisfying the invariant. */
  ghost predicate Updated(cfg: Config, s: Net, r: ReplicaId, c: Core, b: BlockId, o: Outcome)
    requires cfg.n > 0 && ValidTree(s.tree) && c.Valid()
  {
    && o.error == None
    && o.core.tree == c.tree
    && CoreInv(o.core) && LinkInv(cfg, s, r, o.core)
    && o.core.vheight == c.vheight && o.core.voteDisabled == c.voteDisabled && o.core.tails == c.tails
    && o.core.Height(o.core.bLock) >= c.Height(c.bLock)
    && (Asked(cfg.v, c.tree, b).Some? ==> o.core.Height(o.core.bLock) >= c.Height(Asked(cfg.v, c.tree, b).value))
    && o.core.Height(o.core.bLock) >= LockHeight(cfg.v, s.tree, b)
    && (o.core.hqc == c.hqc || QcRef(c.tree, b) == Some(o.core.hqc))
    && o.core.Height(o.core.hqc) >= c.Height(c.hqc)
  }

  lemma DecidedBelowLock(c: Core, x: BlockId)
    requires CoreInv(c) && x in c.decided
    ensures x in c.tree && c.Height(x) <= c.Height(c.bLock)
  {
    assert OnBranch(c.tree, x, c.bExec);
  }

  function Lock(c: Core, mid: BlockId): (r: Core)
    requires c.Valid() && mid in c.tree
    ensures r.Valid() && r.tree == c.tree
  {
    if c.Height(mid) > c.Height(c.bLock) then c.(bLock := mid) else c
  }

  lemma LockSafe(cfg: Config, s: Net, r: ReplicaId, c: Core, mid: BlockId)
    requires cfg.n > 0 && ValidTree(s.tree) && CoreInv(c) && LinkInv(cfg, s, r, c)
    requires mid in c.tree && Certified(cfg, s, mid) && c.Height(mid) <= c.Height(c.hqc)
    ensures CoreInv(Lock(c, mid)) && LinkInv(cfg, s, r, Lock(c, mid))
  {
  }

  /** What locking and committing may change. */
  ghost predicate OnlyCommits(c: Core, c': Core) {
    && c'.tree == c.tree && c'.bLock == c.bLock && c'.hqc == c.hqc && c'.hqcCert == c.hqcCert && c'.tails == c.tails
    && c'.vheight == c.vheight && c'.voteDisabled == c.voteDisabled
  }

  lemma LockAndCommitFrame(c: Core, mid: BlockId, direct: bool)
    requires c.Valid() && mid in c.tree && mid != GENESIS
    ensures OnlyCommits(Lock(c, mid), LockAndCommit(c, mid, direct).core)
  {
  }

  /** The block that `LockAndCommit` goes on to commit, if it gets that far. */
  function CommitTarget(c: Core, mid: BlockId, direct: bool): Option<BlockId>
    requires c.Valid() && mid in c.tree && mid != GENESIS
  {
    match QcRef(c.tree, mid)
    case Some(b) => if b !in c.decided && direct && Parent(c.tree, mid) == b then Some(b) else None
    case None => None
  }

  lemma LockAndCommitUnfold(c: Core, mid: BlockId, direct: bool)
    requires c.Valid() && mid in c.tree && mid != GENESIS
    ensures var b := CommitTarget(c, mid, direct);
            LockAndCommit(c, mid, direct) == if b.Some? then Commit(Lock(c, mid), b.value) else Done(Lock(c, mid))
  {
  }

  lemma TargetSafe(cfg: Config, s: Net, r: ReplicaId, c: Core, mid: BlockId, top: BlockId, b: BlockId)
    requires cfg.n > 0 && ValidTree(s.tree) && Agreement(cfg, s) && CoreInv(c) && LinkInv(cfg, s, r, c)
    requires mid in c.tree && mid != GENESIS && top in c.tree && top != GENESIS
    requires Certified(cfg, s, top)
    requires if cfg.v.twoStep then mid == top else QcRef(s.tree, top) == Some(mid)
    requires c.Height(mid) <= c.Height(c.bLock)
    requires CommitTarget(c, mid, cfg.v.twoStep || Parent(c.tree, top) == mid) == Some(b)
    ensures Commit(c, b).error == None
    ensures CoreInv(Commit(c, b).core) && LinkInv(cfg, s, r, Commit(c, b).core)
  {
    CommitRuleHolds(cfg, s, c.tree, b, mid, top);
    CommitSafe(cfg, s, r, c, b, mid, top);
  }

  lemma LockAndCommitSafe(cfg: Config, s: Net, r: ReplicaId, c: Core, mid: BlockId, top: BlockId)
    requires cfg.n > 0 && ValidTree(s.tree) && Agreement(cfg, s) && CoreInv(c) && LinkInv(cfg, s, r, c)
    requires mid in c.tree && mid != GENESIS && top in c.tree && top != GENESIS
    requires Certified(cfg, s, top) && Certified(cfg, s, mid)
    requires if cfg.v.twoStep then mid == top else QcRef(s.tree, top) == Some(mid)
    requires c.Height(mid) <= c.Height(c.hqc)
    ensures var o := LockAndCommit(c, mid, cfg.v.twoStep || Parent(c.tree, top) == mid);
            o.error == None && CoreInv(o.core) && LinkInv(cfg, s, r, o.core)
  {
    var direct := cfg.v.twoStep || Parent(c.tree, top) == mid;
    LockSafe(cfg, s, r, c, mid);
    LockAndCommitUnfold(c, mid, direct);
    var b := CommitTarget(c, mid, direct);
    if b.Some? {
      TargetSafe(cfg, s, r, Lock(c, mid), mid, top, b.value);
    }
  }

  lemma CommitRuleHolds(cfg: Config, s: Net, t: Tree, b: BlockId, mid: BlockId, top: BlockId)
    requires cfg.n > 0 && ValidTree(s.tree) && ValidTree(t) && SubTree(t, s.tree)
    requires mid in t && mid != GENESIS && top in t && top != GENESIS && Certified(cfg, s, top)
    requires if cfg.v.twoStep then mid == top else QcRef(s.tree, top) == Some(mid) && Parent(t, top) == mid
    requires QcRef(t, mid) == Some(b) && Parent(t, mid) == b
    ensures CommitRule(cfg, s, b, mid, top)
  {
  }

  lemma UpdateHqcSafe(cfg: Config, s: Net, r: ReplicaId, c: Core, b: BlockId, qc: QC)
    requires cfg.n > 0 && ValidTree(s.tree) && CoreInv(c) && LinkInv(cfg, s, r, c)
    requires b in c.tree && qc.obj == b && QcValid(cfg, s, qc)
    ensures var c1 := UpdateHqc(c, b, qc);
            CoreInv(c1) && LinkInv(cfg, s, r, c1) && c1.Height(b) <= c1.Height(c1.hqc)
  {
  }

  /** The three-step part of `update` below the highest certificate. */
  function LockBelowTop(c: Core, top: BlockId): (o: Outcome)
    requires c.Valid() && top in c.tree && top != GENESIS
    ensures o.core.Valid() && o.core.tree == c.tree
  {
    match QcRef(c.tree, top)
    case None => Done(c)
    case Some(mid) =>
      if mid in c.decided then Done(c)
      else LockAndCommit(c, mid, Parent(c.tree, top) == mid)
  }

  /** What the part of `update` after the highest-QC update does. */
  ghost predicate Locked(c: Core, o: Outcome, lock: Option<BlockId>) {
    && o.error == None
    && o.core.tree == c.tree && o.core.hqc == c.hqc && o.core.tails == c.tails
    && o.core.vheight == c.vheight && o.core.voteDisabled == c.voteDisabled
    && c.bLock in c.tree && o.core.bLock in c.tree
    && (o.core.bLock == c.bLock || (lock == Some(o.core.bLock) && c.Height(o.core.bLock) > c.Height(c.bLock)))
    && c.Height(o.core.bLock) >= c.Height(c.bLock)
    && (lock.Some? && lock.value in c.tree ==> c.Height(o.core.bLock) >= c.Height(lock.value))
  }

  /** A handler outcome that keeps a replica's invariant and locked as `lock` asks. */
  ghost predicate Fine(cfg: Config, s: Net, r: ReplicaId, c: Core, o: Outcome, lock: Option<BlockId>)
    requires cfg.n > 0 && ValidTree(s.tree)
  {
    Locked(c, o, lock) && CoreInv(o.core) && LinkInv(cfg, s, r, o.core)
  }

  lemma LockAndCommitFine(cfg: Config, s: Net, r: ReplicaId, c: Core, mid: BlockId, top: BlockId)
    requires cfg.n > 0 && ValidTree(s.tree) && Agreement(cfg, s) && CoreInv(c) && LinkInv(cfg, s, r, c)
    requires mid in c.tree && mid != GENESIS && top in c.tree && top != GENESIS
    requires Certified(cfg, s, top) && Certified(cfg, s, mid)
    requires if cfg.v.twoStep then mid == top else QcRef(s.tree, top) == Some(mid)
    requires c.Height(mid) <= c.Height(c.hqc)
    ensures Fine(cfg, s, r, c, LockAndCommit(c, mid, cfg.v.twoStep || Parent(c.tree, top) == mid), Some(mid))
  {
    LockAndCommitSafe(cfg, s, r, c, mid, top);
    LockAndCommitLocks(c, mid, cfg.v.twoStep || Parent(c.tree, top) == mid);
  }

  lemma LockAndCommitLocks(c: Core, mid: BlockId, direct: bool)
    requires c.Valid() && mid in c.tree && mid != GENESIS && LockAndCommit(c, mid, direct).error == None
    ensures Locked(c, LockAndCommit(c, mid, direct), Some(mid))
  {
    LockAndCommitFrame(c, mid, direct);
  }

  lemma DoneFine(cfg: Config, s: Net, r: ReplicaId, c: Core, lock: Option<BlockId>)
    requires cfg.n > 0 && ValidTree(s.tree) && CoreInv(c) && LinkInv(cfg, s, r, c)
    requires lock.Some? ==> lock.value in c.decided
    ensures Fine(cfg, s, r, c, Done(c), lock)
  {
    if lock.Some? { DecidedBelowLock(c, lock.value); }
  }

  lemma LockBelowTopFine(cfg: Config, s: Net, r: ReplicaId, c: Core, top: BlockId)
    requires cfg.n > 0 && ValidTree(s.tree) && QcsSound(cfg, s) && Agreement(cfg, s) && CoreInv(c) && LinkInv(cfg, s, r, c)
    requires !cfg.v.twoStep && top in c.tree && top != GENESIS && Certified(cfg, s, top)
    requires c.Height(top) <= c.Height(c.hqc)
    ensures Fine(cfg, s, r, c, LockBelowTop(c, top), QcRef(c.tree, top))
  {
    var lock := QcRef(c.tree, top);
    if lock.Some? && lock.value !in c.decided {
      assert QcRef(s.tree, top) == lock;
      var mid := lock.value;
      assert s.tree[mid] == c.tree[mid] && Certified(cfg, s, mid);
      LockAndCommitFine(cfg, s, r, c, mid, top);
    } else {
      DoneFine(cfg, s, r, c, lock);
    }
  }

  lemma UpdateUnfold(v: Variant, c: Core, b: BlockId)
    requires c.Valid() && b in c.tree && QcRef(c.tree, b).Some? && QcRef(c.tree, b).value !in c.decided
    ensures var top := QcRef(c.tree, b).value;
            var c1 := UpdateHqc(c, top, c.tree[b].qc.value);
            Update(v, c, b) == BelowTop(v, c1, top)
  {
  }

  /** What a block is sure to ask for has been delivered together with it. */
  lemma AskedHere(cfg: Config, s: Net, t: Tree, b: BlockId)
    requires cfg.n > 0 && ValidTree(s.tree) && QcsSound(cfg, s) && ValidTree(t) && SubTree(t, s.tree) && b in t
    ensures LockOf(cfg.v, s.tree, b).Some? ==> Asked(cfg.v, t, b) == LockOf(cfg.v, s.tree, b)
  {
    assert s.tree[b] == t[b];
    if b == GENESIS {
      assert QcRef(t, b) == Some(GENESIS);
    } else if cfg.v.twoStep {
      assert Parent(t, b) in t;
    } else {
      RefHere(s.tree, t, b);
      if QcRef(t, b).Some? && QcRef(t, b).value != GENESIS { RefHere(s.tree, t, QcRef(t, b).value); }
    }
  }

  lemma RefHere(u: Tree, t: Tree, b: BlockId)
    requires WellFormed(u) && ValidTree(t) && SubTree(t, u) && b in t && b != GENESIS
    ensures QcRef(t, b) == QcRef(u, b)
  {
    assert t[b] == u[b] && QcOnChain(u, b);
    if QcRef(u, b).Some? { AncestorHere(t, u, QcRef(u, b).value, Parent(t, b)); }
  }

  lemma UpdatedFromFine(cfg: Config, s: Net, r: ReplicaId, c: Core, c1: Core, b: BlockId, o: Outcome)
    requires cfg.n > 0 && ValidTree(s.tree) && QcsSound(cfg, s) && c.Valid()
    requires SubTree(c.tree, s.tree) && b in c.tree
    requires Fine(cfg, s, r, c1, o, Asked(cfg.v, c.tree, b))
    requires c1 == c.(hqc := c1.hqc, hqcCert := c1.hqcCert)
    requires c1.hqc in c.tree && c1.Height(c1.hqc) >= c.Height(c.hqc)
    requires c1.hqc == c.hqc || QcRef(c.tree, b) == Some(c1.hqc)
    ensures Updated(cfg, s, r, c, b, o)
  {
    AskedHere(cfg, s, c.tree, b);
  }

  /** `update` keeps the invariant and cannot throw. */
  lemma UpdateSafe(cfg: Config, s: Net, r: ReplicaId, c: Core, b: BlockId)
    requires cfg.n > 0 && ValidTree(s.tree) && QcsSound(cfg, s) && Agreement(cfg, s)
    requires CoreInv(c) && LinkInv(cfg, s, r, c) && b in c.tree
    ensures Updated(cfg, s, r, c, b, Update(cfg.v, c, b))
  {
    assert s.tree[b] == c.tree[b];
    var topRef := QcRef(c.tree, b);
    if topRef.Some? && topRef.value !in c.decided {
      UpdateSafeUndecided(cfg, s, r, c, b);
    } else {
      UpdateDecided(cfg, s, c, b);
    }
  }

  lemma BelowTopFine(cfg: Config, s: Net, r: ReplicaId, c: Core, b: BlockId, top: BlockId)
    requires cfg.n > 0 && ValidTree(s.tree) && QcsSound(cfg, s) && Agreement(cfg, s)
    requires CoreInv(c) && LinkInv(cfg, s, r, c)
    requires QcRef(c.tree, b) == Some(top) && top in c.tree && top != GENESIS && Certified(cfg, s, top)
    requires c.Height(top) <= c.Height(c.hqc)
    ensures Fine(cfg, s, r, c, BelowTop(cfg.v, c, top), Asked(cfg.v, c.tree, b))
  {
    if cfg.v.twoStep {
      LockAndCommitFine(cfg, s, r, c, top, top);
    } else {
      LockBelowTopFine(cfg, s, r, c, top);
    }
  }

  function BelowTop(v: Variant, c: Core, top: BlockId): (o: Outcome)
    requires c.Valid() && top in c.tree && top != GENESIS
    ensures o.core.Valid() && o.core.tree == c.tree
  {
    if v.twoStep then LockAndCommit(c, top, true) else LockBelowTop(c, top)
  }

  lemma UpdateSafeUndecided(cfg: Config, s: Net, r: ReplicaId, c: Core, b: BlockId)
    requires cfg.n > 0 && ValidTree(s.tree) && QcsSound(cfg, s) && Agreement(cfg, s)
    requires CoreInv(c) && LinkInv(cfg, s, r, c) && b in c.tree
    requires QcRef(c.tree, b).Some? && QcRef(c.tree, b).value !in c.decided
    ensures Updated(cfg, s, r, c, b, Update(cfg.v, c, b))
  {
    var top, qc := QcRef(c.tree, b).value, c.tree[b].qc.value;
    assert s.tree[b] == c.tree[b] && QcRef(s.tree, b) == Some(top) && s.tree[top] == c.tree[top];
    UpdateHqcSafe(cfg, s, r, c, top, qc);
    var o := UpdateTop(cfg, s, r, c, UpdateHqc(c, top, qc), b, top);
    UpdateUnfold(cfg.v, c, b);
  }

  lemma UpdateTop(cfg: Config, s: Net, r: ReplicaId, c: Core, c1: Core, b: BlockId, top: BlockId) returns (o: Outcome)
    requires cfg.n > 0 && ValidTree(s.tree) && QcsSound(cfg, s) && Agreement(cfg, s)
    requires c.Valid() && SubTree(c.tree, s.tree) && b in c.tree
    requires CoreInv(c1) && LinkInv(cfg, s, r, c1)
    requires c1 == c.(hqc := c1.hqc, hqcCert := c1.hqcCert) && c1.Height(c1.hqc) >= c.Height(c.hqc)
    requires c1.hqc == c.hqc || c1.hqc == top
    requires QcRef(c.tree, b) == Some(top) && top in c1.tree && top != GENESIS && Certified(cfg, s, top)
    requires c1.Height(top) <= c1.Height(c1.hqc)
    ensures o == BelowTop(cfg.v, c1, top)
    ensures Updated(cfg, s, r, c, b, o)
  {
    BelowTopFine(cfg, s, r, c1, b, top);
    o := BelowTop(cfg.v, c1, top);
    UpdatedFromFine(cfg, s, r, c, c1, b, o);
  }

  /** When the certified block is already decided, or not delivered, the lock is high enough already. */
  lemma UpdateDecided(cfg: Config, s: Net, c: Core, b: BlockId)
    requires cfg.n > 0 && ValidTree(s.tree) && QcsSound(cfg, s) && CoreInv(c) && SubTree(c.tree, s.tree) && b in c.tree
    requires QcRef(c.tree, b).Some? ==> QcRef(c.tree, b).value in c.decided
    ensures LockHeight(cfg.v, s.tree, b) <= c.Height(c.bLock)
    ensures Asked(cfg.v, c.tree, b).Some? ==> c.Height(Asked(cfg.v, c.tree, b).value) <= c.Height(c.bLock)
  {
    AskedHere(cfg, s, c.tree, b);
    if QcRef(c.tree, b).Some? {
      var top := QcRef(c.tree, b).value;
      DecidedBelowLock(c, top);
      assert QcRef(c.tree, top).Some? ==> QcRef(s.tree, top) == QcRef(c.tree, top);
    }
  }
}
