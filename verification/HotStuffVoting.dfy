/** Voting, delivering and proposing keep the invariant. */
module HotStuffVoting {
  import opened BlockTree
  import opened Consensus
  import opened HotStuff
  import opened HotStuffRuns

  // ---------------------------------------------------------------- casting a vote

  /** What a vote for `b` rests on, cast under a lock of height `h`. */
  ghost predicate Reasoned(cfg: Config, s: Net, b: BlockId, h: nat)
    requires cfg.n > 0 && ValidTree(s.tree)
  {
    Justified(cfg, s, b, h) || Certified(cfg, s, b)
  }

  lemma NewVoteKeepsVoteInv(cfg: Config, s: Net, s': Net, r: ReplicaId, c: Core, c': Core, b: BlockId)
    requires cfg.n > 0 && ValidTree(s.tree) && CertsExist(s.tree) && c.Valid() && c'.Valid() && VoteInv(cfg, s, r, c)
    requires s' == s.(votes := s.votes + {(r, b)}) && b in s.tree
    requires s.tree[b].height > c.vheight && c'.vheight == s.tree[b].height
    requires c'.Height(c'.bLock) >= c.Height(c.bLock) && c'.Height(c'.bLock) >= LockHeight(cfg.v, s.tree, b)
    requires Reasoned(cfg, s, b, c.Height(c.bLock))
    ensures VoteInv(cfg, s', r, c')
  {
    forall x, w | (r, x) in s'.votes && (r, w) in s'.votes ensures VotesAgree(cfg, s', x, w) {
      if x != b && w != b {
        VotesAgreeGrows(cfg, s, s', x, w);
      } else if x != b && Certified(cfg, s, b) {
        CertifiedGrows(cfg, s, s', b);
      } else if x != b {
        JustifiedGrows(cfg, s, s', b, c.Height(c.bLock));
        var y :| OnBranch(s.tree, y, b) && y != b && s.tree[y].height >= c.Height(c.bLock) && Certified(cfg, s', y);
        assert Justified(cfg, s', b, LockHeight(cfg.v, s.tree, x));
      }
    }
  }

  lemma NoVoteKeepsVoteInv(cfg: Config, s: Net, r: ReplicaId, c: Core, c': Core)
    requires cfg.n > 0 && ValidTree(s.tree) && c.Valid() && c'.Valid() && VoteInv(cfg, s, r, c)
    requires c'.vheight >= c.vheight && c'.Height(c'.bLock) >= c.Height(c.bLock)
    ensures VoteInv(cfg, s, r, c')
  {
  }

  /** A block whose certificate can be relied on when voting: it is about a proper ancestor, or, in
      the two-step protocol, the lock is as high already. */
  ghost predicate QcHarmless(cfg: Config, s: Net, c: Core, b: BlockId)
    requires cfg.n > 0 && ValidTree(s.tree) && c.Valid() && b in s.tree
  {
    QcOnChain(s.tree, b) || (QcRef(c.tree, b).Some? ==> c.Height(QcRef(c.tree, b).value) <= c.Height(c.bLock))
  }

  /** The vote rule accepts a block only with a certified proper ancestor as high as the lock, or one
      that is certified already. */
  lemma OpinionJustifies(cfg: Config, s: Net, r: ReplicaId, c: Core, b: BlockId)
    requires cfg.n > 0 && TreeInv(cfg, s) && c.Valid() && LinkInv(cfg, s, r, c)
    requires b in c.tree && Opinion(c, b) && b in s.tree && QcHarmless(cfg, s, c, b)
    ensures Reasoned(cfg, s, b, c.Height(c.bLock))
  {
    assert c.tree[b] == s.tree[b] && b != GENESIS;
    var q := QcRef(c.tree, b);
    if q.Some? && c.Height(q.value) > c.Height(c.bLock) {
      assert QcRef(s.tree, b) == q;
      assert QcOnChain(s.tree, b);
      QcRefFacts(cfg, s, b);
    } else {
      assert OnBranch(c.tree, c.bLock, b);
      OnBranchSub(c.tree, s.tree, c.bLock, b);
    }
  }

  /** Adding a vote of a faulty replica, or a reasoned one of a correct replica. */
  lemma AddVoteBacked(cfg: Config, s: Net, s': Net, r: ReplicaId, b: BlockId)
    requires cfg.n > 0 && TreeInv(cfg, s) && VoteRules(cfg, s) && b in s.tree
    requires s' == s.(votes := s.votes + {(r, b)})
    requires r !in cfg.faulty ==> forall x :: (r, x) in s.votes ==> VoteAbove(cfg, s, x, b)
    ensures CertsBacked(cfg, s')
  {
    forall w | w != GENESIS && Certified(cfg, s', w) ensures exists q :: Backed(cfg, s', w, q) {
      if Certified(cfg, s, w) {
        var q :| Backed(cfg, s, w, q);
        StillBacked(cfg, s, s', r, b, w, q);
      } else {
        assert w != b ==> Voters(s', w) == Voters(s, w);
        NewlyBacked(cfg, s, s', r, b);
      }
    }
  }

  /** How a new vote for `b` stands to an earlier one for `x`. */
  ghost predicate VoteAbove(cfg: Config, s: Net, x: BlockId, b: BlockId)
    requires cfg.n > 0 && ValidTree(s.tree)
  {
    x in s.tree && b in s.tree && s.tree[x].height < s.tree[b].height && Reasoned(cfg, s, b, LockHeight(cfg.v, s.tree, x))
  }

  lemma StillBacked(cfg: Config, s: Net, s': Net, r: ReplicaId, b: BlockId, w: BlockId, q: set<ReplicaId>)
    requires cfg.n > 0 && ValidTree(s.tree) && CertsExist(s.tree) && b in s.tree && s' == s.(votes := s.votes + {(r, b)})
    requires r !in cfg.faulty ==> forall x :: (r, x) in s.votes ==> VoteAbove(cfg, s, x, b)
    requires Backed(cfg, s, w, q)
    ensures Backed(cfg, s', w, q)
  {
    forall p, x | p in q - cfg.faulty && (p, x) in s'.votes && x in s.tree && s.tree[x].height < s.tree[w].height
      ensures Justified(cfg, s', w, LockHeight(cfg.v, s.tree, x))
    {
      assert (p, w) in s.votes;
      if p == r { assert VoteAbove(cfg, s, w, b); }
      JustifiedGrows(cfg, s, s', w, LockHeight(cfg.v, s.tree, x));
    }
  }

  lemma NewlyBacked(cfg: Config, s: Net, s': Net, r: ReplicaId, b: BlockId)
    requires cfg.n > 0 && TreeInv(cfg, s) && VoteRules(cfg, s) && b in s.tree
    requires s' == s.(votes := s.votes + {(r, b)})
    requires r !in cfg.faulty ==> forall x :: (r, x) in s.votes ==> VoteAbove(cfg, s, x, b)
    requires Certified(cfg, s', b) && !Certified(cfg, s, b)
    ensures Backed(cfg, s', b, Voters(s', b) * cfg.Replicas())
  {
    forall p, x | p in Voters(s', b) * cfg.Replicas() - cfg.faulty && (p, x) in s'.votes && x in s.tree
                  && s.tree[x].height < s.tree[b].height
      ensures Justified(cfg, s', b, LockHeight(cfg.v, s.tree, x))
    {
      assert x != b && (p, x) in s.votes;
      if p == r {
        assert VoteAbove(cfg, s, x, b);
      } else {
        assert (p, b) in s.votes;
        assert VotesAgree(cfg, s, x, b);
      }
      JustifiedGrows(cfg, s, s', b, LockHeight(cfg.v, s.tree, x));
    }
  }

  /** The votes a replica may cast keep every certificate backed. */
  lemma NewVoteBacked(cfg: Config, s: Net, s': Net, r: ReplicaId, c: Core, b: BlockId)
    requires cfg.n > 0 && TreeInv(cfg, s) && VoteRules(cfg, s) && c.Valid() && VoteInv(cfg, s, r, c)
    requires s' == s.(votes := s.votes + {(r, b)}) && b in s.tree && s.tree[b].height > c.vheight
    requires Reasoned(cfg, s, b, c.Height(c.bLock))
    ensures CertsBacked(cfg, s')
  {
    forall x | (r, x) in s.votes ensures VoteAbove(cfg, s, x, b) {
      if Justified(cfg, s, b, c.Height(c.bLock)) {
        var y :| OnBranch(s.tree, y, b) && y != b && s.tree[y].height >= c.Height(c.bLock) && Certified(cfg, s, y);
        assert Justified(cfg, s, b, LockHeight(cfg.v, s.tree, x));
      }
    }
    AddVoteBacked(cfg, s, s', r, b);
  }

  /** A replica's invariant without the part about the pacemaker. */
  ghost predicate Kept(cfg: Config, s: Net, r: ReplicaId, c: Core)
    requires cfg.n > 0 && ValidTree(s.tree)
  {
    CoreInv(c) && LinkInv(cfg, s, r, c) && VoteInv(cfg, s, r, c)
  }

  /** Casting a vote for `b` in state `c`, ending in `c'`. */
  lemma CastVoteKept(cfg: Config, s: Net, r: ReplicaId, c: Core, c': Core, b: BlockId, o: Outcome)
    requires cfg.n > 0 && TreeInv(cfg, s) && VoteRules(cfg, s) && c.Valid()
    requires b in c.tree && LinkInv(cfg, s, r, c) && VoteInv(cfg, s, r, c) && QcHarmless(cfg, s, c, b)
    requires c'.Valid() && c'.Height(c'.bLock) >= c.Height(c.bLock)
    requires c'.Height(c'.bLock) >= LockHeight(cfg.v, s.tree, b)
    requires c'.vheight == if Opinion(c, b) then c.Height(b) else c.vheight
    requires o.vote == CastVote(c, b).vote
    ensures VoteInv(cfg, Record(s, o, r, b), r, c') && CertsBacked(cfg, Record(s, o, r, b))
  {
    assert s.tree[b] == c.tree[b];
    if Opinion(c, b) {
      OpinionJustifies(cfg, s, r, c, b);
    }
    if o.vote {
      NewVoteKeepsVoteInv(cfg, s, Record(s, o, r, b), r, c, c', b);
      NewVoteBacked(cfg, s, Record(s, o, r, b), r, c, b);
    } else {
      NoVoteKeepsVoteInv(cfg, s, r, c, c');
      assert Record(s, o, r, b) == s;
    }
  }

  lemma VotedGrows(cfg: Config, s: Net, o: Outcome, r: ReplicaId, b: BlockId, c: Core)
    requires cfg.n > 0 && ValidTree(s.tree) && CertsExist(s.tree) && c.Valid() && LinkInv(cfg, s, r, c)
    ensures Grows(s, Record(s, o, r, b)) && LinkInv(cfg, Record(s, o, r, b), r, c)
  {
    LinkInvGrows(cfg, s, Record(s, o, r, b), r, c);
  }

  // ---------------------------------------------------------------- handling a block

  lemma CastVoteUnfold(c: Core, b: BlockId)
    requires c.Valid() && b in c.tree
    ensures var o := CastVote(c, b);
            && o.error == None
            && o.vote == (Opinion(c, b) && !c.voteDisabled)
            && o.core == c.(vheight := if Opinion(c, b) then c.Height(b) else c.vheight)
  {
  }

  lemma VheightFrame(cfg: Config, s: Net, r: ReplicaId, c: Core, h: nat)
    requires cfg.n > 0 && ValidTree(s.tree) && CoreInv(c) && LinkInv(cfg, s, r, c)
    ensures CoreInv(c.(vheight := h)) && LinkInv(cfg, s, r, c.(vheight := h))
  {
  }

  lemma UpdatedHarmless(cfg: Config, s: Net, r: ReplicaId, c: Core, b: BlockId)
    requires cfg.n > 0 && TreeInv(cfg, s) && c.Valid() && SubTree(c.tree, s.tree) && b in c.tree
    requires Updated(cfg, s, r, c, b, Update(cfg.v, c, b))
    ensures QcHarmless(cfg, s, Update(cfg.v, c, b).core, b)
  {
    if !cfg.v.twoStep { assert QcOnChain(s.tree, b); }
  }

  /** `update` before the vote, as for every proposal of another replica. */
  lemma UpdateThenVote(cfg: Config, s: Net, r: ReplicaId, c: Core, b: BlockId) returns (o: Outcome)
    requires cfg.Valid() && TreeInv(cfg, s) && VoteRules(cfg, s) && Kept(cfg, s, r, c) && b in c.tree
    ensures o == CastVote(Update(cfg.v, c, b).core, b)
    ensures Update(cfg.v, c, b).error == None && o.error == None
    ensures Kept(cfg, Record(s, o, r, b), r, o.core) && CertsBacked(cfg, Record(s, o, r, b))
    ensures Updated(cfg, s, r, c, b, Update(cfg.v, c, b))
    ensures o.core.hqc == Update(cfg.v, c, b).core.hqc && o.core.tree == c.tree && o.core.tails == c.tails
  {
    TreeInvQcsSound(cfg, s);
    RulesAgreement(cfg, s);
    UpdateSafe(cfg, s, r, c, b);
    var u := Update(cfg.v, c, b).core;
    o := CastVote(u, b);
    CastVoteUnfold(u, b);
    VheightFrame(cfg, s, r, u, o.core.vheight);
    NoVoteKeepsVoteInv(cfg, s, r, c, u);
    UpdatedHarmless(cfg, s, r, c, b);
    CastVoteKept(cfg, s, r, u, o.core, b, o);
    VotedGrows(cfg, s, o, r, b, o.core);
  }

  /** The baseline's order for its own proposal: the vote comes before `update`. The certificate of
      an own block is about an ancestor of it. */
  lemma VoteThenUpdate(cfg: Config, s: Net, r: ReplicaId, c: Core, b: BlockId) returns (o: Outcome)
    requires cfg.Valid() && TreeInv(cfg, s) && VoteRules(cfg, s) && Kept(cfg, s, r, c) && b in c.tree
    requires c.Height(b) > c.vheight && b in s.tree && QcOnChain(s.tree, b)
    ensures var u := Update(cfg.v, CastVote(c, b).core, b);
            o == Outcome(u.core, CastVote(c, b).vote, u.error)
    ensures o.error == None
    ensures Kept(cfg, Record(s, o, r, b), r, o.core) && CertsBacked(cfg, Record(s, o, r, b))
    ensures o.core.hqc == c.hqc || QcRef(c.tree, b) == Some(o.core.hqc)
    ensures o.core.tree == c.tree && o.core.tails == c.tails
  {
    TreeInvQcsSound(cfg, s);
    RulesAgreement(cfg, s);
    var c1 := CastVote(c, b).core;
    CastVoteUnfold(c, b);
    VheightFrame(cfg, s, r, c, c1.vheight);
    UpdateSafe(cfg, s, r, c1, b);
    var u := Update(cfg.v, c1, b);
    o := Outcome(u.core, CastVote(c, b).vote, u.error);
    CastVoteKept(cfg, s, r, c, o.core, b, o);
    VotedGrows(cfg, s, o, r, b, o.core);
  }
}
