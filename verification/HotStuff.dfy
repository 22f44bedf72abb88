/** Runs of n replicas, of which up to (n-1)/3 behave arbitrarily, and the safety of those runs. */
module HotStuff {
  import opened BlockTree
  import opened Sequences
  import opened Consensus
  import opened PaceMaker

  function Ids(n: nat): (ids: set<ReplicaId>)
    ensures |ids| == n
    ensures forall r: ReplicaId :: r in ids <==> r < n
  {
    if n == 0 then {} else Ids(n - 1) + {n - 1}
  }

  datatype Config = Config(n: nat, faulty: set<ReplicaId>, v: Variant)
  {
    function Replicas(): set<ReplicaId> { Ids(n) }
    function NFaulty(): nat requires n > 0 { (n - 1) / 3 }
    function NMajority(): nat requires n > 0 { n - NFaulty() }
    ghost predicate Valid() { n > 0 && faulty <= Replicas() && |faulty| <= NFaulty() }
  }

  datatype Replica = Replica(core: Core, tail: BlockId)

  /** What exists outside the replicas: `tree` holds every block created so far that passes
      `Block::verify`, `votes` every vote ever signed. */
  datatype Net = Net(tree: Tree, votes: set<(ReplicaId, BlockId)>)

  /** The whole system; `replicas` are the correct ones. */
  datatype System = System(net: Net, replicas: map<ReplicaId, Replica>)

  function Voters(s: Net, b: BlockId): set<ReplicaId> {
    set rb | rb in s.votes && rb.1 == b :: rb.0
  }

  ghost predicate Certified(cfg: Config, s: Net, b: BlockId)
    requires cfg.n > 0
  {
    b == GENESIS || |Voters(s, b) * cfg.Replicas()| >= cfg.NMajority()
  }

  /** A certificate that verifies: it is about the genesis block, or holds enough real votes. */
  ghost predicate QcValid(cfg: Config, s: Net, qc: QC)
    requires cfg.n > 0
  {
    || qc.obj == GENESIS
    || (|qc.signers| >= cfg.NMajority() && qc.signers <= Voters(s, qc.obj) * cfg.Replicas())
  }

  // ---------------------------------------------------------------- steps

  datatype Step =
    | Forge(b: BlockId, blk: Block)
    | ForgeVote(r: ReplicaId, b: BlockId)
    | Deliver(r: ReplicaId, b: BlockId)
    | HandleProposal(r: ReplicaId, b: BlockId)
    | HandleVote(r: ReplicaId, voter: ReplicaId, b: BlockId)
    | MakeProposal(r: ReplicaId, b: BlockId, cmds: seq<Cmd>)
    | SetVoteDisabled(r: ReplicaId, flag: bool)

  ghost predicate Init(cfg: Config, s: System)
    requires cfg.Valid()
  {
    && s.net == Net(map[GENESIS := Block([], [], Some(QC(GENESIS, {})), 0)], {})
    && s.replicas.Keys == cfg.Replicas() - cfg.faulty
    && forall r :: r in s.replicas ==>
         s.replicas[r] == Replica(InitCore(r, cfg.NMajority(), cfg.Replicas()), GENESIS)
  }

  /** A block any participant may create: it verifies and, in the three-step protocol, satisfies the
      hypothesis that its certificate refers to a block on its own parent chain. */
  ghost predicate Creatable(cfg: Config, s: Net, b: BlockId, blk: Block)
    requires cfg.n > 0 && ValidTree(s.tree)
  {
    && Verifies(cfg, s, b, blk)
    && (cfg.v.twoStep || OnBranch(s.tree, blk.qc.value.obj, blk.parents[0]))
  }

  /** A new block with existing parents and a certificate that verifies, whatever that is about. */
  ghost predicate Verifies(cfg: Config, s: Net, b: BlockId, blk: Block)
    requires cfg.n > 0 && ValidTree(s.tree)
  {
    && b !in s.tree
    && |blk.parents| > 0 && (forall i :: 0 <= i < |blk.parents| ==> blk.parents[i] in s.tree)
    && blk.height == s.tree[blk.parents[0]].height + 1
    && blk.qc.Some?
    && QcValid(cfg, s, blk.qc.value)
  }

  function AddBlk(s: Net, b: BlockId, blk: Block): Net { s.(tree := s.tree[b := blk]) }

  /** A handler's vote, if it sent one, becomes known to all. */
  function Record(s: Net, o: Outcome, r: ReplicaId, b: BlockId): Net {
    if o.vote then s.(votes := s.votes + {(r, b)}) else s
  }

  /** What the handlers rely on; part of the invariant `Inv` below. */
  ghost predicate Sane(s: System) {
    && ValidTree(s.net.tree)
    && (forall r :: r in s.replicas ==> SaneReplica(s.replicas[r]))
  }

  ghost predicate SaneReplica(p: Replica) {
    p.core.Valid() && p.tail in p.core.tree && p.core.hqcCert.obj == p.core.hqc
  }

  ghost predicate Forges(cfg: Config, s: System, s': System, b: BlockId, blk: Block)
    requires cfg.n > 0 && ValidTree(s.net.tree)
  {
    Creatable(cfg, s.net, b, blk) && s' == s.(net := AddBlk(s.net, b, blk))
  }

  ghost predicate VoteForged(cfg: Config, s: System, s': System, r: ReplicaId, b: BlockId) {
    r in cfg.faulty && b in s.net.tree && s' == s.(net := s.net.(votes := s.net.votes + {(r, b)}))
  }

  ghost predicate Delivers(s: System, s': System, r: ReplicaId, b: BlockId) {
    && r in s.replicas && b in s.net.tree
    && b !in s.replicas[r].core.tree
    && (forall p :: p in s.net.tree[b].parents ==> p in s.replicas[r].core.tree)
    && s' == s.(replicas := s.replicas[r := s.replicas[r].(core := DeliverBlk(s.replicas[r].core, b, s.net.tree[b]))])
  }

  /** A replica, core and pacemaker together, after a received proposal. */
  ghost predicate AfterProposal(v: Variant, p: Replica, b: BlockId, p': Replica)
    requires SaneReplica(p)
  {
    var o := ReceiveProposal(v, p.core, b);
    && p'.core == o.core && o.core.Valid()
    && exists tail: BlockId ::
         && AfterHqc(p.core, o.core, p.tail, tail) && tail in o.core.tree
         && p'.tail == if o.error.Some? then tail else AfterReceive(o.core, b, tail)
  }

  /** A replica after a received vote. */
  ghost predicate AfterVote(p: Replica, voter: ReplicaId, b: BlockId, p': Replica)
    requires SaneReplica(p)
  {
    var o := ReceiveVote(p.core, voter, b);
    p'.core == o.core && o.core.Valid() && AfterHqc(p.core, o.core, p.tail, p'.tail) && p'.tail in o.core.tree
  }

  /** A replica after proposing `b`. */
  ghost predicate AfterPropose(v: Variant, p: Replica, b: BlockId, cmds: seq<Cmd>, p': Replica)
    requires SaneReplica(p) && b !in p.core.tree
  {
    var o := Propose(v, p.core, b, [p.tail], cmds);
    && p'.core == o.core && o.core.Valid()
    && if o.error.Some? then AfterHqc(p.core, o.core, p.tail, p'.tail) else p'.tail == b
  }

  ghost predicate HandlesProposal(cfg: Config, s: System, s': System, r: ReplicaId, b: BlockId)
    requires Sane(s)
  {
    && r in s.replicas && r in s'.replicas
    && AfterProposal(cfg.v, s.replicas[r], b, s'.replicas[r])
    && s' == System(Record(s.net, ReceiveProposal(cfg.v, s.replicas[r].core, b), r, b), s.replicas[r := s'.replicas[r]])
  }

  ghost predicate HandlesVote(cfg: Config, s: System, s': System, r: ReplicaId, voter: ReplicaId, b: BlockId)
    requires Sane(s)
  {
    && r in s.replicas && r in s'.replicas && (voter, b) in s.net.votes && voter in cfg.Replicas()
    && AfterVote(s.replicas[r], voter, b, s'.replicas[r])
    && s' == s.(replicas := s.replicas[r := s'.replicas[r]])
  }

  ghost predicate Proposes(cfg: Config, s: System, s': System, r: ReplicaId, b: BlockId, cmds: seq<Cmd>)
    requires Sane(s)
  {
    && r in s.replicas && r in s'.replicas && b !in s.net.tree && b !in s.replicas[r].core.tree
    && var p := s.replicas[r];
       && AfterPropose(cfg.v, p, b, cmds, s'.replicas[r])
       && s' == System(Record(AddBlk(s.net, b, NewBlock(p.core, [p.tail], cmds)),
                              Propose(cfg.v, p.core, b, [p.tail], cmds), r, b),
                       s.replicas[r := s'.replicas[r]])
  }

  ghost predicate Toggles(s: System, s': System, r: ReplicaId, flag: bool) {
    && r in s.replicas
    && s' == s.(replicas := s.replicas[r := s.replicas[r].(core := s.replicas[r].core.(voteDisabled := flag))])
  }

  ghost predicate NextStep(cfg: Config, s: System, s': System, step: Step)
    requires cfg.Valid() && Sane(s)
  {
    match step
    case Forge(b, blk) => Forges(cfg, s, s', b, blk)
    case ForgeVote(r, b) => VoteForged(cfg, s, s', r, b)
    case Deliver(r, b) => Delivers(s, s', r, b)
    case HandleProposal(r, b) => HandlesProposal(cfg, s, s', r, b)
    case HandleVote(r, voter, b) => HandlesVote(cfg, s, s', r, voter, b)
    case MakeProposal(r, b, cmds) => Proposes(cfg, s, s', r, b, cmds)
    case SetVoteDisabled(r, flag) => Toggles(s, s', r, flag)
  }

  // ---------------------------------------------------------------- invariant

  /** The block that `b` asks a replica which knows the tree `t` to lock. */
  function Asked(v: Variant, t: Tree, b: BlockId): Option<BlockId> {
    if v.twoStep then QcRef(t, b)
    else if QcRef(t, b).Some? then QcRef(t, QcRef(t, b).value) else None
  }

  /** The block a replica is locked on at least as high as, once it has processed `b`. In two steps that
      is only sure of the parent of `b`, the other blocks may not have been delivered to it. */
  function LockOf(v: Variant, t: Tree, b: BlockId): Option<BlockId> {
    if v.twoStep && !(b in t && |t[b].parents| > 0 && QcRef(t, b) == Some(t[b].parents[0])) then None else Asked(v, t, b)
  }

  function LockHeight(v: Variant, t: Tree, b: BlockId): nat {
    match LockOf(v, t, b)
    case Some(l) => if l in t then t[l].height else 0
    case None => 0
  }

  /** The commit rule is met for `b`, by certified descendants in direct succession. */
  ghost predicate CommitRule(cfg: Config, s: Net, b: BlockId, mid: BlockId, top: BlockId)
    requires cfg.n > 0 && ValidTree(s.tree)
  {
    && b in s.tree && mid in s.tree && top in s.tree && mid != GENESIS && top != GENESIS
    && (if cfg.v.twoStep then mid == top else Parent(s.tree, top) == mid && QcRef(s.tree, top) == Some(mid))
    && Parent(s.tree, mid) == b && QcRef(s.tree, mid) == Some(b)
    && Certified(cfg, s, top)
  }

  ghost predicate Committed(cfg: Config, s: Net, b: BlockId)
    requires cfg.n > 0 && ValidTree(s.tree)
  {
    b == GENESIS || exists mid, top :: CommitRule(cfg, s, b, mid, top)
  }

  ghost predicate TreeInv(cfg: Config, s: Net)
    requires cfg.n > 0
  {
    && ValidTree(s.tree) && CertsExist(s.tree) && (cfg.v.twoStep || WellFormed(s.tree))
    && (forall b {:trigger QcRef(s.tree, b)} :: b in s.tree && QcRef(s.tree, b).Some? ==> QcValid(cfg, s, s.tree[b].qc.value))
    && (forall rb :: rb in s.votes ==> rb.1 in s.tree)
  }

  /** Facts about one replica's state alone. */
  ghost predicate CoreInv(c: Core) {
    && c.Valid()
    && c.hqcCert.obj == c.hqc
    && c.Height(c.bExec) <= c.Height(c.bLock) <= c.Height(c.hqc)
    && (forall x :: x in c.decided <==> OnBranch(c.tree, x, c.bExec))
    && c.log == ChainUp(c.tree, c.bExec, 0)
    && (forall x :: x in c.tails ==> x in c.tree)
    && (forall x :: x in c.voted && x != GENESIS ==> x in c.tree && |c.voted[x]| <= c.nmajority)
  }

  /** Facts linking a replica's state to the global tree and votes. */
  ghost predicate LinkInv(cfg: Config, s: Net, r: ReplicaId, c: Core)
    requires cfg.n > 0 && ValidTree(s.tree) && c.Valid()
  {
    && c.id == r && c.nmajority == cfg.NMajority()
    && SubTree(c.tree, s.tree)
    && QcValid(cfg, s, c.hqcCert)
    && Certified(cfg, s, c.bLock)
    && Committed(cfg, s, c.bExec)
    && (forall x, y :: x in c.voted && x != GENESIS && y in c.voted[x] ==> (y, x) in s.votes && y in cfg.Replicas())
  }

  /** A certified proper ancestor of `w` at height at least `h`. */
  ghost predicate Justified(cfg: Config, s: Net, w: BlockId, h: nat)
    requires cfg.n > 0 && ValidTree(s.tree)
  {
    exists y :: OnBranch(s.tree, y, w) && y != w && s.tree[y].height >= h && Certified(cfg, s, y)
  }

  /** What a correct replica's votes promise: at most one per height, none above `vheight`, a lock
      at least as high as each of them asks for, and a reason for every later vote, unless that was
      for a block that had its certificate already. */
  ghost predicate VoteInv(cfg: Config, s: Net, r: ReplicaId, c: Core)
    requires cfg.n > 0 && ValidTree(s.tree) && c.Valid()
  {
    && (forall x :: (r, x) in s.votes ==> x in s.tree && s.tree[x].height <= c.vheight
                                          && LockHeight(cfg.v, s.tree, x) <= c.Height(c.bLock))
    && (forall x, w :: (r, x) in s.votes && (r, w) in s.votes ==> VotesAgree(cfg, s, x, w))
  }

  ghost predicate VotesAgree(cfg: Config, s: Net, x: BlockId, w: BlockId)
    requires cfg.n > 0 && ValidTree(s.tree)
  {
    x in s.tree && w in s.tree ==>
      && (s.tree[x].height == s.tree[w].height ==> x == w)
      && (s.tree[x].height < s.tree[w].height ==>
            Justified(cfg, s, w, LockHeight(cfg.v, s.tree, x)) || Certified(cfg, s, w))
  }

  /** A majority that voted for `w`, in which every correct voter had a reason to. */
  ghost predicate Backed(cfg: Config, s: Net, w: BlockId, q: set<ReplicaId>)
    requires cfg.n > 0 && ValidTree(s.tree)
  {
    && w in s.tree
    && q <= Voters(s, w) * cfg.Replicas() && |q| >= cfg.NMajority()
    && forall r, x :: r in q - cfg.faulty && (r, x) in s.votes && x in s.tree && s.tree[x].height < s.tree[w].height ==>
         Justified(cfg, s, w, LockHeight(cfg.v, s.tree, x))
  }

  /** Whoever votes for a block after it is certified, those who made it certified had reasons. */
  ghost predicate CertsBacked(cfg: Config, s: Net)
    requires cfg.n > 0 && ValidTree(s.tree)
  {
    forall w :: w != GENESIS && Certified(cfg, s, w) ==> exists q :: Backed(cfg, s, w, q)
  }

  ghost predicate ReplicaInv(cfg: Config, s: Net, r: ReplicaId, p: Replica)
    requires cfg.n > 0 && ValidTree(s.tree)
  {
    && CoreInv(p.core)
    && LinkInv(cfg, s, r, p.core)
    && VoteInv(cfg, s, r, p.core)
    && OnBranch(p.core.tree, p.core.hqc, p.tail)
  }

  /** What the votes of correct replicas obey, whatever their states. */
  ghost predicate VoteRules(cfg: Config, s: Net)
    requires cfg.n > 0 && ValidTree(s.tree)
  {
    && (forall r, x, w :: r in cfg.Replicas() - cfg.faulty && (r, x) in s.votes && (r, w) in s.votes ==> VotesAgree(cfg, s, x, w))
    && CertsBacked(cfg, s)
  }

  ghost predicate Inv(cfg: Config, s: System)
    requires cfg.n > 0
  {
    && TreeInv(cfg, s.net) && CertsBacked(cfg, s.net)
    && s.replicas.Keys == cfg.Replicas() - cfg.faulty
    && forall r {:trigger ReplicaInv(cfg, s.net, r, s.replicas[r])} :: r in s.replicas ==> ReplicaInv(cfg, s.net, r, s.replicas[r])
  }

  lemma InvVoteRules(cfg: Config, s: System)
    requires cfg.n > 0 && Inv(cfg, s)
    ensures VoteRules(cfg, s.net)
  {
    forall r, x, w | r in cfg.Replicas() - cfg.faulty && (r, x) in s.net.votes && (r, w) in s.net.votes
      ensures VotesAgree(cfg, s.net, x, w)
    {
      assert ReplicaInv(cfg, s.net, r, s.replicas[r]);
    }
  }

  // ---------------------------------------------------------------- quorums

  lemma Overlap(a: set<ReplicaId>, b: set<ReplicaId>, all: set<ReplicaId>)
    requires a <= all && b <= all
    ensures |a * b| >= |a| + |b| - |all|
  {
    assert |a + b| <= |all| by { FewerOf(a + b, all); }
  }

  /** Two majorities share a correct replica. */
  lemma MajoritiesMeet(cfg: Config, qx: set<ReplicaId>, qy: set<ReplicaId>) returns (r: ReplicaId)
    requires cfg.Valid() && qx <= cfg.Replicas() && qy <= cfg.Replicas()
    requires |qx| >= cfg.NMajority() && |qy| >= cfg.NMajority()
    ensures r in qx && r in qy && r !in cfg.faulty
  {
    Overlap(qx, qy, cfg.Replicas());
    var both := qx * qy;
    if both <= cfg.faulty {
      FewerOf(both, cfg.faulty);
      assert false;
    }
    r :| r in both && r !in cfg.faulty;
  }

  /** Two certified blocks share a correct voter. */
  lemma QuorumsMeet(cfg: Config, s: Net, x: BlockId, y: BlockId) returns (r: ReplicaId)
    requires cfg.Valid() && TreeInv(cfg, s) && VoteRules(cfg, s)
    requires x != GENESIS && y != GENESIS && Certified(cfg, s, x) && Certified(cfg, s, y)
    ensures r in cfg.Replicas() - cfg.faulty && (r, x) in s.votes && (r, y) in s.votes
  {
    r := MajoritiesMeet(cfg, Voters(s, x) * cfg.Replicas(), Voters(s, y) * cfg.Replicas());
  }

  lemma CertifiedByQc(cfg: Config, s: Net, qc: QC)
    requires cfg.n > 0 && QcValid(cfg, s, qc)
    ensures Certified(cfg, s, qc.obj)
  {
    FewerOf(qc.signers, qc.signers + Voters(s, qc.obj) * cfg.Replicas());
    assert qc.obj != GENESIS ==> qc.signers + Voters(s, qc.obj) * cfg.Replicas() == Voters(s, qc.obj) * cfg.Replicas();
  }

  // ---------------------------------------------------------------- agreement

  lemma QcRefFacts(cfg: Config, s: Net, b: BlockId)
    requires cfg.n > 0 && TreeInv(cfg, s) && QcRef(s.tree, b).Some? && b != GENESIS && QcOnChain(s.tree, b)
    ensures var q := QcRef(s.tree, b).value;
            OnBranch(s.tree, q, b) && s.tree[q].height < s.tree[b].height && Certified(cfg, s, q)
  {
    CertifiedByQc(cfg, s, s.tree[b].qc.value);
  }

  /** Two certified blocks at one height are the same block. */
  lemma CertifiedUniqueAtHeight(cfg: Config, s: Net, x: BlockId, w: BlockId)
    requires cfg.Valid() && TreeInv(cfg, s) && VoteRules(cfg, s)
    requires x in s.tree && w in s.tree && s.tree[x].height == s.tree[w].height
    requires Certified(cfg, s, x) && Certified(cfg, s, w)
    ensures x == w
  {
    OnlyGenesisAtZero(s.tree, x);
    OnlyGenesisAtZero(s.tree, w);
    if x != GENESIS && w != GENESIS {
      var r := QuorumsMeet(cfg, s, x, w);
      assert VotesAgree(cfg, s, x, w);
    }
  }

  /** A certified block above another one has a certified proper ancestor as high as the lock that
      the lower one asks its voters to hold. */
  lemma CertifiedJustified(cfg: Config, s: Net, x: BlockId, w: BlockId)
    requires cfg.Valid() && TreeInv(cfg, s) && VoteRules(cfg, s)
    requires x in s.tree && w in s.tree && x != GENESIS && s.tree[x].height < s.tree[w].height
    requires Certified(cfg, s, x) && Certified(cfg, s, w)
    ensures Justified(cfg, s, w, LockHeight(cfg.v, s.tree, x))
  {
    var q :| Backed(cfg, s, w, q);
    var r := MajoritiesMeet(cfg, Voters(s, x) * cfg.Replicas(), q);
  }

  /** The blocks from a committed block up to the top of its commit rule are certified and on one
      branch, one at each height. */
  lemma CommitRuleFacts(cfg: Config, s: Net, b: BlockId, mid: BlockId, top: BlockId)
    requires cfg.Valid() && TreeInv(cfg, s) && VoteRules(cfg, s) && CommitRule(cfg, s, b, mid, top)
    ensures Certified(cfg, s, b) && Certified(cfg, s, mid)
    ensures OnBranch(s.tree, b, mid) && OnBranch(s.tree, b, top)
    ensures s.tree[mid].height == s.tree[b].height + 1
    ensures s.tree[top].height == s.tree[mid].height + if cfg.v.twoStep then 0 else 1
    ensures LockHeight(cfg.v, s.tree, top) == s.tree[b].height
  {
    CertifiedByQc(cfg, s, s.tree[top].qc.value);
    CertifiedByQc(cfg, s, s.tree[mid].qc.value);
    assert HasParents(s.tree, mid);
    OnBranchTransitive(s.tree, b, mid, top);
  }

  /** Every certified block at the height of a committed block or above extends it. */
  lemma {:induction false} CertifiedExtendsCommitted(cfg: Config, s: Net, b: BlockId, mid: BlockId,
          top: BlockId, w: BlockId)
    requires cfg.Valid() && TreeInv(cfg, s) && VoteRules(cfg, s)
    requires CommitRule(cfg, s, b, mid, top)
    requires w in s.tree && Certified(cfg, s, w) && s.tree[w].height >= s.tree[b].height
    ensures OnBranch(s.tree, b, w)
    decreases s.tree[w].height
  {
    CommitRuleFacts(cfg, s, b, mid, top);
    if s.tree[w].height <= s.tree[top].height {
      var x := if s.tree[w].height == s.tree[top].height then top
               else if s.tree[w].height == s.tree[mid].height then mid else b;
      CertifiedUniqueAtHeight(cfg, s, x, w);
    } else {
      CertifiedJustified(cfg, s, top, w);
      var y :| OnBranch(s.tree, y, w) && y != w && s.tree[y].height >= s.tree[b].height && Certified(cfg, s, y);
      CertifiedExtendsCommitted(cfg, s, b, mid, top, y);
      OnBranchTransitive(s.tree, b, y, w);
    }
  }

  lemma CommittedCertified(cfg: Config, s: Net, b: BlockId)
    requires cfg.Valid() && TreeInv(cfg, s) && VoteRules(cfg, s) && Committed(cfg, s, b)
    ensures b in s.tree && Certified(cfg, s, b)
  {
    if b != GENESIS {
      var mid, top :| CommitRule(cfg, s, b, mid, top);
      CommitRuleFacts(cfg, s, b, mid, top);
    }
  }

  /** Agreement: two blocks for which the commit rule is met lie on one branch. */
  lemma CommittedAgree(cfg: Config, s: Net, a: BlockId, b: BlockId)
    requires cfg.Valid() && TreeInv(cfg, s) && VoteRules(cfg, s) && Committed(cfg, s, a) && Committed(cfg, s, b)
    ensures OnBranch(s.tree, a, b) || OnBranch(s.tree, b, a)
  {
    CommittedCertified(cfg, s, a);
    CommittedCertified(cfg, s, b);
    var lo, hi := if s.tree[a].height <= s.tree[b].height then a else b,
                  if s.tree[a].height <= s.tree[b].height then b else a;
    if lo == GENESIS {
      GenesisBelowAll(s.tree, hi);
    } else {
      var mid, top :| CommitRule(cfg, s, lo, mid, top);
      CertifiedExtendsCommitted(cfg, s, lo, mid, top, hi);
    }
  }

  /** All blocks that meet the commit rule lie on one branch. */
  ghost predicate Agreement(cfg: Config, s: Net)
    requires cfg.n > 0 && ValidTree(s.tree)
  {
    forall a, b :: Committed(cfg, s, a) && Committed(cfg, s, b) ==> OnBranch(s.tree, a, b) || OnBranch(s.tree, b, a)
  }

  lemma RulesAgreement(cfg: Config, s: Net)
    requires cfg.Valid() && TreeInv(cfg, s) && VoteRules(cfg, s)
    ensures Agreement(cfg, s)
  {
    forall a, b | Committed(cfg, s, a) && Committed(cfg, s, b)
      ensures OnBranch(s.tree, a, b) || OnBranch(s.tree, b, a)
    {
      CommittedAgree(cfg, s, a, b);
    }
  }
}
