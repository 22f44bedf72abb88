/** Why the three-step protocol needs the hypothesis on certificates, which delivery does not check:
    a run without it in which two correct replicas execute different blocks. Module `HotStuff` needs no
    such hypothesis for the two-step protocol. */
module HotStuffBreach {
  import opened BlockTree
  import opened Consensus
  import opened PaceMaker
  import opened HotStuff
  import opened HotStuffRuns
  import opened HotStuffVoting

  ghost predicate ForgesAny(cfg: Config, s: System, s': System, b: BlockId, blk: Block)
    requires cfg.n > 0 && ValidTree(s.net.tree)
  {
    Verifies(cfg, s.net, b, blk) && s' == s.(net := AddBlk(s.net, b, blk))
  }

  /** The steps of `NextStep`, but any block that verifies may be created. */
  ghost predicate LooseStep(cfg: Config, s: System, s': System, step: Step)
    requires cfg.Valid() && Sane(s)
  {
    match step
    case Forge(b, blk) => ForgesAny(cfg, s, s', b, blk)
    case _ => NextStep(cfg, s, s', step)
  }

  ghost predicate LooseNext(cfg: Config, s: System, s': System)
    requires cfg.Valid()
  {
    Sane(s) && exists step :: LooseStep(cfg, s, s', step)
  }

  ghost predicate IsLooseRun(cfg: Config, run: seq<System>)
    requires cfg.Valid()
  {
    && |run| > 0 && Init(cfg, run[0])
    && forall i {:trigger LooseNext(cfg, run[i], run[i + 1])} :: 0 <= i < |run| - 1 ==> LooseNext(cfg, run[i], run[i + 1])
  }

  lemma Advance(cfg: Config, run: seq<System>, s: System, s': System, step: Step)
    requires cfg.Valid() && IsLooseRun(cfg, run) && run[|run| - 1] == s
    requires Sane(s) && LooseStep(cfg, s, s', step)
    ensures IsLooseRun(cfg, run + [s'])
  {
    var longer := run + [s'];
    forall i | 0 <= i < |longer| - 1 ensures LooseNext(cfg, longer[i], longer[i + 1]) {
      if i < |run| - 1 {
        assert LooseNext(cfg, run[i], run[i + 1]);
      } else {
        assert longer[i] == s && longer[i + 1] == s';
      }
    }
  }

  // ---------------------------------------------------------------- the blocks

  /** Replicas 0, 1 and 2 are correct; 3 only lends its votes. */
  function Four(voteFirst: bool): Config { Config(4, {3}, Variant(false, voteFirst)) }

  lemma FourValid(voteFirst: bool)
    ensures Four(voteFirst).Valid() && Startable(Four(voteFirst))
  {
    var cfg := Four(voteFirst);
    assert cfg.NFaulty() == 1;
  }

  function Certificate(b: BlockId): Option<QC> { Some(QC(b, if b == GENESIS then {} else {0, 1, 3})) }

  /** Two branches from the genesis block: 1, 2, 3 and 4, 5, 6, 7, 8, 9, 10, where the certificate
      inside 7 is about 3, those inside 4, 5 and 6 about the genesis block, and the others about the
      parent. */
  function Blk(b: BlockId): Block {
    Block(if b == GENESIS then [] else [Below(b)], [], Certificate(Obj(b)), if b <= 3 then b else b - 3)
  }

  function Below(b: BlockId): BlockId { if b == GENESIS || b == 4 then GENESIS else b - 1 }

  function Obj(b: BlockId): BlockId { if 4 <= b <= 6 then GENESIS else if b == 7 then 3 else Below(b) }

  /** The block found by following `k` certificates. */
  function Certificates(b: BlockId, k: nat): BlockId
    decreases k
  {
    if k == 0 then b else Certificates(Obj(b), k - 1)
  }

  function Blocks(n: nat): Tree { map b: BlockId | b <= n :: Blk(b) }

  lemma BlocksMeaning(n: nat, b: BlockId)
    ensures b in Blocks(n) <==> b <= n
    ensures b <= n ==> Blocks(n)[b] == Blk(b)
  {
  }

  lemma BlocksNext(n: nat, b: BlockId)
    requires b == n + 1
    ensures Blocks(b) == Blocks(n)[b := Blk(b)]
  {
  }

  lemma {:induction false} BlocksValid(n: nat)
    requires n <= 10
    ensures ValidTree(Blocks(n))
  {
    if n == 0 {
      GenesisOnly();
    } else {
      BlocksValid(n - 1);
      NextValid(n - 1, n);
    }
  }

  lemma NextValid(n: nat, b: BlockId)
    requires b == n + 1 && ValidTree(Blocks(n))
    ensures ValidTree(Blocks(b))
  {
    BlocksMeaning(n, b);
    BlocksMeaning(n, Below(b));
    BlocksMeaning(n, Obj(b));
    AddValid(Blocks(n), b, Blk(b));
    BlocksNext(n, b);
  }

  lemma GenesisOnly()
    ensures Blocks(0) == map[GENESIS := Block([], [], Some(QC(GENESIS, {})), 0)] && ValidTree(Blocks(0))
  {
    var t: Tree := map[GENESIS := Block([], [], Some(QC(GENESIS, {})), 0)];
    assert Blk(GENESIS) == t[GENESIS];
    assert Blocks(0) == t;
  }

  // ---------------------------------------------------------------- one replica

  /** The state of a replica that has the blocks up to `n` and has handled those that got votes up to
      `last`; the executed block is 1 from block 7 on. */
  ghost predicate Profile(c: Core, n: nat, last: nat) {
    && n <= 10 && last <= n
    && c.tree == Blocks(n) && c.tails <= c.tree.Keys && !c.voteDisabled && GENESIS in c.decided
    && c.hqcCert.obj == c.hqc
    && c.hqc == Certificates(last, 1) && c.bLock == Certificates(last, 2)
    && c.bExec == (if last < 7 then GENESIS else 1)
    && c.decided == {GENESIS, c.bExec} && c.log == seq(c.bExec, i => 1)
    && c.vheight == Blk(last).height
  }

  predicate Voted(b: BlockId) { 1 <= b <= 3 || 7 <= b <= 9 }

  function Before(b: BlockId): BlockId
    requires Voted(b)
  {
    if b == 7 then 3 else b - 1
  }

  lemma ProfileValid(c: Core, n: nat, last: nat)
    requires Profile(c, n, last) && (last == 0 || Voted(last))
    ensures c.Valid()
  {
    BlocksValid(n);
    BlocksMeaning(n, c.hqc);
    BlocksMeaning(n, c.bLock);
    BlocksMeaning(n, c.bExec);
  }

  lemma Delivered(c: Core, n: nat, b: BlockId, last: nat)
    requires b == n + 1 && b <= 10 && Profile(c, n, last)
    ensures Profile(DeliverBlk(c, b, Blk(b)), b, last)
  {
    BlocksNext(n, b);
  }

  /** What a handler sees of the block `b`. */
  lemma Seen(n: nat, b: BlockId)
    requires 0 < b <= n <= 10
    ensures var t, blk := Blocks(n), Blk(b);
            && ValidTree(t) && b in t && t[b].height == blk.height && t[b].qc == blk.qc
            && QcRef(t, b) == Some(blk.qc.value.obj) && Parent(t, b) == blk.parents[0]
  {
    BlocksValid(n);
    BlocksMeaning(n, b);
  }

  /** `update` once the certified block and the one below it are undecided. */
  lemma UpdateLocks(v: Variant, c: Core, b: BlockId, top: BlockId, mid: BlockId)
    requires !v.twoStep && c.Valid() && c.hqcCert.obj == c.hqc && b in c.tree
    requires QcRef(c.tree, b) == Some(top) && top !in c.decided && c.Height(top) > c.Height(c.hqc)
    requires QcRef(c.tree, top) == Some(mid) && mid !in c.decided && c.Height(mid) > c.Height(c.bLock)
    ensures var c1 := c.(hqc := top, hqcCert := c.tree[b].qc.value, bLock := mid);
            var target := CommitTarget(c, mid, Parent(c.tree, top) == mid);
            c1.Valid() && Update(v, c, b) == if target.Some? then Commit(c1, target.value) else Done(c1)
  {
    UpdateUnfold(v, c, b);
    LockAndCommitUnfold(UpdateHqc(c, top, c.tree[b].qc.value), mid, Parent(c.tree, top) == mid);
  }

  /** The first two votes, before any lock. */
  lemma HandledFirst(v: Variant, c: Core, n: nat)
    requires !v.twoStep && 1 <= n && Profile(c, n, 0)
    ensures c.Valid() && 1 in c.tree && Update(v, c, 1).error == None && Opinion(Update(v, c, 1).core, 1)
    ensures var u := Update(v, c, 1).core; Profile(u.(vheight := c.Height(1)), n, 1) && u.tails == c.tails
  {
    ProfileValid(c, n, 0);
    Seen(n, 1);
    assert Walk(c.tree, 1, 0) == 0;
    assert Update(v, c, 1) == Done(c);
  }

  lemma HandledSecond(v: Variant, c: Core, n: nat)
    requires !v.twoStep && 2 <= n && Profile(c, n, 1)
    ensures c.Valid() && 2 in c.tree && Update(v, c, 2).error == None && Opinion(Update(v, c, 2).core, 2)
    ensures var u := Update(v, c, 2).core; Profile(u.(vheight := c.Height(2)), n, 2) && u.tails == c.tails
  {
    ProfileValid(c, n, 1);
    Seen(n, 1);
    Seen(n, 2);
    UpdateUnfold(v, c, 2);
    assert Update(v, c, 2) == Done(UpdateHqc(c, 1, c.tree[2].qc.value));
  }

  lemma HandledMore(v: Variant, c: Core, n: nat, b: BlockId)
    requires !v.twoStep && (b == 3 || b == 8 || b == 9) && b <= n && Profile(c, n, b - 1)
    ensures c.Valid() && b in c.tree && Update(v, c, b).error == None && Opinion(Update(v, c, b).core, b)
    ensures var u := Update(v, c, b).core; Profile(u.(vheight := c.Height(b)), n, b) && u.tails == c.tails
  {
    ProfileValid(c, n, b - 1);
    var top := b - 1;
    var mid := if b == 8 then 3 else b - 2;
    Seen(n, b);
    Seen(n, top);
    Seen(n, mid);
    if b != 3 { Seen(n, c.bLock); Seen(n, c.hqc); }
    UpdateLocks(v, c, b, top, mid);
  }

  /** Block 7, on the other branch: executes 1, and is voted for because of the certificate of 3. */
  lemma HandledCrossing(v: Variant, c: Core, n: nat)
    requires !v.twoStep && 7 <= n && Profile(c, n, 3)
    ensures c.Valid() && 7 in c.tree && Update(v, c, 7).error == None && Opinion(Update(v, c, 7).core, 7)
    ensures var u := Update(v, c, 7).core; Profile(u.(vheight := c.Height(7)), n, 7) && u.tails == c.tails
  {
    ProfileValid(c, n, 3);
    Seen(n, 7);
    Seen(n, 3);
    Seen(n, 2);
    Seen(n, 1);
    UpdateLocks(v, c, 7, 3, 2);
    assert ChainUp(c.tree, 1, 0) == ChainUp(c.tree, GENESIS, 0) + [1] == [1];
  }

  lemma Handled(v: Variant, c: Core, n: nat, b: BlockId)
    requires !v.twoStep && Voted(b) && b <= n && Profile(c, n, Before(b))
    ensures c.Valid()
    ensures var o := ReceiveProposal(v, c, b);
            o.vote && o.error == None && Profile(o.core, n, b) && o.core.tails == c.tails
  {
    if b == 1 {
      HandledFirst(v, c, n);
    } else if b == 2 {
      HandledSecond(v, c, n);
    } else if b == 7 {
      HandledCrossing(v, c, n);
    } else {
      HandledMore(v, c, n, b);
    }
    CastVoteUnfold(Update(v, c, b).core, b);
  }

  /** Block 10 makes 7 the next block to execute, which does not descend from 1. */
  lemma Breaches(v: Variant, c: Core)
    requires !v.twoStep && Profile(c, 10, 9)
    ensures c.Valid() && ReceiveProposal(v, c, 10).error == Some(SafetyBreached)
  {
    ProfileValid(c, 10, 9);
    var t := c.tree;
    Seen(10, 10);
    Seen(10, 9);
    Seen(10, 8);
    Seen(10, 7);
    Seen(10, 1);
    UpdateLocks(v, c, 10, 9, 8);
    WalkToFork(t);
  }

  lemma WalkToFork(t: Tree)
    requires t == Blocks(10)
    ensures ValidTree(t) && Walk(t, 7, 1) == 4 && Walk(t, 7, 0) == GENESIS && ChainUp(t, 7, 0) == [4, 5, 6, 7]
  {
    Seen(10, 4);
    Seen(10, 5);
    Seen(10, 6);
    Seen(10, 7);
    assert Walk(t, 7, 1) == Walk(t, 6, 1) == Walk(t, 5, 1) == Walk(t, 4, 1) == 4;
    OnlyGenesisAtZero(t, Walk(t, 7, 0));
    assert ChainUp(t, 4, 0) == ChainUp(t, GENESIS, 0) + [4] == [4];
    assert ChainUp(t, 5, 0) == ChainUp(t, 4, 0) + [5] == [4, 5];
    assert ChainUp(t, 6, 0) == ChainUp(t, 5, 0) + [6] == [4, 5, 6];
    assert ChainUp(t, 7, 0) == ChainUp(t, 6, 0) + [7] == [4, 5, 6, 7];
  }

  /** A replica that has handled nothing else executes the other branch. */
  lemma OtherBranch(v: Variant, c: Core)
    requires !v.twoStep && Profile(c, 10, 0)
    ensures c.Valid()
    ensures var o := ReceiveProposal(v, c, 10);
            o.error == None && o.core.log == [4, 5, 6, 7] && o.core.tree == c.tree && o.core.Valid()
  {
    ProfileValid(c, 10, 0);
    Seen(10, 10);
    Seen(10, 9);
    Seen(10, 8);
    Seen(10, 7);
    UpdateLocks(v, c, 10, 9, 8);
    WalkToFork(c.tree);
    CastVoteUnfold(Update(v, c, 10).core, 10);
  }

  // ---------------------------------------------------------------- the steps

  lemma HighTailExists(c: Core, rest: set<BlockId>) returns (tail: BlockId)
    requires c.Valid() && rest <= c.tails
    ensures tail in c.tree && (tail == c.hqc || (tail in rest && OnBranch(c.tree, c.hqc, tail)))
    ensures forall x :: x in rest && OnBranch(c.tree, c.hqc, x) ==> c.Height(x) <= c.Height(tail)
  {
    tail := c.hqc;
    if rest != {} {
      var x :| x in rest;
      tail := HighTailExists(c, rest - {x});
      if OnBranch(c.tree, c.hqc, x) && c.Height(x) > c.Height(tail) { tail := x; }
    }
  }

  lemma TailExists(before: Core, after: Core, tail: BlockId) returns (newTail: BlockId)
    requires after.Valid() && tail in after.tree
    ensures AfterHqc(before, after, tail, newTail) && newTail in after.tree
  {
    newTail := tail;
    if before.hqc != after.hqc { newTail := HighTailExists(after, after.tails); }
  }

  /** What the run needs of a configuration. */
  ghost predicate Suits(cfg: Config) {
    && cfg.Valid() && !cfg.v.twoStep && cfg.NMajority() == 3
    && 0 in cfg.Replicas() && 1 in cfg.Replicas() && 3 in cfg.Replicas() && 3 in cfg.faulty
  }

  /** A run so far. */
  ghost predicate SoFar(cfg: Config, run: seq<System>) {
    Suits(cfg) && IsLooseRun(cfg, run)
  }

  function Last(run: seq<System>): System
    requires run != []
  {
    run[|run| - 1]
  }

  lemma Extend(cfg: Config, run: seq<System>, s': System, step: Step) returns (next: seq<System>)
    requires SoFar(cfg, run) && Sane(Last(run)) && LooseStep(cfg, Last(run), s', step)
    ensures SoFar(cfg, next) && Last(next) == s'
  {
    Advance(cfg, run, Last(run), s', step);
    next := run + [s'];
  }

  /** How far a replica is: it has the blocks up to `have` and voted up to `last`. */
  datatype Place = Place(have: nat, last: nat)

  /** How far a run is: the blocks that exist, the three correct replicas, and the last block that
      replica 3 voted for. */
  datatype Progress = Progress(net: nat, first: Place, second: Place, third: Place, lent: nat)
  {
    function Of(r: ReplicaId): Place
      requires r < 3
    {
      if r == 0 then first else if r == 1 then second else third
    }

    function With(r: ReplicaId, w: Place): Progress
      requires r < 3
    {
      if r == 0 then this.(first := w) else if r == 1 then this.(second := w) else this.(third := w)
    }
  }

  ghost predicate At(s: System, p: Progress) {
    && p.net <= 10 && s.net.tree == Blocks(p.net)
    && (forall r: ReplicaId :: r in s.replicas <==> r < 3)
    && ReplicaAt(s, 0, p.first, p.net) && ReplicaAt(s, 1, p.second, p.net) && ReplicaAt(s, 2, p.third, p.net)
    && VotedUpTo(s.net.votes, 3, p.lent)
  }

  ghost predicate ReplicaAt(s: System, r: ReplicaId, w: Place, net: nat) {
    && r in s.replicas
    && Profile(s.replicas[r].core, w.have, w.last) && s.replicas[r].tail in s.replicas[r].core.tree
    && (w.last == 0 || Voted(w.last)) && w.have <= net
    && VotedUpTo(s.net.votes, r, w.last)
  }

  ghost predicate VotedUpTo(votes: set<(ReplicaId, BlockId)>, r: ReplicaId, last: nat) {
    forall b: nat :: Voted(b) && b <= last ==> (r, b) in votes
  }

  lemma SameReplica(s: System, s': System, r: ReplicaId, w: Place, net: nat)
    requires ReplicaAt(s, r, w, net) && r in s'.replicas && s'.replicas[r] == s.replicas[r] && s.net.votes <= s'.net.votes
    ensures ReplicaAt(s', r, w, net) && ReplicaAt(s', r, w, net + 1)
  {
  }

  lemma MoreVotes(votes: set<(ReplicaId, BlockId)>, r: ReplicaId, last: nat, more: set<(ReplicaId, BlockId)>)
    requires VotedUpTo(votes, r, last) && votes <= more
    ensures VotedUpTo(more, r, last)
  {
  }

  lemma OneVote(votes: set<(ReplicaId, BlockId)>, r: ReplicaId, b: BlockId)
    requires Voted(b) && VotedUpTo(votes, r, Before(b))
    ensures VotedUpTo(votes + {(r, b)}, r, b)
  {
  }

  lemma EachAt(s: System, p: Progress, r: ReplicaId)
    requires At(s, p) && r < 3
    ensures ReplicaAt(s, r, p.Of(r), p.net) && s.net.tree == Blocks(p.net) && p.net <= 10 && Sane(s)
  {
    AtSane(s, p);
    if r == 0 {
      assert p.Of(0) == p.first;
    } else if r == 1 {
      assert p.Of(1) == p.second;
    } else {
      assert r == 2 && p.Of(2) == p.third;
    }
  }

  /** A step of the replica `r` alone, which takes it to `w`. */
  ghost predicate Moves(s: System, s': System, r: ReplicaId, w: Place, net: nat) {
    && r in s'.replicas && s'.replicas == s.replicas[r := s'.replicas[r]]
    && s'.net.tree == s.net.tree && s.net.votes <= s'.net.votes
    && ReplicaAt(s', r, w, net)
  }

  lemma OneReplica(s: System, s': System, p: Progress, r: ReplicaId, w: Place, to: Progress)
    requires At(s, p) && r < 3 && Moves(s, s', r, w, p.net) && to == p.With(r, w)
    ensures At(s', to)
  {
    if r != 0 { SameReplica(s, s', 0, p.first, p.net); }
    if r != 1 { SameReplica(s, s', 1, p.second, p.net); }
    if r != 2 { SameReplica(s, s', 2, p.third, p.net); }
    MoreVotes(s.net.votes, 3, p.lent, s'.net.votes);
  }

  /** A step of none. */
  lemma NoReplica(s: System, s': System, p: Progress, to: Progress)
    requires At(s, p) && s'.replicas == s.replicas && s.net.votes <= s'.net.votes
    requires to.net <= 10 && (to.net == p.net || to.net == p.net + 1) && s'.net.tree == Blocks(to.net)
    requires to == p.(net := to.net, lent := to.lent) && VotedUpTo(s'.net.votes, 3, to.lent)
    ensures At(s', to)
  {
    SameReplica(s, s', 0, p.first, p.net);
    SameReplica(s, s', 1, p.second, p.net);
    SameReplica(s, s', 2, p.third, p.net);
  }

  lemma AtSane(s: System, p: Progress)
    requires At(s, p)
    ensures Sane(s)
  {
    BlocksValid(p.net);
    ProfileValid(s.replicas[0].core, p.first.have, p.first.last);
    ProfileValid(s.replicas[1].core, p.second.have, p.second.last);
    ProfileValid(s.replicas[2].core, p.third.have, p.third.last);
    forall r | r in s.replicas ensures SaneReplica(s.replicas[r]) {
      assert r == 0 || r == 1 || r == 2;
    }
  }

  /** A step from `s` to a state that is as far as `to` says. */
  ghost predicate Leads(cfg: Config, s: System, s': System, step: Step, to: Progress)
    requires cfg.Valid()
  {
    Sane(s) && LooseStep(cfg, s, s', step) && At(s', to)
  }

  lemma ExtendTo(cfg: Config, run: seq<System>, s': System, step: Step, to: Progress) returns (next: seq<System>)
    requires SoFar(cfg, run) && Leads(cfg, Last(run), s', step, to)
    ensures SoFar(cfg, next) && At(Last(next), to)
  {
    next := Extend(cfg, run, s', step);
  }

  /** The certificate inside `b` holds the votes of 0, 1 and 3. */
  predicate Ready(p: Progress, b: BlockId) {
    Obj(b) == GENESIS || (Voted(Obj(b)) && Obj(b) <= p.first.last && Obj(b) <= p.second.last && Obj(b) <= p.lent)
  }

  lemma ReadyCertificate(cfg: Config, s: System, p: Progress, b: BlockId)
    requires Suits(cfg) && At(s, p) && Ready(p, b)
    ensures QcValid(cfg, s.net, Certificate(Obj(b)).value)
  {
    if Obj(b) != GENESIS {
      var signers: set<ReplicaId> := {0, 1, 3};
      assert Certificate(Obj(b)).value.signers == signers && |signers| == 3;
      assert (0, Obj(b)) in s.net.votes && (1, Obj(b)) in s.net.votes && (3, Obj(b)) in s.net.votes;
    }
  }

  lemma NextVerifies(cfg: Config, s: Net, n: nat, b: BlockId)
    requires cfg.Valid() && b == n + 1 && b <= 10 && s.tree == Blocks(n) && QcValid(cfg, s, Certificate(Obj(b)).value)
    ensures ValidTree(s.tree) && Verifies(cfg, s, b, Blk(b)) && AddBlk(s, b, Blk(b)).tree == Blocks(b)
  {
    BlocksValid(n);
    BlocksMeaning(n, b);
    BlocksMeaning(n, Below(b));
    BlocksNext(n, b);
  }

  lemma ForgeTo(cfg: Config, s: System, n: nat, b: BlockId) returns (s': System)
    requires cfg.Valid() && Sane(s) && b == n + 1 && b <= 10 && s.net.tree == Blocks(n)
    requires QcValid(cfg, s.net, Certificate(Obj(b)).value)
    ensures LooseStep(cfg, s, s', Forge(b, Blk(b)))
    ensures s'.replicas == s.replicas && s'.net.votes == s.net.votes && s'.net.tree == Blocks(b)
  {
    NextVerifies(cfg, s.net, n, b);
    s' := s.(net := AddBlk(s.net, b, Blk(b)));
    assert ForgesAny(cfg, s, s', b, Blk(b));
  }

  lemma ForgeNext(cfg: Config, s: System, p: Progress, b: BlockId, to: Progress) returns (s': System)
    requires Suits(cfg) && At(s, p) && b == p.net + 1 && b <= 10 && Ready(p, b) && to == p.(net := b)
    ensures Leads(cfg, s, s', Forge(b, Blk(b)), to)
  {
    AtSane(s, p);
    ReadyCertificate(cfg, s, p, b);
    s' := ForgeTo(cfg, s, p.net, b);
    NoReplica(s, s', p, to);
  }

  lemma Deliverable(t: Tree, net: nat, mine: Tree, n: nat, b: BlockId)
    requires b == n + 1 && b <= net <= 10 && t == Blocks(net) && mine == Blocks(n)
    ensures b in t && t[b] == Blk(b) && b !in mine
    ensures (forall p :: p in t[b].parents ==> p in mine) && QcRef(t, b).Some? && QcRef(t, b).value in mine
  {
    BlocksMeaning(net, b);
    BlocksMeaning(n, b);
    BlocksMeaning(n, Below(b));
    BlocksMeaning(n, Obj(b));
  }

  lemma DeliverCore(t: Tree, net: nat, c: Core, w: Place, w': Place) returns (c': Core)
    requires w' == Place(w.have + 1, w.last) && w'.have <= net <= 10 && t == Blocks(net) && Profile(c, w.have, w.last)
    ensures var b := w'.have;
            && b in t && b !in c.tree && (forall p :: p in t[b].parents ==> p in c.tree)
            && QcRef(t, b).Some? && QcRef(t, b).value in c.tree && c' == DeliverBlk(c, b, t[b])
    ensures Profile(c', w'.have, w'.last) && c.tree.Keys <= c'.tree.Keys
  {
    Deliverable(t, net, c.tree, w.have, w'.have);
    Delivered(c, w.have, w'.have, w.last);
    c' := DeliverBlk(c, w'.have, t[w'.have]);
  }

  lemma DeliverTo(cfg: Config, s: System, r: ReplicaId, w: Place, w': Place, net: nat) returns (s': System)
    requires cfg.Valid() && Sane(s) && ReplicaAt(s, r, w, net) && s.net.tree == Blocks(net) && net <= 10
    requires w' == Place(w.have + 1, w.last) && w'.have <= net
    ensures LooseStep(cfg, s, s', Deliver(r, w'.have)) && Moves(s, s', r, w', net)
  {
    var c' := DeliverCore(s.net.tree, net, s.replicas[r].core, w, w');
    s' := s.(replicas := s.replicas[r := s.replicas[r].(core := c')]);
    assert Delivers(s, s', r, w'.have);
  }

  lemma DeliverNext(cfg: Config, s: System, p: Progress, r: ReplicaId, w: Place, w': Place, to: Progress) returns (s': System)
    requires Suits(cfg) && At(s, p) && r < 3 && w == p.Of(r) && w' == Place(w.have + 1, w.last) && w'.have <= p.net
    requires to == p.With(r, w')
    ensures Leads(cfg, s, s', Deliver(r, w'.have), to)
  {
    EachAt(s, p, r);
    s' := DeliverTo(cfg, s, r, w, w', p.net);
    OneReplica(s, s', p, r, w', to);
  }

  lemma VoteOne(v: Variant, q: Replica, n: nat, b: BlockId) returns (q': Replica, tail: BlockId)
    requires !v.twoStep && Voted(b) && b <= n && Profile(q.core, n, Before(b)) && q.tail in q.core.tree
    ensures q.core.Valid()
    ensures var o := ReceiveProposal(v, q.core, b);
            && o.vote && o.error == None && o.core.Valid()
            && AfterHqc(q.core, o.core, q.tail, tail) && tail in o.core.tree
            && q' == Replica(o.core, AfterReceive(o.core, b, tail))
    ensures Profile(q'.core, n, b) && q'.tail in q'.core.tree
  {
    Handled(v, q.core, n, b);
    var o := ReceiveProposal(v, q.core, b);
    ProfileValid(o.core, n, b);
    tail := TailExists(q.core, o.core, q.tail);
    q' := Replica(o.core, AfterReceive(o.core, b, tail));
  }

  lemma VoteTo(cfg: Config, s: System, r: ReplicaId, w: Place, w': Place, net: nat) returns (s': System)
    requires Suits(cfg) && Sane(s) && ReplicaAt(s, r, w, net)
    requires Voted(w'.last) && w'.last <= w.have && w == Place(w'.have, Before(w'.last))
    ensures LooseStep(cfg, s, s', HandleProposal(r, w'.last)) && Moves(s, s', r, w', net)
  {
    var b := w'.last;
    var q', tail := VoteOne(cfg.v, s.replicas[r], w.have, b);
    s' := System(s.net.(votes := s.net.votes + {(r, b)}), s.replicas[r := q']);
    VoteHandled(cfg, s, s', r, b, q', tail);
    VoteMoves(s, s', r, w, w', net, q');
  }

  lemma VoteHandled(cfg: Config, s: System, s': System, r: ReplicaId, b: BlockId, q': Replica, tail: BlockId)
    requires Suits(cfg) && Sane(s) && r in s.replicas && s.replicas[r].core.Valid()
    requires var q := s.replicas[r];
             var o := ReceiveProposal(cfg.v, q.core, b);
             && o.vote && o.error == None && o.core.Valid()
             && AfterHqc(q.core, o.core, q.tail, tail) && tail in o.core.tree
             && q' == Replica(o.core, AfterReceive(o.core, b, tail))
    requires s' == System(s.net.(votes := s.net.votes + {(r, b)}), s.replicas[r := q'])
    ensures LooseStep(cfg, s, s', HandleProposal(r, b))
  {
    assert s'.replicas[r] == q' && s.replicas[r := s'.replicas[r]] == s'.replicas;
    assert HandlesProposal(cfg, s, s', r, b);
  }

  lemma VoteMoves(s: System, s': System, r: ReplicaId, w: Place, w': Place, net: nat, q': Replica)
    requires ReplicaAt(s, r, w, net) && Voted(w'.last) && w == Place(w'.have, Before(w'.last))
    requires s' == System(s.net.(votes := s.net.votes + {(r, w'.last)}), s.replicas[r := q'])
    requires Profile(q'.core, w'.have, w'.last) && q'.tail in q'.core.tree
    ensures Moves(s, s', r, w', net)
  {
    OneVote(s.net.votes, r, w'.last);
    assert s'.replicas[r] == q';
  }

  lemma VoteNext(cfg: Config, s: System, p: Progress, r: ReplicaId, w: Place, w': Place, to: Progress) returns (s': System)
    requires Suits(cfg) && At(s, p) && r < 3 && w == p.Of(r)
    requires Voted(w'.last) && w'.last <= w.have && w == Place(w'.have, Before(w'.last)) && to == p.With(r, w')
    ensures Leads(cfg, s, s', HandleProposal(r, w'.last), to)
  {
    EachAt(s, p, r);
    s' := VoteTo(cfg, s, r, w, w', p.net);
    OneReplica(s, s', p, r, w', to);
  }

  lemma LendTo(cfg: Config, s: System, b: BlockId) returns (s': System)
    requires Suits(cfg) && Sane(s) && b in s.net.tree
    ensures LooseStep(cfg, s, s', ForgeVote(3, b))
    ensures s'.replicas == s.replicas && s'.net.tree == s.net.tree && s'.net.votes == s.net.votes + {(3, b)}
  {
    s' := s.(net := s.net.(votes := s.net.votes + {(3, b)}));
    assert VoteForged(cfg, s, s', 3, b);
  }

  lemma LendNext(cfg: Config, s: System, p: Progress, b: BlockId, to: Progress) returns (s': System)
    requires Suits(cfg) && At(s, p) && Voted(b) && b <= p.net && p.lent == Before(b) && to == p.(lent := b)
    ensures Leads(cfg, s, s', ForgeVote(3, b), to)
  {
    AtSane(s, p);
    BlocksMeaning(p.net, b);
    s' := LendTo(cfg, s, b);
    OneVote(s.net.votes, 3, b);
    NoReplica(s, s', p, to);
  }

  // ---------------------------------------------------------------- the run

  /** All have the blocks up to `n`; 0, 1 and 3 voted up to `last`. */
  function Together(n: nat, last: nat): Progress {
    Progress(n, Place(n, last), Place(n, last), Place(n, 0), last)
  }

  lemma NextBlock(cfg: Config, run: seq<System>, n: nat, b: BlockId, last: nat) returns (next: seq<System>)
    requires Suits(cfg) && b == n + 1 && b <= 10
    requires SoFar(cfg, run) && At(Last(run), Together(n, last)) && Ready(Together(n, last), b)
    ensures SoFar(cfg, next) && At(Last(next), Together(b, last))
  {
    var none := Together(n, last).(net := b);
    var one := none.(first := Place(b, last));
    var two := one.(second := Place(b, last));
    var all := Together(b, last);
    var s' := ForgeNext(cfg, Last(run), Together(n, last), b, none);
    next := ExtendTo(cfg, run, s', Forge(b, Blk(b)), none);
    s' := DeliverNext(cfg, Last(next), none, 0, none.first, one.first, one);
    next := ExtendTo(cfg, next, s', Deliver(0, b), one);
    s' := DeliverNext(cfg, Last(next), one, 1, one.second, two.second, two);
    next := ExtendTo(cfg, next, s', Deliver(1, b), two);
    s' := DeliverNext(cfg, Last(next), two, 2, two.third, all.third, all);
    next := ExtendTo(cfg, next, s', Deliver(2, b), all);
  }

  lemma VoteRound(cfg: Config, run: seq<System>, n: nat) returns (next: seq<System>)
    requires Suits(cfg) && n <= 10 && Voted(n) && SoFar(cfg, run) && At(Last(run), Together(n, Before(n)))
    ensures SoFar(cfg, next) && At(Last(next), Together(n, n))
  {
    var none := Together(n, Before(n));
    var one := none.(first := Place(n, n));
    var two := one.(second := Place(n, n));
    var s' := VoteNext(cfg, Last(run), none, 0, none.first, one.first, one);
    next := ExtendTo(cfg, run, s', HandleProposal(0, n), one);
    s' := VoteNext(cfg, Last(next), one, 1, one.second, two.second, two);
    next := ExtendTo(cfg, next, s', HandleProposal(1, n), two);
    s' := LendNext(cfg, Last(next), two, n, Together(n, n));
    next := ExtendTo(cfg, next, s', ForgeVote(3, n), Together(n, n));
  }

  function LastVoted(n: nat): nat {
    if n <= 3 then n else if n < 7 then 3 else if n <= 9 then n else 9
  }

  lemma LastVotedNext(n: nat, b: BlockId)
    requires b == n + 1 && b <= 10
    ensures Ready(Together(n, LastVoted(n)), b)
    ensures if Voted(b) then LastVoted(n) == Before(b) && LastVoted(b) == b else LastVoted(b) == LastVoted(n)
  {
  }

  lemma BlockAndVotes(cfg: Config, run: seq<System>, n: nat, b: BlockId, last: nat) returns (next: seq<System>)
    requires Suits(cfg) && b == n + 1 && b <= 10 && last == LastVoted(n)
    requires SoFar(cfg, run) && At(Last(run), Together(n, last))
    ensures SoFar(cfg, next) && At(Last(next), Together(b, LastVoted(b)))
  {
    LastVotedNext(n, b);
    next := NextBlock(cfg, run, n, b, last);
    if Voted(b) { next := VoteRound(cfg, next, b); }
  }

  lemma {:induction false} AllBlocks(cfg: Config, n: nat) returns (run: seq<System>)
    requires n <= 10 && Startable(cfg)
    ensures SoFar(cfg, run) && At(Last(run), Together(n, LastVoted(n)))
  {
    if n == 0 {
      run := Start(cfg);
    } else {
      var m := n - 1;
      run := AllBlocks(cfg, m);
      run := BlockAndVotes(cfg, run, m, n, LastVoted(m));
    }
  }

  ghost predicate Startable(cfg: Config) {
    Suits(cfg) && forall r: ReplicaId :: r in cfg.Replicas() - cfg.faulty <==> r < 3
  }

  lemma Start(cfg: Config) returns (run: seq<System>)
    requires Startable(cfg)
    ensures SoFar(cfg, run) && At(Last(run), Together(0, 0))
  {
    GenesisOnly();
    var s := System(Net(Blocks(0), {}),
                    map r: ReplicaId | r < 3 :: Replica(InitCore(r, cfg.NMajority(), cfg.Replicas()), GENESIS));
    run := [s];
    assert Init(cfg, s);
    assert Last(run) == s;
  }

  /** Without the hypothesis the three-step protocol is not safe, in either order of voting for an own
      block: there is a run after which two correct replicas have executed different blocks, and after
      which a correct replica that receives block 10 finds its safety breached. */
  lemma HypothesisNeeded(voteFirst: bool) returns (run: seq<System>)
    ensures var cfg := Four(voteFirst);
            && cfg.Valid() && IsLooseRun(cfg, run)
            && var s := run[|run| - 1];
               && 0 in s.replicas && 2 in s.replicas && 0 !in cfg.faulty && 2 !in cfg.faulty
               && s.replicas[0].core.log == [1] && s.replicas[2].core.log == [4, 5, 6, 7]
               && s.replicas[0].core.Valid() && 10 in s.replicas[0].core.tree
               && ReceiveProposal(cfg.v, s.replicas[0].core, 10).error == Some(SafetyBreached)
  {
    FourValid(voteFirst);
    var most := AllBlocks(Four(voteFirst), 10);
    run := LastStep(Four(voteFirst), most);
  }

  lemma LastStep(cfg: Config, run: seq<System>) returns (next: seq<System>)
    requires SoFar(cfg, run) && At(Last(run), Together(10, 9))
    ensures SoFar(cfg, next) && 0 in Last(next).replicas && 2 in Last(next).replicas
    ensures var c := Last(next).replicas[0].core;
            && c.log == [1] && c.Valid() && 10 in c.tree
            && ReceiveProposal(cfg.v, c, 10).error == Some(SafetyBreached)
    ensures Last(next).replicas[2].core.log == [4, 5, 6, 7]
  {
    var s' := LastAt(cfg, Last(run), Together(10, 9));
    next := Extend(cfg, run, s', HandleProposal(2, 10));
  }

  lemma LastAt(cfg: Config, s: System, p: Progress) returns (s': System)
    requires cfg.Valid() && !cfg.v.twoStep && p == Together(10, 9) && At(s, p)
    ensures Sane(s) && LooseStep(cfg, s, s', HandleProposal(2, 10))
    ensures 0 in s'.replicas && 2 in s'.replicas
    ensures var c := s'.replicas[0].core;
            && c.log == [1] && c.Valid() && 10 in c.tree && ReceiveProposal(cfg.v, c, 10).error == Some(SafetyBreached)
    ensures s'.replicas[2].core.log == [4, 5, 6, 7]
  {
    AtSane(s, p);
    Breaches(cfg.v, s.replicas[0].core);
    BlocksMeaning(10, 10);
    var q', o := LastReplica(cfg.v, s.replicas[2]);
    s' := System(Record(s.net, o, 2, 10), s.replicas[2 := q']);
    assert s'.replicas[0] == s.replicas[0] && s'.replicas[2] == q';
  }

  lemma LastReplica(v: Variant, q: Replica) returns (q': Replica, o: Outcome)
    requires !v.twoStep && Profile(q.core, 10, 0) && q.tail in q.core.tree
    ensures q.core.Valid() && o == ReceiveProposal(v, q.core, 10) && o.error == None && o.core.Valid()
    ensures exists tail :: && AfterHqc(q.core, o.core, q.tail, tail) && tail in o.core.tree
                           && q' == Replica(o.core, AfterReceive(o.core, 10, tail))
    ensures q'.core.log == [4, 5, 6, 7]
  {
    OtherBranch(v, q.core);
    o := ReceiveProposal(v, q.core, 10);
    var tail := TailExists(q.core, o.core, q.tail);
    q' := Replica(o.core, AfterReceive(o.core, 10, tail));
  }
}
