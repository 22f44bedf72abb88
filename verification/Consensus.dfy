/** The HotStuff core of one replica: what each handler does to the replica's state, as a function
    of that state. Module `HotStuffMachine` has the handlers that change it step by step. */
module Consensus {
  import opened BlockTree
  import opened Sequences

  /** Compile-time variants of the protocol.
      `twoStep`: HOTSTUFF_TWO_STEP is defined.
      `voteFirst`: the baseline's order, which votes for its own proposal before `update`. */
  datatype Variant = Variant(twoStep: bool, voteFirst: bool)

  datatype Error = NotDelivered | NotFetched | NotHigher | EmptyParents | SafetyBreached

  /** The state variables of `HotStuffCore`, with the per-block flags of the replica's own blocks:
      `decided` are the blocks whose `decision` is set and `voted` their collected voters. `log` is
      the sequence of blocks handed to `do_consensus`. */
  datatype Core = Core(
    id: ReplicaId,
    nmajority: nat,
    tree: Tree,
    tails: set<BlockId>,
    hqc: BlockId,
    hqcCert: QC,
    bLock: BlockId,
    bExec: BlockId,
    vheight: nat,
    voteDisabled: bool,
    decided: set<BlockId>,
    voted: map<BlockId, set<ReplicaId>>,
    log: seq<BlockId>)
  {
    function Height(b: BlockId): nat
      requires b in tree
    {
      tree[b].height
    }

    function Voters(b: BlockId): set<ReplicaId> {
      if b in voted then voted[b] else {}
    }

    ghost predicate Valid() {
      && ValidTree(tree)
      && hqc in tree && bLock in tree && bExec in tree
      && GENESIS in decided
    }
  }

  /** What a handler leaves behind: the new state, whether it sent a vote, and the exception that
      ended it, if any. */
  datatype Outcome = Outcome(core: Core, vote: bool, error: Option<Error>)

  function Done(c: Core): Outcome { Outcome(c, false, None) }

  function InitCore(id: ReplicaId, nmajority: nat, replicas: set<ReplicaId>): Core {
    var genesis := Block([], [], Some(QC(GENESIS, {})), 0);
    Core(id, nmajority, map[GENESIS := genesis], {GENESIS}, GENESIS, QC(GENESIS, {}), GENESIS, GENESIS, 0,
         false, {GENESIS}, map[GENESIS := replicas], [])
  }

  function DeliverBlk(c: Core, b: BlockId, blk: Block): Core {
    c.(tree := c.tree[b := blk], tails := c.tails - Elements(blk.parents) + {b})
  }

  function UpdateHqc(c: Core, b: BlockId, qc: QC): (r: Core)
    requires c.Valid() && b in c.tree
    ensures r.Valid() && r.tree == c.tree
  {
    if c.Height(b) > c.Height(c.hqc) then c.(hqc := b, hqcCert := qc) else c
  }

  /** The loop that collects undecided ancestors of `b` and the loop that decides them. */
  function Commit(c: Core, b: BlockId): (r: Outcome)
    requires c.Valid() && b in c.tree
    ensures r.core.Valid() && r.core.tree == c.tree
  {
    if Walk(c.tree, b, c.Height(c.bExec)) != c.bExec then
      Outcome(c, false, Some(SafetyBreached))
    else
      var chain := ChainUp(c.tree, b, c.Height(c.bExec));
      Done(c.(decided := c.decided + Elements(chain), log := c.log + chain, bExec := b))
  }

  /** The part of `update` shared by both variants: lock `mid`, and commit the block it certifies
      when the direct-parent rule holds. `direct` is the part of that rule above `mid`. */
  function LockAndCommit(c: Core, mid: BlockId, direct: bool): (r: Outcome)
    requires c.Valid() && mid in c.tree && mid != GENESIS
    ensures r.core.Valid() && r.core.tree == c.tree
  {
    var c1 := if c.Height(mid) > c.Height(c.bLock) then c.(bLock := mid) else c;
    match QcRef(c1.tree, mid)
    case None => Done(c1)
    case Some(blk) =>
      if blk in c1.decided then Done(c1)
      else if !direct || Parent(c1.tree, mid) != blk then Done(c1)
      else Commit(c1, blk)
  }

  function Update(v: Variant, c: Core, nblk: BlockId): (r: Outcome)
    requires c.Valid() && nblk in c.tree
    ensures r.core.Valid() && r.core.tree == c.tree
  {
    match QcRef(c.tree, nblk)
    case None => Done(c)
    case Some(top) =>
      if top in c.decided then Done(c)
      else
        var c1 := UpdateHqc(c, top, c.tree[nblk].qc.value);
        if v.twoStep then LockAndCommit(c1, top, true)
        else
          match QcRef(c1.tree, top)
          case None => Done(c1)
          case Some(mid) =>
            if mid in c1.decided then Done(c1)
            else LockAndCommit(c1, mid, Parent(c1.tree, top) == mid)
  }

  /** The vote rule: higher than any block voted for, and either certified above the lock or on the
      locked branch. */
  predicate Opinion(c: Core, b: BlockId)
    requires c.Valid() && b in c.tree
  {
    && c.Height(b) > c.vheight
    && ((QcRef(c.tree, b).Some? && c.Height(QcRef(c.tree, b).value) > c.Height(c.bLock))
        || Walk(c.tree, b, c.Height(c.bLock)) == c.bLock)
  }

  function CastVote(c: Core, b: BlockId): Outcome
    requires c.Valid() && b in c.tree
  {
    if Opinion(c, b) then Outcome(c.(vheight := c.Height(b)), !c.voteDisabled, None) else Done(c)
  }

  /** `on_receive_proposal` for a proposal of another replica. */
  function ReceiveProposal(v: Variant, c: Core, b: BlockId): Outcome
    requires c.Valid()
  {
    if b !in c.tree then Outcome(c, false, Some(NotDelivered))
    else
      var u := Update(v, c, b);
      if u.error.Some? then u else CastVote(u.core, b)
  }

  function NewBlock(c: Core, parents: seq<BlockId>, cmds: seq<Cmd>): Block
    requires c.Valid() && |parents| > 0 && parents[0] in c.tree
  {
    Block(parents, cmds, Some(c.hqcCert), c.Height(parents[0]) + 1)
  }

  /** The proposer's own handling of its new block `b`, already delivered, in the orders of the two
      programs. */
  function OwnBlock(v: Variant, c: Core, b: BlockId): Outcome
    requires c.Valid() && b in c.tree
  {
    if v.voteFirst then
      if c.Height(b) <= c.vheight then Outcome(c, false, Some(NotHigher))
      else
        var o := CastVote(c, b);
        var u := Update(v, o.core, b);
        Outcome(u.core, o.vote, u.error)
    else
      var u := Update(v, c, b);
      if u.error.Some? then u
      else if u.core.Height(b) <= u.core.vheight then Outcome(u.core, false, Some(NotHigher))
      else CastVote(u.core, b)
  }

  /** `on_propose` for a block with the new hash `b`. */
  function Propose(v: Variant, c: Core, b: BlockId, parents: seq<BlockId>, cmds: seq<Cmd>): Outcome
    requires c.Valid() && b !in c.tree && c.hqcCert.obj == c.hqc
    requires forall p :: p in parents ==> p in c.tree
  {
    if parents == [] then Outcome(c, false, Some(EmptyParents))
    else
      var c1 := DeliverBlk(c, b, NewBlock(c, parents, cmds));
      assert c1.Valid() by { DeliverKeepsValid(c, b, NewBlock(c, parents, cmds)); }
      OwnBlock(v, c1, b)
  }

  function ReceiveVote(c: Core, voter: ReplicaId, b: BlockId): Outcome
    requires c.Valid()
  {
    if b !in c.tree then Outcome(c, false, Some(NotDelivered))
    else if |c.Voters(b)| >= c.nmajority || voter in c.Voters(b) then Done(c)
    else
      var c1 := c.(voted := c.voted[b := c.Voters(b) + {voter}]);
      if |c.Voters(b)| + 1 == c.nmajority then Done(UpdateHqc(c1, b, QC(b, c1.Voters(b))))
      else Done(c1)
  }

  lemma DeliverKeepsValid(c: Core, b: BlockId, blk: Block)
    requires c.Valid() && b !in c.tree
    requires |blk.parents| > 0 && forall p :: p in blk.parents ==> p in c.tree
    requires blk.height == c.tree[blk.parents[0]].height + 1
    ensures DeliverBlk(c, b, blk).Valid()
  {
    AddValid(c.tree, b, blk);
  }

  lemma ProposeUnfold(v: Variant, c: Core, b: BlockId, parents: seq<BlockId>, cmds: seq<Cmd>)
    requires c.Valid() && b !in c.tree && c.hqcCert.obj == c.hqc
    requires parents != [] && forall p :: p in parents ==> p in c.tree
    ensures var c1 := DeliverBlk(c, b, NewBlock(c, parents, cmds));
            c1.Valid() && Propose(v, c, b, parents, cmds) == OwnBlock(v, c1, b)
  {
    DeliverKeepsValid(c, b, NewBlock(c, parents, cmds));
  }

  /** What `update` leaves alone; it casts no vote and refuses nothing for its height. */
  predicate Frames(c: Core, o: Outcome) {
    o.core.tails == c.tails && o.core.vheight == c.vheight && !o.vote && o.error != Some(NotHigher)
  }

  lemma LockAndCommitKeeps(c: Core, mid: BlockId, direct: bool)
    requires c.Valid() && mid in c.tree && mid != GENESIS
    ensures Frames(c, LockAndCommit(c, mid, direct))
  {
  }

  lemma UpdateKeeps(v: Variant, c: Core, b: BlockId)
    requires c.Valid() && b in c.tree
    ensures Frames(c, Update(v, c, b))
  {
    var top := QcRef(c.tree, b);
    if top.Some? && top.value !in c.decided {
      var c1 := UpdateHqc(c, top.value, c.tree[b].qc.value);
      var mid := QcRef(c.tree, top.value);
      if v.twoStep {
        LockAndCommitKeeps(c1, top.value, true);
      } else if mid.Some? && mid.value !in c.decided {
        LockAndCommitKeeps(c1, mid.value, Parent(c.tree, top.value) == mid.value);
      }
    }
  }

  lemma CastVoteTails(c: Core, b: BlockId)
    requires c.Valid() && b in c.tree
    ensures var c' := CastVote(c, b).core; c'.Valid() && c'.tree == c.tree && c'.tails == c.tails
  {
  }

  lemma OwnBlockTails(v: Variant, c: Core, b: BlockId)
    requires c.Valid() && b in c.tree
    ensures var c' := OwnBlock(v, c, b).core; c'.Valid() && c'.tree == c.tree && c'.tails == c.tails
  {
    CastVoteTails(c, b);
    UpdateKeeps(v, CastVote(c, b).core, b);
    UpdateKeeps(v, c, b);
    CastVoteTails(Update(v, c, b).core, b);
  }

  lemma OwnBlockGuard(v: Variant, c: Core, b: BlockId)
    requires c.Valid() && b in c.tree
    ensures var o := OwnBlock(v, c, b);
            && (o.error == None ==> c.Height(b) > c.vheight)
            && (o.error == Some(NotHigher) ==> c.Height(b) <= c.vheight == o.core.vheight && !o.vote)
  {
    UpdateKeeps(v, c, b);
    UpdateKeeps(v, CastVote(c, b).core, b);
  }

  /** Handling a proposal touches neither the tree nor the tails. */
  lemma ReceiveProposalKeeps(v: Variant, c: Core, b: BlockId)
    requires c.Valid()
    ensures var c' := ReceiveProposal(v, c, b).core; c'.Valid() && c'.tree == c.tree && c'.tails == c.tails
  {
    if b in c.tree {
      UpdateKeeps(v, c, b);
      CastVoteTails(Update(v, c, b).core, b);
    }
  }

  /** Proposing adds the new block alone. */
  lemma ProposeKeeps(v: Variant, c: Core, b: BlockId, parents: seq<BlockId>, cmds: seq<Cmd>)
    requires c.Valid() && b !in c.tree && c.hqcCert.obj == c.hqc && c.tails <= c.tree.Keys
    requires parents != [] && forall p :: p in parents ==> p in c.tree
    ensures var c' := Propose(v, c, b, parents, cmds).core;
            c'.Valid() && c'.tree.Keys == c.tree.Keys + {b} && c'.tails <= c'.tree.Keys
  {
    ProposeUnfold(v, c, b, parents, cmds);
    OwnBlockTails(v, DeliverBlk(c, b, NewBlock(c, parents, cmds)), b);
  }
}
