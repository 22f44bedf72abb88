/** Blocks, quorum certificates and the tree they form.

    A block hash is modelled as an opaque identity (`BlockId`), so a block is an immutable record
    found under its identity; the per-replica mutable parts of the source's `Block` (`voted`,
    `decision`) live in the replica state of module `Consensus`. */
module BlockTree {

  type BlockId = nat
  type ReplicaId = nat
  type Cmd = nat

  datatype Option<+T> = None | Some(value: T)

  /** A quorum certificate: the block it is about and the replicas whose votes it contains. */
  datatype QC = QC(obj: BlockId, signers: set<ReplicaId>)

  datatype Block = Block(parents: seq<BlockId>, cmds: seq<Cmd>, qc: Option<QC>, height: nat)

  type Tree = map<BlockId, Block>

  const GENESIS: BlockId := 0

  /** Every block but the genesis has delivered parents and sits one above its first parent. */
  ghost predicate ValidTree(t: Tree) {
    && GENESIS in t
    && t[GENESIS].height == 0
    && t[GENESIS].qc == Some(QC(GENESIS, {}))
    && (forall b {:trigger HasParents(t, b)} :: b in t && b != GENESIS ==> HasParents(t, b))
  }

  /** The block that the certificate inside `b` is about (`qc_ref`). Until that block is delivered it has
      height 0 and no certificate of its own, and every handler treats it as if it were not there. */
  function QcRef(t: Tree, b: BlockId): Option<BlockId> {
    if b in t && t[b].qc.Some? && t[b].qc.value.obj in t then Some(t[b].qc.value.obj) else None
  }

  /** Every certificate is about a block of the tree. */
  ghost predicate CertsExist(t: Tree) {
    forall b {:trigger t[b]} :: b in t && t[b].qc.Some? ==> t[b].qc.value.obj in t
  }

  ghost predicate HasParents(t: Tree, b: BlockId)
    requires b in t
  {
    && |t[b].parents| > 0
    && (forall i :: 0 <= i < |t[b].parents| ==> t[b].parents[i] in t)
    && t[b].height == t[t[b].parents[0]].height + 1
  }

  function Parent(t: Tree, b: BlockId): (p: BlockId)
    requires ValidTree(t) && b in t && b != GENESIS
    ensures p in t && t[b].height == t[p].height + 1
  {
    assert HasParents(t, b);
    t[b].parents[0]
  }

  /** The block reached from `b` by following first parents while the height exceeds `h`. */
  function Walk(t: Tree, b: BlockId, h: nat): (r: BlockId)
    requires ValidTree(t) && b in t
    ensures r in t && t[r].height <= h
    ensures h <= t[b].height ==> t[r].height == h
    ensures t[b].height <= h ==> r == b
    decreases t[b].height
  {
    if t[b].height <= h then b else Walk(t, Parent(t, b), h)
  }

  /** `a` lies on the first-parent chain of `b` (or is `b`). */
  ghost predicate OnBranch(t: Tree, a: BlockId, b: BlockId)
    requires ValidTree(t)
  {
    a in t && b in t && t[a].height <= t[b].height && Walk(t, b, t[a].height) == a
  }

  /** The chain from just above height `h` up to and including `b`, lowest block first. */
  function ChainUp(t: Tree, b: BlockId, h: nat): (s: seq<BlockId>)
    requires ValidTree(t) && b in t
    ensures |s| == if t[b].height <= h then 0 else t[b].height - h
    decreases t[b].height
  {
    if t[b].height <= h then [] else ChainUp(t, Parent(t, b), h) + [b]
  }

  /** The hypothesis on delivered blocks that `on_deliver_blk` does not check: the block a
      certificate refers to is a proper ancestor of the block carrying that certificate. */
  ghost predicate QcOnChain(t: Tree, b: BlockId)
    requires ValidTree(t) && b in t
  {
    b != GENESIS && QcRef(t, b).Some? ==> OnBranch(t, QcRef(t, b).value, Parent(t, b))
  }

  ghost predicate WellFormed(t: Tree) {
    ValidTree(t) && CertsExist(t) && forall b {:trigger QcOnChain(t, b)} :: b in t ==> QcOnChain(t, b)
  }

  ghost predicate SubTree(t: Tree, u: Tree) {
    forall b :: b in t ==> b in u && u[b] == t[b]
  }

  lemma {:induction false} WalkWalk(t: Tree, b: BlockId, hi: nat, lo: nat)
    requires ValidTree(t) && b in t && lo <= hi
    ensures Walk(t, Walk(t, b, hi), lo) == Walk(t, b, lo)
    decreases t[b].height
  {
    if t[b].height > hi {
      WalkWalk(t, Parent(t, b), hi, lo);
    }
  }

  lemma OnBranchTransitive(t: Tree, a: BlockId, b: BlockId, c: BlockId)
    requires ValidTree(t) && OnBranch(t, a, b) && OnBranch(t, b, c)
    ensures OnBranch(t, a, c)
  {
    WalkWalk(t, c, t[b].height, t[a].height);
  }

  /** Two ancestors of one block are comparable. */
  lemma OnBranchComparable(t: Tree, a: BlockId, b: BlockId, c: BlockId)
    requires ValidTree(t) && OnBranch(t, a, c) && OnBranch(t, b, c) && t[a].height <= t[b].height
    ensures OnBranch(t, a, b)
  {
    WalkWalk(t, c, t[b].height, t[a].height);
  }

  lemma OnlyGenesisAtZero(t: Tree, b: BlockId)
    requires ValidTree(t) && b in t
    ensures t[b].height == 0 ==> b == GENESIS
  {
    assert b != GENESIS ==> HasParents(t, b);
  }

  lemma GenesisBelowAll(t: Tree, b: BlockId)
    requires ValidTree(t) && b in t
    ensures OnBranch(t, GENESIS, b)
  {
    OnlyGenesisAtZero(t, Walk(t, b, 0));
  }

  lemma {:induction false} ChainUpSplit(t: Tree, b: BlockId, a: BlockId, h: nat)
    requires ValidTree(t) && OnBranch(t, a, b) && h <= t[a].height
    ensures ChainUp(t, b, h) == ChainUp(t, a, h) + ChainUp(t, b, t[a].height)
    decreases t[b].height
  {
    if t[b].height > t[a].height {
      ChainUpSplit(t, Parent(t, b), a, h);
    }
  }

  lemma {:induction false} ChainUpMembers(t: Tree, b: BlockId, h: nat, x: BlockId)
    requires ValidTree(t) && b in t
    ensures x in ChainUp(t, b, h) <==> (OnBranch(t, x, b) && t[x].height > h)
    decreases t[b].height
  {
    if t[b].height > h {
      ChainUpMembers(t, Parent(t, b), h, x);
      assert b in t && (OnBranch(t, x, b) <==> x == b || OnBranch(t, x, Parent(t, b)));
    }
  }

  /** Walking and chains only depend on the part of the tree below the starting block. */
  lemma {:induction false} WalkSub(t: Tree, u: Tree, b: BlockId, h: nat)
    requires ValidTree(t) && ValidTree(u) && SubTree(t, u) && b in t
    ensures Walk(t, b, h) == Walk(u, b, h)
    ensures ChainUp(t, b, h) == ChainUp(u, b, h)
    decreases t[b].height
  {
    if t[b].height > h {
      WalkSub(t, u, Parent(t, b), h);
    }
  }

  /** A tree holds the ancestors of its blocks. */
  lemma AncestorHere(t: Tree, u: Tree, a: BlockId, b: BlockId)
    requires ValidTree(t) && ValidTree(u) && SubTree(t, u) && b in t && OnBranch(u, a, b)
    ensures a in t
  {
    WalkSub(t, u, b, u[a].height);
  }

  lemma OnBranchSub(t: Tree, u: Tree, a: BlockId, b: BlockId)
    requires ValidTree(t) && ValidTree(u) && SubTree(t, u) && b in t
    ensures OnBranch(t, a, b) <==> OnBranch(u, a, b)
  {
    if a in u {
      WalkSub(t, u, b, u[a].height);
    }
  }

  /** Adding a block with existing parents keeps the tree valid. */
  lemma AddValid(t: Tree, b: BlockId, blk: Block)
    requires ValidTree(t) && b !in t
    requires |blk.parents| > 0 && forall i :: 0 <= i < |blk.parents| ==> blk.parents[i] in t
    requires blk.height == t[blk.parents[0]].height + 1
    ensures ValidTree(t[b := blk]) && SubTree(t, t[b := blk])
  {
    var u := t[b := blk];
    forall x | x in u && x != GENESIS ensures HasParents(u, x) {
      if x != b { assert HasParents(t, x); }
    }
  }

  /** Adding a well-formed block keeps the tree well formed. */
  lemma AddWellFormed(t: Tree, b: BlockId, blk: Block)
    requires WellFormed(t) && b !in t
    requires |blk.parents| > 0 && forall i :: 0 <= i < |blk.parents| ==> blk.parents[i] in t
    requires blk.height == t[blk.parents[0]].height + 1
    requires blk.qc.Some? ==> OnBranch(t, blk.qc.value.obj, blk.parents[0])
    ensures WellFormed(t[b := blk]) && SubTree(t, t[b := blk])
  {
    var u := t[b := blk];
    AddValid(t, b, blk);
    forall x | x in u ensures QcOnChain(u, x) {
      if x != GENESIS && QcRef(u, x).Some? {
        if x != b { assert QcOnChain(t, x); }
        OnBranchSub(t, u, QcRef(u, x).value, Parent(u, x));
      }
    }
  }
}
