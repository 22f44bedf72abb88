/** The replica and its pacemaker as objects whose handlers update their fields in place, each
    proved to do what the functions of module `Consensus` say. */
module HotStuffMachine {
  import opened BlockTree
  import opened Sequences
  import Spec = Consensus
  import HotStuff
  import PaceMaker

  type Variant = Spec.Variant
  type Error = Spec.Error
  type Replica = HotStuff.Replica

  class HotStuffCore {
    const id: ReplicaId
    const nmajority: nat
    var tree: Tree
    var tails: set<BlockId>
    var hqc: BlockId
    var hqcCert: QC
    var bLock: BlockId
    var bExec: BlockId
    var vheight: nat
    var voteDisabled: bool
    var decided: set<BlockId>
    var voted: map<BlockId, set<ReplicaId>>
    var log: seq<BlockId>

    function State(): Spec.Core
      reads this
    {
      Spec.Core(id, nmajority, tree, tails, hqc, hqcCert, bLock, bExec, vheight, voteDisabled, decided, voted, log)
    }

    ghost predicate Valid()
      reads this
    {
      State().Valid() && hqcCert.obj == hqc
    }

    constructor (id: ReplicaId, nmajority: nat, replicas: set<ReplicaId>)
      ensures State() == Spec.InitCore(id, nmajority, replicas)
      ensures Valid() && tree.Keys == {GENESIS} == tails == decided && hqc == bLock == bExec == GENESIS
      ensures vheight == 0 && !voteDisabled && log == [] && voted == map[GENESIS := replicas]
      ensures this.id == id && this.nmajority == nmajority
    {
      this.id := id;
      this.nmajority := nmajority;
      tree := map[GENESIS := Block([], [], Some(QC(GENESIS, {})), 0)];
      tails := {GENESIS};
      hqc, hqcCert := GENESIS, QC(GENESIS, {});
      bLock, bExec, vheight := GENESIS, GENESIS, 0;
      voteDisabled := false;
      decided, voted, log := {GENESIS}, map[GENESIS := replicas], [];
    }

    /** Delivers a fetched block; its height is derived from its first parent's. False when the block
        was delivered before, an error when a parent has not been delivered or the certified block not
        even been fetched. `fetched` are the undelivered blocks in the cache. */
    method OnDeliverBlk(b: BlockId, parents: seq<BlockId>, cmds: seq<Cmd>, qc: Option<QC>, fetched: set<BlockId>)
      returns (ok: bool, error: Option<Error>)
      requires Valid() && |parents| > 0
      modifies this`tree, this`tails
      ensures Valid()
      ensures error.Some? <==> b !in old(tree) && ((exists p :: p in parents && p !in old(tree)) || (qc.Some? && qc.value.obj !in old(tree).Keys + fetched))
      ensures ok <==> b !in old(tree) && error.None?
      ensures State() == if ok then Spec.DeliverBlk(old(State()), b, Block(parents, cmds, qc, old(tree)[parents[0]].height + 1))
                         else old(State())
      ensures ok ==> tree == old(tree)[b := Block(parents, cmds, qc, old(tree)[parents[0]].height + 1)]
      ensures ok ==> tails == old(tails) - Elements(parents) + {b}
    {
      ok, error := false, None;
      if b in tree { return; }
      var i := 0;
      while i < |parents|
        invariant i <= |parents|
        invariant forall k :: 0 <= k < i ==> parents[k] in tree
      {
        if parents[i] !in tree { return false, Some(Spec.NotDelivered); }
        i := i + 1;
      }
      if qc.Some? && qc.value.obj !in tree && qc.value.obj !in fetched { return false, Some(Spec.NotFetched); }
      var blk := Block(parents, cmds, qc, tree[parents[0]].height + 1);
      Spec.DeliverKeepsValid(State(), b, blk);
      i := 0;
      var rest := tails;
      while i < |parents|
        invariant i <= |parents|
        invariant rest == tails - set k | 0 <= k < i :: parents[k]
      {
        rest := rest - {parents[i]};
        i := i + 1;
      }
      assert (set k | 0 <= k < |parents| :: parents[k]) == Elements(parents);
      tails := rest + {b};
      tree := tree[b := blk];
      ok := true;
    }

    method UpdateHqc(b: BlockId, qc: QC)
      requires Valid() && b in tree && qc.obj == b
      modifies this`hqc, this`hqcCert
      ensures Valid() && State() == Spec.UpdateHqc(old(State()), b, qc)
      ensures tree[hqc].height >= tree[b].height && tree[hqc].height >= tree[old(hqc)].height
      ensures if hqc == old(hqc) then hqcCert == old(hqcCert) else hqc == b && hqcCert == qc && tree[b].height > tree[old(hqc)].height
    {
      if tree[b].height > tree[hqc].height {
        hqc, hqcCert := b, qc;
      }
    }

    /** The ancestor of `b` at which the walk along first parents stops. */
    method WalkDown(b: BlockId, h: nat) returns (w: BlockId)
      requires Valid() && b in tree
      ensures w == Walk(tree, b, h)
    {
      w := b;
      while tree[w].height > h
        invariant w in tree && Walk(tree, w, h) == Walk(tree, b, h)
        decreases tree[w].height
      {
        w := Parent(tree, w);
      }
    }

    /** The blocks on the walk down from `blk`, the highest first, and the block at which it ends. */
    method Collect(blk: BlockId, h: nat) returns (queue: seq<BlockId>, w: BlockId)
      requires Valid() && blk in tree
      ensures w == Walk(tree, blk, h) && |queue| == |ChainUp(tree, blk, h)|
      ensures forall i :: 0 <= i < |queue| ==> queue[i] == ChainUp(tree, blk, h)[|queue| - 1 - i] && queue[i] in tree
    {
      ghost var chain := ChainUp(tree, blk, h);
      ghost var below := chain;
      queue, w := [], blk;
      while tree[w].height > h
        invariant w in tree && Walk(tree, w, h) == Walk(tree, blk, h)
        invariant below == ChainUp(tree, w, h) && |queue| + |below| == |chain| && chain[..|below|] == below
        invariant forall i :: 0 <= i < |queue| ==> queue[i] == chain[|chain| - 1 - i] && queue[i] in tree
        decreases tree[w].height
      {
        assert below == ChainUp(tree, Parent(tree, w), h) + [w];
        assert w == chain[|below| - 1];
        below := below[..|below| - 1];
        queue := queue + [w];
        w := Parent(tree, w);
      }
    }

    /** Decides what was collected from the lowest block up. */
    method Decide(queue: seq<BlockId>, ghost chain: seq<BlockId>)
      requires Valid() && |queue| == |chain|
      requires forall i :: 0 <= i < |queue| ==> queue[i] == chain[|chain| - 1 - i] && queue[i] in tree
      modifies this`decided, this`log, this`bExec
      ensures Valid() && log == old(log) + chain && decided == old(decided) + Elements(chain)
      ensures bExec == if chain == [] then old(bExec) else chain[|chain| - 1]
    {
      var k := |queue|;
      while k > 0
        invariant 0 <= k <= |queue| == |chain|
        invariant log == old(log) + chain[..|chain| - k]
        invariant decided == old(decided) + Elements(chain[..|chain| - k])
        invariant bExec in tree && GENESIS in decided
        invariant bExec == if k == |queue| then old(bExec) else chain[|chain| - k - 1]
      {
        k := k - 1;
        var x := queue[k];
        assert chain[..|chain| - k] == chain[..|chain| - k - 1] + [x];
        decided := decided + {x};
        log := log + [x];
        bExec := x;
      }
      assert chain[..|chain|] == chain;
    }

    /** Collects the undecided ancestors of `blk`, then decides them from the lowest up. */
    method Commit(blk: BlockId) returns (error: Option<Error>)
      requires Valid() && blk in tree
      modifies this`decided, this`log, this`bExec
      ensures Valid()
      ensures State() == Spec.Commit(old(State()), blk).core && error == Spec.Commit(old(State()), blk).error
      ensures error == if OnBranch(tree, old(bExec), blk) then None else Some(Spec.SafetyBreached)
      ensures error == None ==> bExec == blk && log == old(log) + ChainUp(tree, blk, tree[old(bExec)].height)
      ensures error.Some? ==> bExec == old(bExec) && log == old(log) && decided == old(decided)
    {
      var h := tree[bExec].height;
      var queue, w := Collect(blk, h);
      if w != bExec { return Some(Spec.SafetyBreached); }
      Decide(queue, ChainUp(tree, blk, h));
      error := None;
    }

    method LockAndCommit(mid: BlockId, direct: bool) returns (error: Option<Error>)
      requires Valid() && mid in tree && mid != GENESIS
      modifies this`bLock, this`decided, this`log, this`bExec
      ensures Valid()
      ensures State() == Spec.LockAndCommit(old(State()), mid, direct).core
      ensures error == Spec.LockAndCommit(old(State()), mid, direct).error
    {
      if tree[mid].height > tree[bLock].height { bLock := mid; }
      var blk := QcRef(tree, mid);
      if blk == None { return None; }
      if blk.value in decided { return None; }
      if !direct || Parent(tree, mid) != blk.value { return None; }
      error := Commit(blk.value);
    }

    method Update(v: Variant, nblk: BlockId) returns (error: Option<Error>)
      requires Valid() && nblk in tree
      modifies this`hqc, this`hqcCert, this`bLock, this`decided, this`log, this`bExec
      ensures Valid()
      ensures State() == Spec.Update(v, old(State()), nblk).core && error == Spec.Update(v, old(State()), nblk).error
    {
      var top := QcRef(tree, nblk);
      if top == None { return None; }
      if top.value in decided { return None; }
      UpdateHqc(top.value, tree[nblk].qc.value);
      if v.twoStep {
        error := LockAndCommit(top.value, true);
        return;
      }
      var mid := QcRef(tree, top.value);
      if mid == None { return None; }
      if mid.value in decided { return None; }
      error := LockAndCommit(mid.value, Parent(tree, top.value) == mid.value);
    }

    /** The vote rule, and the vote. */
    method CastVote(b: BlockId) returns (vote: bool)
      requires Valid() && b in tree
      modifies this`vheight
      ensures Valid()
      ensures State() == Spec.CastVote(old(State()), b).core && vote == Spec.CastVote(old(State()), b).vote
      ensures var q := QcRef(tree, b);
              var accepted := tree[b].height > old(vheight)
                && ((q.Some? && tree[q.value].height > tree[bLock].height) || OnBranch(tree, bLock, b));
              vheight == (if accepted then tree[b].height else old(vheight)) && vote == (accepted && !voteDisabled)
    {
      var opinion := false;
      if tree[b].height > vheight {
        var q := QcRef(tree, b);
        if q.Some? && tree[q.value].height > tree[bLock].height {
          opinion := true;
          vheight := tree[b].height;
        } else {
          var w := WalkDown(b, tree[bLock].height);
          if w == bLock {
            opinion := true;
            vheight := tree[b].height;
          }
        }
      }
      vote := opinion && !voteDisabled;
    }

    method OnReceiveProposal(v: Variant, b: BlockId) returns (vote: bool, error: Option<Error>)
      requires Valid()
      modifies this`hqc, this`hqcCert, this`bLock, this`decided, this`log, this`bExec, this`vheight
      ensures Valid()
      ensures Spec.Outcome(State(), vote, error) == Spec.ReceiveProposal(v, old(State()), b)
      ensures b !in tree ==> error == Some(Spec.NotDelivered) && !vote && State() == old(State())
    {
      vote, error := false, None;
      if b !in tree { return false, Some(Spec.NotDelivered); }
      error := Update(v, b);
      if error == None {
        vote := CastVote(b);
      }
    }

    method OnPropose(v: Variant, b: BlockId, parents: seq<BlockId>, cmds: seq<Cmd>)
      returns (vote: bool, error: Option<Error>)
      requires Valid() && b !in tree && forall p :: p in parents ==> p in tree
      modifies this
      ensures Valid()
      ensures Spec.Outcome(State(), vote, error) == Spec.Propose(v, old(State()), b, parents, cmds)
      ensures parents == [] ==> error == Some(Spec.EmptyParents) && !vote && tree == old(tree) && tails == old(tails)
      ensures parents != [] ==> tree == old(tree)[b := Block(parents, cmds, Some(old(hqcCert)), old(tree)[parents[0]].height + 1)]
      ensures parents != [] ==> tails == old(tails) - Elements(parents) + {b}
    {
      vote, error := false, None;
      if parents == [] { return false, Some(Spec.EmptyParents); }
      ghost var c1 := Spec.DeliverBlk(State(), b, Spec.NewBlock(State(), parents, cmds));
      ghost var outcome := Spec.Propose(v, State(), b, parents, cmds);
      assert outcome == Spec.OwnBlock(v, c1, b) by { Spec.ProposeUnfold(v, State(), b, parents, cmds); }
      var ok, _ := OnDeliverBlk(b, parents, cmds, Some(hqcCert), {});
      assert State() == c1;
      vote, error := HandleOwnBlock(v, b);
    }

    method HandleOwnBlock(v: Variant, b: BlockId) returns (vote: bool, error: Option<Error>)
      requires Valid() && b in tree
      modifies this`hqc, this`hqcCert, this`bLock, this`decided, this`log, this`bExec, this`vheight
      ensures Valid()
      ensures Spec.Outcome(State(), vote, error) == Spec.OwnBlock(v, old(State()), b)
      ensures error == None ==> tree[b].height > old(vheight)
      ensures error == Some(Spec.NotHigher) ==> tree[b].height <= old(vheight) == vheight && !vote
    {
      vote := false;
      Spec.OwnBlockGuard(v, State(), b);
      if v.voteFirst {
        if tree[b].height <= vheight { return false, Some(Spec.NotHigher); }
        vote := CastVote(b);
        error := Update(v, b);
      } else {
        error := Update(v, b);
        if error.Some? { return; }
        if tree[b].height <= vheight { return false, Some(Spec.NotHigher); }
        vote := CastVote(b);
      }
    }

    method OnReceiveVote(voter: ReplicaId, b: BlockId) returns (error: Option<Error>)
      requires Valid()
      modifies this`voted, this`hqc, this`hqcCert
      ensures Valid()
      ensures Spec.Outcome(State(), false, error) == Spec.ReceiveVote(old(State()), voter, b)
      ensures error.Some? <==> b !in tree
      ensures forall x :: x != b ==> State().Voters(x) == old(State().Voters(x))
      ensures old(State().Voters(b)) <= State().Voters(b) <= old(State().Voters(b)) + {voter}
      ensures |old(State().Voters(b))| <= nmajority ==> |State().Voters(b)| <= nmajority
      ensures b in tree && |State().Voters(b)| < nmajority ==> voter in State().Voters(b)
      ensures tree[hqc].height >= tree[old(hqc)].height
      ensures |old(State().Voters(b))| < nmajority == |State().Voters(b)| ==>
                tree[hqc].height >= tree[b].height && (hqc == old(hqc) || hqcCert == QC(b, State().Voters(b)))
    {
      if b !in tree { return Some(Spec.NotDelivered); }
      var voters := if b in voted then voted[b] else {};
      var qsize := |voters|;
      if qsize >= nmajority { return None; }
      if voter in voters { return None; }
      assert |voters + {voter}| == qsize + 1;
      voted := voted[b := voters + {voter}];
      if qsize + 1 == nmajority {
        UpdateHqc(b, QC(b, voters + {voter}));
      }
      error := None;
    }
  }

  class PMHighTail {
    var hqcTail: BlockId

    constructor ()
      ensures hqcTail == GENESIS
    {
      hqcTail := GENESIS;
    }

    method CheckAncestry(hsc: HotStuffCore, a: BlockId, b: BlockId) returns (above: bool)
      requires hsc.Valid() && a in hsc.tree && b in hsc.tree
      ensures above <==> OnBranch(hsc.tree, a, b)
    {
      var w := hsc.WalkDown(b, hsc.tree[a].height);
      above := w == a;
    }

    /** Looks through the tails, in any order, for a highest one above the new highest QC. */
    method OnHqcUpdate(hsc: HotStuffCore)
      requires hsc.Valid() && hsc.tails <= hsc.tree.Keys
      modifies this
      ensures PaceMaker.HighTail(hsc.State(), hqcTail)
      ensures hqcTail in {hsc.hqc} + hsc.tails && OnBranch(hsc.tree, hsc.hqc, hqcTail)
      ensures forall x :: x in hsc.tails && OnBranch(hsc.tree, hsc.hqc, x) ==> hsc.tree[x].height <= hsc.tree[hqcTail].height
    {
      hqcTail := hsc.hqc;
      var rest := hsc.tails;
      while rest != {}
        invariant rest <= hsc.tails && hqcTail in hsc.tree
        invariant hqcTail == hsc.hqc || (hqcTail in hsc.tails && OnBranch(hsc.tree, hsc.hqc, hqcTail))
        invariant forall x :: x in hsc.tails - rest && OnBranch(hsc.tree, hsc.hqc, x) ==> hsc.tree[x].height <= hsc.tree[hqcTail].height
      {
        var tail :| tail in rest;
        var above := CheckAncestry(hsc, hsc.hqc, tail);
        if above && hsc.tree[tail].height > hsc.tree[hqcTail].height {
          hqcTail := tail;
        }
        rest := rest - {tail};
      }
    }

    method OnProposal(b: BlockId)
      modifies this
      ensures hqcTail == b
    {
      hqcTail := b;
    }

    method OnReceiveProposal(hsc: HotStuffCore, b: BlockId)
      requires hsc.Valid() && b in hsc.tree && hqcTail in hsc.tree
      modifies this
      ensures hqcTail == PaceMaker.AfterReceive(hsc.State(), b, old(hqcTail))
      ensures OnBranch(hsc.tree, hsc.hqc, b) && hsc.tree[b].height > hsc.tree[old(hqcTail)].height ==> hqcTail == b
      ensures !OnBranch(hsc.tree, hsc.hqc, b) || hsc.tree[b].height <= hsc.tree[old(hqcTail)].height ==> hqcTail == old(hqcTail)
    {
      var above := CheckAncestry(hsc, hsc.hqc, b);
      if above && hsc.tree[b].height > hsc.tree[hqcTail].height {
        hqcTail := b;
      }
    }
  }

  /** A replica: the core, and the pacemaker whose callbacks run inside the core's handlers. */
  class Node {
    const core: HotStuffCore
    const pmaker: PMHighTail

    function State(): Replica
      reads core, pmaker
    {
      HotStuff.Replica(core.State(), pmaker.hqcTail)
    }

    ghost predicate Valid()
      reads core, pmaker
    {
      core.Valid() && core.tails <= core.tree.Keys && pmaker.hqcTail in core.tree
    }

    constructor (id: ReplicaId, nmajority: nat, replicas: set<ReplicaId>)
      ensures Valid() && fresh(core) && fresh(pmaker)
      ensures State() == HotStuff.Replica(Spec.InitCore(id, nmajority, replicas), GENESIS)
    {
      core := new HotStuffCore(id, nmajority, replicas);
      pmaker := new PMHighTail();
    }

    /** The pacemaker's callback, made when the core has replaced its highest certified block. */
    method NotifyHqc(before: BlockId)
      requires Valid()
      modifies pmaker
      ensures Valid() && core.State() == old(core.State())
      ensures if core.hqc == before then pmaker.hqcTail == old(pmaker.hqcTail)
              else PaceMaker.HighTail(core.State(), pmaker.hqcTail)
    {
      if core.hqc != before { pmaker.OnHqcUpdate(core); }
    }

    method HandleProposal(v: Variant, b: BlockId) returns (vote: bool, error: Option<Error>)
      requires Valid()
      modifies core, pmaker
      ensures Valid() && HotStuff.AfterProposal(v, old(State()), b, State())
      ensures Spec.Outcome(core.State(), vote, error) == Spec.ReceiveProposal(v, old(core.State()), b)
    {
      ghost var before := State();
      var hqc := core.hqc;
      vote, error := core.OnReceiveProposal(v, b);
      Spec.ReceiveProposalKeeps(v, before.core, b);
      NotifyHqc(hqc);
      ghost var tail := pmaker.hqcTail;
      assert PaceMaker.AfterHqc(before.core, core.State(), before.tail, tail) && tail in core.State().tree;
      if error == None { pmaker.OnReceiveProposal(core, b); }
    }

    method HandleVote(voter: ReplicaId, b: BlockId) returns (error: Option<Error>)
      requires Valid()
      modifies core, pmaker
      ensures Valid() && HotStuff.AfterVote(old(State()), voter, b, State())
      ensures error == Spec.ReceiveVote(old(core.State()), voter, b).error
    {
      var hqc := core.hqc;
      error := core.OnReceiveVote(voter, b);
      NotifyHqc(hqc);
    }

    /** Proposes a new block on the pacemaker's tail. */
    method Propose(v: Variant, b: BlockId, cmds: seq<Cmd>) returns (vote: bool, error: Option<Error>)
      requires Valid() && b !in core.tree
      modifies core, pmaker
      ensures HotStuff.AfterPropose(v, old(State()), b, cmds, State())
      ensures Spec.Outcome(core.State(), vote, error) == Spec.Propose(v, old(core.State()), b, [old(pmaker.hqcTail)], cmds)
    {
      ghost var before := State();
      var hqc := core.hqc;
      vote, error := core.OnPropose(v, b, [pmaker.hqcTail], cmds);
      Spec.ProposeKeeps(v, before.core, b, [before.tail], cmds);
      NotifyHqc(hqc);
      if error == None { pmaker.OnProposal(b); }
    }
  }
}
