/** `PMHighTail`: the pacemaker part that picks the parent of the next proposal. Its callbacks run
    synchronously inside the core's handlers, after the state change they react to. */
module PaceMaker {
  import opened BlockTree
  import opened Consensus

  /** What the callback on a new highest QC may choose: the certified block or a highest delivered
      tail above it. The set of tails is visited in an unspecified order, so ties are open. */
  ghost predicate HighTail(c: Core, tail: BlockId)
    requires c.Valid()
  {
    && (tail == c.hqc || (tail in c.tails && OnBranch(c.tree, c.hqc, tail)))
    && tail in c.tree
    && (forall x :: x in c.tails && OnBranch(c.tree, c.hqc, x) ==> c.Height(x) <= c.Height(tail))
  }

  /** The tail after a handler that took the core from `before` to `after`. */
  ghost predicate AfterHqc(before: Core, after: Core, tail: BlockId, newTail: BlockId)
    requires after.Valid()
  {
    if before.hqc == after.hqc then newTail == tail else HighTail(after, newTail)
  }

  ghost function AfterReceive(c: Core, b: BlockId, tail: BlockId): BlockId
    requires c.Valid() && tail in c.tree
  {
    if OnBranch(c.tree, c.hqc, b) && c.Height(b) > c.Height(tail) then b else tail
  }
}
