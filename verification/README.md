# Verified model of HotStuff, FlashOrder, Themis and Rashnu

This project models the parts of the four consensus programs that decide what is committed, in which
order, and what executing it does, and proves what those parts are for.

* **HotStuff core** (`BlockTree`, `Consensus`, `PaceMaker`, `HotStuff*`). Replicas are a state machine
  over deliver, propose, receive proposal and receive vote; up to (n-1)/3 replicas are arbitrary and
  may create any block that verifies and any vote of their own. `HotStuffMachine` has the handlers as
  methods that change the fields of one replica, each proved equal to the step used in the runs.
  The proofs lead from quorum intersection to agreement over whole runs; `HotStuffBreach` is a run
  that violates it where one hypothesis is dropped. `HotStuffHandlers` says of the fields alone what each
  handler does in a reachable state, and `HotStuffDecisions` that what is proposed is what is decided.
* **Graphs** (`Graphs`, `Condensation`, `Reduction`). Condensation by two depth-first passes, and
  transitive reduction in place, on adjacency maps that may be visited in any order.
* **Rashnu execution** (`ConflictDag`, `SerialEquivalence`, `Executor`, `ParallelExecution`,
  `SmallBank*`). The dependency graph of an order, the worker threads as interleaved steps, and serial
  equivalence of the two together, with SmallBank as the instance.
* **Themis fair ordering** (`LocalOrders`, `FairProposal`, `FairOrdering`, `FairThresholds`, `Pruning`,
  `FairFinalization`). Counting local orders into a graph, pruning it, executing its components, and
  batch-order fairness from the lists to the executed order, with the bound it needs.
* **FlashOrder** (`Sorting`, `TopologicalSort`, `TopologicalOrders`, `FlashOrder*`,
  `HyperGraphMachine`). The stages of `HyperGraph` as an object and as relations, since sorting leaves
  ties in any order; the one order that the queue of the topological sort makes, described by the
  graph alone; what its numbers count in the lists (`FlashOrderCounts`); and exactly which unanimous
  preferences survive.
* **Data structures** (`BitGraph`, `Words`, `LinkedList`). The bit-packed graph format and the doubly
  linked list with its index.

Hashes are opaque identities. Collections that the programs keep in hash maps and sets are traversed
in any order. Sums and counters have the widths of the programs. Thresholds are exact real numbers.

Where the code and what it is meant to do differ, the model follows the code:

* `on_deliver_blk` does not check that a certificate refers to a block on the new block's own parent
  chain. The two-step protocol agrees all the same. For the three-step one agreement is proved under
  that hypothesis on the blocks of other participants; `HonestBlockWellFormed` proves it of the blocks
  of correct replicas, and `HypothesisNeeded` is a run without it in which the logs of two correct
  replicas disagree (`AgreesExactlyInTwoSteps`).
* FlashOrder can invert a preference that all lists share: `UnanimityInverted` is an input,
  `UnanimousExactly` the condition: the two share a cluster, or their clusters come in that order in
  the topological sort, which `OrderExactly` describes by the dependencies alone. Pairs whose positions
  are linked keep their order (`UnanimousResult`).
* Pruning in Themis stops at the first component without a solid transaction, not after the last one
  with one, so that a solid transaction can be dropped: `SolidDropped` is an input, `SolidKeptExactly`
  the condition. It can leave removed transactions behind as isolated vertices: `RemovedStays` is an
  input, `PrunedGraph` says which.
* SmallBank's `send_payment` declares the account it debits as read only (`PaymentCovered`): two
  payments out of one account to others are left unordered though they do not commute, and no other two
  requests are (`CommuteExactly`). `transaction_split` credits the payors and debits the party.
* 16-bit counters wrap around at 65536 lists (`CountersWrap`, `AgreementExactly`).

`dafny verify dfyconfig.toml` checks everything.

## Model

| member | source | states |
|---|---|---|
| HotStuffTheorems.Agreed | flashorder/src/consensus.cpp:99-177 | In every run with n replicas of which at most (n-1)/3 are arbitrary, the executed logs of any two correct replicas, each taken at any moment, are prefixes of one another; for both protocol variants (two or three steps, own block voted for before or after `update`), for the three-step variant given that certificates inside the blocks of others refer to their own parent chains |
| HotStuffTheorems.DecisionsAgree | flashorder/src/consensus.cpp:155-182 | Two correct replicas decide commands in one order |
| HotStuffTheorems.LogsOnlyGrow | flashorder/src/consensus.cpp:155-172 | No step of any participant shortens or rewrites what a correct replica has executed |
| HotStuffTheorems.NeverBreached | flashorder/src/consensus.cpp:145-152 | The "safety breached" exception is unreachable, for received and for own proposals |
| HotStuffTheorems.RunInv | flashorder/src/consensus.cpp:99-325 | The invariant of tree, votes, locks and certificates holds in every reachable state, and the handlers can always be applied |
| HotStuffTheorems.ReachableCore | flashorder/src/consensus.cpp:90-177 | In every reachable state b_exec is not above b_lock, which is not above hqc; the stored certificate certifies the stored block; `decision` is set exactly on the ancestors of b_exec, which are the log |
| HotStuffTheorems.OneVotePerHeight | flashorder/src/consensus.cpp:268-288 | A correct replica never votes for two blocks of one height, nor above its `vheight` |
| HotStuffTheorems.CertifiedOnlyRises | flashorder/src/consensus.cpp:90-96 | Over a run the highest certified block of a correct replica is never replaced by a lower one, and what it delivered stays delivered |
| HotStuffTheorems.VotesAscend | flashorder/src/consensus.cpp:268-297 | Each vote a correct replica sends is for a block strictly above all it voted for before |
| HotStuffTheorems.CertificateOnce | flashorder/src/consensus.cpp:300-325 | Over a run with deliveries, proposals and votes in any order and with any repetition: a block's certificate is completed exactly once if the distinct votes that arrived reach the majority, else never; it holds exactly a majority of distinct voters; from then on the highest certified block is at least as high as the block |
| HotStuffHandlers.UpdateExactly | flashorder/src/consensus.cpp:99-177 | In every reachable state, for both variants and whichever early return is taken, `update` makes the certified block of the given one the highest certified block if it is higher, raises the lock to the block one (or two) certificates down if that is higher, decides every block that heads a chain of certificates between parents and children, and decides nothing else: b_exec stays or becomes that block |
| HotStuffHandlers.ProposalHandled | flashorder/src/consensus.cpp:256-298 | A delivered proposal gets the replica's vote exactly if it is higher than everything voted for and certified above the new lock or on its branch, and voting is enabled; `vheight` becomes its height exactly if it is acceptable, no other vote is sent, no error raised |
| HotStuffHandlers.ProposalMade | flashorder/src/consensus.cpp:224-254 | Over a run: the proposed block holds exactly the given commands, the pacemaker's tail as parent, the stored certificate and the next height; it replaces its parent among the tails; it is refused exactly if the tail is lower than `vheight`, and otherwise the proposer votes for it, unless voting is disabled, and goes on from it |
| HotStuffHandlers.TailHandled | flashorder/include/hotstuff/liveness.h:74-102 | After a delivered proposal the tail descends from the highest certified block; if that did not change, the tail is the received block where that descends from it and is higher, and the old tail otherwise; if it changed, the tail is no lower than any delivered tail above it |
| HotStuffHandlers.TailFollows | flashorder/include/hotstuff/liveness.h:93-102 | After a correct replica handled a delivered proposal above its highest certified block, its tail is at least as high; in two steps given that the block's certificate is about its own chain |
| HotStuffHandlers.NextProposal | flashorder/src/consensus.cpp:245-247 | After a delivered proposal the replica's next own proposal is refused exactly if its tail is lower than `vheight`; it is not if nothing above the proposal was voted for and that descends from the highest certified block, and, after a vote for it, is exactly if the tail is lower than the proposal |
| HotStuffHandlers.QuorumSizes | flashorder/src/hotstuff.cpp:496-500 | The fault bound is the greatest number below a third of the replicas, and the correct replicas alone are a majority |
| HotStuffDecisions.ReachableTails | flashorder/src/consensus.cpp:63-88 | In every reachable state the tails of a correct replica are exactly its delivered blocks without delivered children |
| HotStuffDecisions.ProposedDecided | flashorder/src/consensus.cpp:155-172 | Wherever a block that a correct replica proposed stands in the log of a correct replica, the decided commands grow there by exactly the commands that were given to that proposal, and nowhere else in the log does it stand |
| HotStuff.QuorumsMeet | flashorder/src/hotstuff.cpp:497-500 | Any two certified blocks share a correct voter, with nfaulty = (n-1)/3 and majority n - nfaulty |
| HotStuff.CertifiedUniqueAtHeight | flashorder/src/consensus.cpp:268-288 | Two certified blocks of one height are the same block |
| HotStuff.CertifiedExtendsCommitted | flashorder/src/consensus.cpp:108-138 | Every certified block at the height of a committed block or above descends from it |
| HotStuff.CommittedAgree | flashorder/src/consensus.cpp:123-138 | Any two blocks that meet the commit rule lie on one branch |
| HotStuffRuns.CommitSafe | flashorder/src/consensus.cpp:142-172 | Committing a block that meets the commit rule ends at b_exec, keeps the replica's invariant and does not raise "safety breached" |
| HotStuffRuns.UpdateSafe | flashorder/src/consensus.cpp:99-177 | `update` keeps what ties a replica to the network, raises nothing, and leaves the lock at least as high as the block asks for, despite the early returns on `decision` |
| HotStuffVoting.OpinionJustifies | flashorder/src/consensus.cpp:268-288 | A block that gets a vote, with its certificate on its own chain or not above the lock, is certified already or has a certified proper ancestor at least as high as the voter's lock |
| HotStuffVoting.UpdateThenVote | flashorder/src/consensus.cpp:263-288 | Handling a proposal, `update` first, keeps the replica's invariant together with the vote it sends |
| HotStuffVoting.VoteThenUpdate | libhotstuff/src/consensus.cpp:173-179 | The baseline's order for an own block, vote first, keeps it as well |
| HotStuffBreach.HypothesisNeeded | flashorder/src/consensus.cpp:63-88 | Without the hypothesis on certificates, which delivery does not check, a run of four three-step replicas, one of them arbitrary, from the initial state: two correct ones have executed 1 and 4, 5, 6, 7, and the first one's handler reports "safety breached" for the next block |
| HotStuffHypothesis.AgreesExactlyInTwoSteps | flashorder/src/consensus.cpp:99-138 | When any block that verifies may be created, a variant agrees in all its runs exactly if it is the two-step one |
| HotStuffSafety.HonestBlockWellFormed | flashorder/include/hotstuff/liveness.h:66-115 | In every reachable state the block a correct replica proposes has its certified block on its own parent chain |
| HotStuffSafety.ProposeStep | flashorder/src/consensus.cpp:224-254 | Proposing keeps the system invariant and raises no safety exception |
| HotStuffSafety.ProposalStep | flashorder/src/consensus.cpp:256-298 | Receiving a proposal keeps the system invariant and raises no safety exception |
| HotStuffSafety.ReceiveVoteStep | flashorder/src/consensus.cpp:300-325 | Receiving a vote, and completing a certificate with it, keeps the system invariant |
| HotStuffMachine.HotStuffCore.constructor | flashorder/src/consensus.cpp:36-49 | The state of a new replica is the initial state of the runs |
| HotStuffMachine.HotStuffCore.OnDeliverBlk | flashorder/src/consensus.cpp:63-88 | Delivers a block, or reports that a parent is not delivered or the certified block not even fetched: the tree gains exactly that block one above its first parent, which with the others leaves the tails |
| HotStuffMachine.HotStuffCore.Commit | flashorder/src/consensus.cpp:142-175 | The two commit loops append exactly the undecided ancestors to the log, lowest first, if the block descends from b_exec, and otherwise report the breach and decide nothing |
| HotStuffMachine.HotStuffCore.Update | flashorder/src/consensus.cpp:99-177 | The handler, in both variants, changes the fields exactly as the run model says |
| HotStuffMachine.HotStuffCore.CastVote | flashorder/src/consensus.cpp:268-297 | Votes and raises `vheight` exactly for a block above `vheight` that is certified above the lock or descends from the locked block; sends the vote only if voting is enabled |
| HotStuffMachine.HotStuffCore.OnReceiveProposal | flashorder/src/consensus.cpp:256-298 | Equals the run model's step, including the undelivered case |
| HotStuffMachine.HotStuffCore.OnPropose | flashorder/src/consensus.cpp:224-254 | The tree gains the block with exactly the given commands and parents, the stored certificate and one above the first parent; parents leave the tails; then handled as in the runs; refused with empty parents |
| HotStuffMachine.HotStuffCore.HandleOwnBlock | libhotstuff/src/consensus.cpp:171-179 | The proposer's own handling in the order of either program equals the run model's; accepted only above `vheight`, refused only at or below it, without a vote |
| HotStuffMachine.PMHighTail.CheckAncestry | flashorder/include/hotstuff/liveness.h:66-72 | The walk answers whether one block lies on the other's parent chain |
| HotStuffMachine.PMHighTail.OnHqcUpdate | flashorder/include/hotstuff/liveness.h:74-84 | Picks the certified block or a highest tail above it, in whatever order the tails are visited |
| HotStuffMachine.PMHighTail.OnReceiveProposal | flashorder/include/hotstuff/liveness.h:93-102 | The tail becomes the received block exactly if that extends the highest certified one and is higher than the tail, and stays otherwise |
| HotStuffMachine.Node.HandleProposal | flashorder/src/consensus.cpp:256-298 | Core and pacemaker together: the replica's next state is one that a step of the runs allows, and the vote and the error are those of the step |
| HotStuffMachine.Node.HandleVote | flashorder/src/consensus.cpp:300-325 | The same for a vote, with the pacemaker's tail chosen anew only if the vote completed a higher certificate |
| HotStuffMachine.Node.Propose | flashorder/include/hotstuff/liveness.h:66-115 | The same for a proposal on the pacemaker's tail, which then becomes the new block |
| Condensation.CondensationGraph.CreateTransposedGraph | rashnu/src/graph.cpp:41-52 | Yields the transposed graph with every vertex a key |
| Condensation.CondensationGraph.CreateOrderByFinishTime | rashnu/src/graph.cpp:88-99 | The first pass pushes vertices so that every edge of a finished vertex leads to a finished one or to one that reaches the last |
| Condensation.CondensationGraph.GenerateScc | rashnu/src/graph.cpp:101-112 | The second pass collects unvisited vertices that reach its start, and leaves none of their predecessors unvisited |
| Condensation.CondensationGraph.GetCondensationGraph | themis/src/graph.cpp:58-86 | For every graph whose children are keys: a partition of the vertices into exactly the classes of mutual reachability, with every edge leading to the same or a later part |
| Condensation.ClassFinishesLast | rashnu/src/graph.cpp:68-82 | A vertex that reaches another shares its class with one that finishes no earlier than that other |
| Condensation.IsClass | rashnu/src/graph.cpp:72-82 | What one call of the second pass adds is exactly a mutual-reachability class |
| Reduction.TransitiveReduction.Reduce | rashnu/src/graph.cpp:170-183 | Whatever the iteration order, the result is the one graph without the edges that a longer path implies |
| Reduction.TransitiveReduction.ReduceByDfs | rashnu/src/graph.cpp:185-196 | Erases from the edges of `u` exactly what the search newly visits |
| Reduction.ReducedReach | rashnu/src/graph.cpp:170-196 | The reduced graph of a closed acyclic graph reaches exactly what the graph reaches |
| Reduction.ReducedMinimal | rashnu/src/graph.cpp:170-196 | No remaining edge can be dropped: without it its end is out of reach |
| ConflictDag.LocalOrderDAG.AddDependency | rashnu/src/graph.cpp:118-123 | Adds the declared accounts, later declarations overriding earlier ones |
| ConflictDag.LocalOrderDAG.CreateDag | rashnu/src/graph.cpp:125-164 | Edges link exactly the ordered pairs of the list that share an account with a write |
| ConflictDag.ConflictsMeaning | rashnu/src/graph.cpp:150-157 | For declarations in 'r' and 'w' the test means a shared account that one of the two writes, and is symmetric |
| SerialEquivalence.Commute | rashnu/src/graph.cpp:125-164 | Covered transactions that do not conflict commute in every state |
| SerialEquivalence.CoveredIndependent | rashnu/src/graph.cpp:125-164 | Transactions covered by their declarations commute unless these conflict, which is what serial equivalence asks for |
| SerialEquivalence.SameResult | rashnu/src/graph.cpp:125-164 | Any reordering that keeps the order of transactions that do not commute leaves the same accounts |
| SerialEquivalence.LinearExtensionsAgree | rashnu/src/graph.cpp:125-164 | Every linear extension of the graph of `create_dag` leaves the accounts as executing the order one by one does, for transactions that commute unless their declarations conflict |
| SerialEquivalence.ConflictDagAcyclic | rashnu/src/graph.cpp:125-164 | The graph of an order without repetitions is closed and acyclic |
| Executor.GraphOperation.constructor | rashnu/src/graph.cpp:337-360 | Counts exactly the incoming edges, the leaves and the roots |
| Executor.Start | rashnu/src/consensus.cpp:86-124 | The pool starts with every root queued once and all workers at their loop test |
| Executor.StepInv | rashnu/src/consensus.cpp:126-175 | Every step of every worker keeps the invariant that ties queue, counters, workers and leaf count to the graph |
| Executor.StepWork | rashnu/src/consensus.cpp:126-175 | Every step leaves strictly less work |
| Executor.RunsEnd | rashnu/src/consensus.cpp:126-175 | Every run is finite, bounded by the work at its start |
| Executor.ExactlyOnceInOrder | rashnu/src/consensus.cpp:134-148 | At any moment of any interleaving nothing was decided twice and nothing before all its predecessors |
| Executor.LeafCountZero | rashnu/src/consensus.cpp:159-169 | `leaf_count` is zero exactly when the workers are told to stop, and only when everything is decided and the queue is empty |
| Executor.NeverStuck | rashnu/src/consensus.cpp:126-175 | Until all workers have stopped some worker can take a step |
| Executor.CompleteRun | rashnu/src/consensus.cpp:116-175 | A run that cannot be continued has stopped all workers and decided every vertex exactly once, along the edges |
| Executor.Completed | rashnu/src/consensus.cpp:116-175 | Every run can be completed, in finitely many steps |
| ParallelExecution.ReducedExtends | rashnu/src/graph.cpp:166-196 | A linear extension of the reduced graph respects the dropped edges too |
| ParallelExecution.ParallelIsSerial | rashnu/src/consensus.cpp:86-175 | Any number of workers, on the conflict graph of an order or its reduction, in any interleaving, leave the accounts as executing the order one by one does, for transactions that commute unless their declarations conflict |
| ParallelExecution.RunsAgree | rashnu/src/consensus.cpp:333-348 | On a closed acyclic graph, or its reduction, in which of any two transactions that do not commute one reaches the other, any two complete runs leave the same accounts; the caller of the pool checks weak connectivity only, which does not ensure these hypotheses |
| SmallBankModel.SmallBank.TransactionSplit | rashnu/examples/small_bank.cpp:67-97 | Carried out exactly if each payor has the funds and each member the room; then each checking balance gains what the account pays and loses one share per place in the party, modulo two to the 64; savings stay; payors are credited and the party debited, as the code does |
| SmallBankModel.SmallBank.Send | rashnu/examples/small_bank.cpp:56-65 | If the funds and the room are there, the amount leaves the one checking balance for the other, and an account that pays itself keeps its own; savings stay |
| SmallBankModel.SmallBank.TransactionSavings | rashnu/examples/small_bank.cpp:23-29 | Adds the amount to that user's saving balance unless the sum exceeds 64 bits; every other balance stays |
| SmallBankModel.SmallBank.DepositChecking | rashnu/examples/small_bank.cpp:31-37 | The same for the checking balance |
| SmallBankModel.SmallBank.WriteACheck | rashnu/examples/small_bank.cpp:39-45 | Takes the amount from that user's checking balance if it suffices; every other balance stays |
| SmallBankModel.SmallBank.AmalgamateAccounts | rashnu/examples/small_bank.cpp:47-54 | Unless the sum exceeds 64 bits, checking becomes the sum of the two balances and saving zero; otherwise both stay |
| SmallBankModel.PayedExact | rashnu/examples/small_bank.cpp:68-73 | The amount that is split is the sum of the payments exactly when that sum is below two to the 31 |
| SmallBankModel.ShareExactly | rashnu/examples/small_bank.cpp:67-73 | For all payments: the share is their sum, cut to a signed 32-bit number and read as an unsigned 64-bit one, divided by the size of the party |
| SmallBankModel.MoneyKept | rashnu/examples/small_bank.cpp:23-65 | But for splits the total of all balances changes by exactly what an accepted request brings in, and not at all when it is discarded |
| SmallBankModel.SplitBalance | rashnu/examples/small_bank.cpp:67-97 | After an accepted split every account has gained what it pays and lost the share of each of its places in the party, modulo two to the 64 |
| SmallBankModel.SplitDirection | rashnu/examples/small_bank.cpp:89-95 | Every payor outside the party gains what it pays, everyone in the party that pays nothing loses its shares, short of a wrap-around |
| SmallBankModel.SplitMoney | rashnu/examples/small_bank.cpp:67-97 | An accepted split changes the total of all balances by the payments less the shares, modulo two to the 64: by the remainder of the division while the payments stay below two to the 31 |
| SmallBankModel.EncodeInjective | rashnu/examples/small_bank.cpp:158-297 | A payload determines its request |
| SmallBankModel.SmallBankManager.GetUsersDetail | rashnu/examples/small_bank.cpp:416-512 | The accounts and kinds of use by the type in the payload: the user as written for savings, deposits, checks and amalgamations, as read for queries; payer as read and payee as written; all payors and party members as written; none for a type that is not known |
| SmallBankModel.SmallBankManager.ExecuteTransaction | rashnu/examples/small_bank.cpp:304-414 | By the type in the payload, the effect of exactly that request with the payload's fields on the balances, and a query's answer; no effect for a type that is not known |
| SmallBankModel.RequestsCovered | rashnu/examples/small_bank.cpp:416-512 | Every request but a payment changes only accounts it declares 'w', depending on declared accounts alone |
| SmallBankModel.PaymentCovered | rashnu/examples/small_bank.cpp:453-462 | The declaration of a payment covers it exactly when it moves nothing or moves it to the same account, because the debited account is declared 'r' |
| SmallBankModel.PaymentsOrderMatters | rashnu/examples/small_bank.cpp:453-462 | Two payments from one account that do not conflict by their declarations, yet do not commute |
| SmallBankPayments.CommuteExactly | rashnu/examples/small_bank.cpp:416-512 | Two requests whose declarations do not conflict commute in every state exactly if they are not two payments of something out of one account to others |
| SmallBankExecution.BalancesAgree | rashnu/examples/small_bank.cpp:304-512 | Requests among which no two such payments are left unordered end with the same balances under the parallel executor as one by one |
| FairProposal.CountTransactions | themis/src/consensus.cpp:570-576 | Counts the mentions of every transaction in 16 bits |
| FairProposal.CountEdges | themis/src/consensus.cpp:592-602 | Counts for every pair how often the first precedes the second, in 16 bits |
| FairProposal.AddEdges | themis/src/consensus.cpp:603-615 | Whatever the iteration order, every heavy pair gets one direction, no pair gets both |
| FairProposal.FindCut | themis/src/consensus.cpp:633-647 | Stops at the first component without a solid transaction |
| FairProposal.RemoveAfter | themis/src/consensus.cpp:649-658 | Removes everything from the cut on; a removed transaction comes back, isolated, exactly when a child of it is removed no earlier |
| FairOrdering.FairPropose | themis/src/consensus.cpp:560-685 | The result is a proposal graph of the local orders, pruned after its condensation at the first part without a solid transaction |
| FairThresholds.ThresholdsExactly | themis/src/consensus.cpp:781-807 | For duplicate-free lists, fewer than 65536, with f = n - nmajority: solid is a transaction in at least n - 2f lists, non-blank one in at least the smaller of that and n(1 - gamma) + f + 1, and a pair gets an edge for at least n(1 - gamma) + f + 1 |
| FairThresholds.SolidExactly | themis/src/consensus.cpp:781-787 | Among at least n - f such lists, a transaction in some list that at most f lack is solid; among exactly n - f, one that more than f lack is not |
| FairThresholds.WidelyReportedProposed | themis/src/consensus.cpp:560-685 | Such a transaction is in the proposed graph whenever every component that its own does not reach holds one too |
| FairThresholds.ReportsExactly | themis/src/consensus.cpp:688-754 | The update lists an edge for at least n(1 - gamma) + f + 1 reports |
| FairThresholds.ToleratedExactly | themis/src/hotstuff.cpp:546-551 | The tolerated number of faults is the greatest f with 4f at most (n - 1)(2 gamma - 1) |
| FairOrdering.ProposalShape | themis/src/consensus.cpp:577-615 | For lists without repetitions: the vertices are exactly the non-blank transactions, no pair has both directions, and a pair has an edge exactly when some direction reaches the threshold |
| FairOrdering.PrunedGraph | themis/src/consensus.cpp:633-658 | Kept transactions carry exactly the edges among them, with everything that must come before them; no edge touches a removed one; which removed ones remain as isolated vertices |
| FairOrdering.BatchOrderFairness | themis/src/consensus.cpp:592-658 | If at least n-f lists contain a and b and at most n(1-gamma)+f put b first, then a -> b is an edge, b -> a is not, b's component never precedes a's, and b is not kept without a |
| FairOrdering.ProposalFair | themis/src/consensus.cpp:560-685 | The same of the graph that leaves `fair_propose`: a -> b is an edge, or b was removed and has no edge at all; b -> a never is |
| FairOrdering.ToleratedIsEnough | themis/src/hotstuff.cpp:546-551 | The tolerated number of faults of the start-up code, once at least one, satisfies the bound that fairness needs |
| FairOrdering.FairnessExact | themis/src/consensus.cpp:781-807 | Exactly when n - f less the most lists that may put b first reaches the edge threshold does every such choice of lists yield the edge |
| FairOrdering.EnoughIsExactlyEnough | themis/src/consensus.cpp:800-807 | The bound n(2 gamma - 1) >= 3f + 1 implies the exact condition |
| FairOrdering.SingleReplicaNotEnough | themis/src/hotstuff.cpp:546-551 | One replica at gamma 0.75 tolerates no fault and does not meet the condition |
| FairOrdering.CountersWrap | themis/src/consensus.cpp:570-585 | A transaction in k lists is non-blank, or solid, exactly if k is positive and its remainder by 65536 reaches the threshold; at 65536 lists that all contain it, it is blank |
| Pruning.SolidDropped | themis/src/consensus.cpp:633-658 | Five replicas, one fault: a solid transaction that is dropped or kept by the order of two unrelated components |
| Pruning.RemovedStays | themis/src/consensus.cpp:649-658 | Five replicas, one fault: nothing is solid, all is removed, and one transaction stays as an isolated vertex |
| Pruning.SolidKeptExactly | themis/src/consensus.cpp:619-647 | A solid transaction is kept under every order of the components exactly if every component that its own does not reach holds a solid transaction |
| FairFinalization.IsTournamentGraph | themis/include/hotstuff/entity.h:245-267 | True exactly if any two vertices have an edge, whatever order the hash map yields |
| FairFinalization.FairFinalize | themis/src/consensus.cpp:248-294 | Executes the components of the graph in topological order if it is a tournament, otherwise nothing |
| FairFinalization.FinalOnce | themis/src/consensus.cpp:275-285 | Each vertex of a tournament is executed exactly once |
| FairFinalization.FinalExactly | themis/src/consensus.cpp:275-285 | Two vertices on no common cycle are executed in the order of their edge, and only so |
| FairFinalization.FinalFair | themis/src/consensus.cpp:248-294 | If enough lists put a before b, as for the proposal, a is executed before b unless they are on a common cycle |
| FairOrdering.FairUpdate | themis/src/consensus.cpp:688-754 | Lists once each, and in one direction only, edges that enough replicas reported |
| Sorting.OrderedList.SortCmds | flashorder/include/hotstuff/ordered_list.h:45-63 | Sorts commands and timestamps together, if there are as many of each |
| Sorting.ByTimeKeeps | flashorder/include/hotstuff/ordered_list.h:45-63 | Every command keeps its timestamp, timestamps ascend, and no repetition is introduced |
| TopologicalSort.Sort | flashorder/include/hotstuff/flashorder.h:264-296 | Terminates with every vertex once: first a part in which predecessors come first, each vertex when its last predecessor is sorted and in index order among those released by the same one; then the rest in index order, each with a predecessor in the rest |
| TopologicalSort.SortedExactlyIfAcyclic | flashorder/include/hotstuff/flashorder.h:276-293 | The fallback part is empty exactly when the dependency graph has no cycle |
| TopologicalOrders.RestExactly | flashorder/include/hotstuff/flashorder.h:264-296 | The fallback part holds exactly the vertices that some cycle reaches |
| TopologicalOrders.OrderExactly | flashorder/include/hotstuff/flashorder.h:264-296 | Which of two vertices comes first, by the graph alone: what is behind a cycle comes last, in index order; before it, the vertices are in shortlex order of the latest path that leads to each |
| TopologicalOrders.OneOrder | flashorder/include/hotstuff/flashorder.h:264-296 | A graph has one such order |
| HyperGraphMachine.HyperGraph.ComputePreferences | flashorder/include/hotstuff/flashorder.h:49-104 | Identifiers for the first distinct commands up to the limit, and the flat 16-bit matrix of pairwise precedences |
| HyperGraphMachine.HyperGraph.ComputeCanonicalPositions | flashorder/include/hotstuff/flashorder.h:106-117 | The position of each transaction is the number of others that enough lists put before it |
| HyperGraphMachine.HyperGraph.DetectClusters | flashorder/include/hotstuff/flashorder.h:181-207 | Cuts the transactions, sorted by position, where and only where the gap is at least delta |
| HyperGraphMachine.HyperGraph.OrderInside | flashorder/include/hotstuff/flashorder.h:216-237 | Orders each cluster by descending net score and leaves its members alone |
| HyperGraphMachine.HyperGraph.LinkClusters | flashorder/include/hotstuff/flashorder.h:242-260 | Ascending adjacency lists and in-degrees of exactly the pairs of clusters whose precedences exceed the margin |
| HyperGraphMachine.HyperGraph.Finalize | flashorder/include/hotstuff/flashorder.h:301-329 | The result is one that the stages allow for the lists as sorted by time, with the least threshold from 1 on above nodes * (1 - gamma) + faults |
| HyperGraphMachine.ConsideredByTime | flashorder/include/hotstuff/flashorder.h:53-57 | The order of each list that is considered has its commands by ascending timestamps, each with its own, if there is one for each, and is the list as given otherwise |
| FlashOrderCounts.FirstDistinctExactly | flashorder/include/hotstuff/flashorder.h:59-72 | A command gets an identifier exactly if it occurs after fewer than `max_number_cmds` distinct ones; identifiers follow first occurrences |
| FlashOrderCounts.ThresholdExactly | flashorder/include/hotstuff/flashorder.h:305-308 | For all inputs: the threshold is the least integer from 1 on above nodes * (1 - gamma) + faults, or, for gamma above 1, where truncation rounds up, the least from 1 on at least 1 above it |
| FlashOrderCounts.AheadExactly | flashorder/include/hotstuff/flashorder.h:106-117 | For duplicate-free lists, fewer than 65536, and gamma from 0 to 1: one command counts as ahead of another exactly if more than nodes * (1 - gamma) + faults lists put it first |
| FlashOrderCounts.NetCounts | flashorder/include/hotstuff/flashorder.h:216-237 | The score of a command in its cluster is how often a list puts it before another member less how often after one |
| FlashOrderCounts.WeightCounts | flashorder/include/hotstuff/flashorder.h:242-251 | The weight between clusters counts every list and pair of members that it puts in that order |
| FlashOrderCounts.DependsExactly | flashorder/include/hotstuff/flashorder.h:242-260 | A cluster gets an edge to another exactly if its count over it is more than 1.2 times the count the other way |
| FlashOrderTheorems.EveryCommandOnce | flashorder/include/hotstuff/flashorder.h:59-72 | The result holds each of the first `max_number_cmds` distinct commands exactly once, all commands if there are no more, also for cyclic dependencies |
| FlashOrderTheorems.ClustersAreClasses | flashorder/include/hotstuff/flashorder.h:194-205 | Clusters are exactly the classes of the transitive closure of positions less than delta apart, however ties are sorted |
| FlashOrderTheorems.FarApart | flashorder/include/hotstuff/flashorder.h:194-205 | Members of different clusters are at least delta apart |
| FlashOrderFairness.UnanimousPositions | flashorder/include/hotstuff/flashorder.h:106-117 | If all lists, at least `threshold` many, put a before b, the position of a is smaller |
| FlashOrderFairness.UnanimousStages | flashorder/include/hotstuff/flashorder.h:91-237 | Then a's cluster is never later than b's, and in a common cluster a comes first whatever the sort does with ties |
| FlashOrderUnanimity.UnanimityInverted | flashorder/include/hotstuff/flashorder.h:239-260 | Four replicas, one fault, gamma 0.75, delta 1: three lists that all put 0 before 1 and disagree on no pair have a result with 1 before 0 |
| FlashOrderUnanimity.AlwaysInverted | flashorder/include/hotstuff/flashorder.h:239-329 | On those lists every result has 1 before 0 |
| FlashOrderUnanimity.UnanimousResult | flashorder/include/hotstuff/flashorder.h:301-329 | If all lists put a before b and their positions are linked by steps of less than delta, a precedes b in every result |
| FlashOrderUnanimity.ResultExactly | flashorder/include/hotstuff/flashorder.h:239-329 | Of two commands of different clusters a result puts that one first whose cluster comes first by the dependencies, whatever the sorts do with ties |
| FlashOrderUnanimity.UnanimousKept | flashorder/include/hotstuff/flashorder.h:239-329 | A preference that all lists share is kept if the two share a cluster, or the cluster of the first reaches that of the second in the dependency graph, or a cycle does |
| FlashOrderUnanimity.UnanimousExactly | flashorder/include/hotstuff/flashorder.h:239-329 | A result keeps a preference that all lists share exactly if the two share a cluster, or the cluster of the first comes first by the dependencies |
| FlashOrderUnanimity.ClustersDetermined | flashorder/include/hotstuff/flashorder.h:181-207 | The clusters and their order do not depend on how the sort places ties |
| FlashOrderUnanimity.DependenciesDetermined | flashorder/include/hotstuff/flashorder.h:239-260 | Nor does the dependency graph |
| FlashOrderAgreement.AgreementReproduced | flashorder/include/hotstuff/flashorder.h:301-329 | Identical lists without repetitions are returned as they are, for every delta >= 1, threshold and number of lists that is no multiple of 65536 |
| FlashOrderAgreement.AgreementExactly | flashorder/include/hotstuff/flashorder.h:99-115 | They are returned as they are under every sort exactly when their number is no multiple of 65536 or they hold at most one command |
| BitGraph.Serialize | rashnu/src/graph.cpp:248-290 | The encoding of the graph, the same one whatever the iteration order |
| BitGraph.Unserialize | rashnu/src/graph.cpp:292-335 | Reads back exactly the graph of the vertices and rows at the head of the stream, and leaves what follows |
| BitGraph.EncodingUnique | rashnu/src/graph.cpp:253-289 | A graph has one encoding |
| BitGraph.BitMeaning | rashnu/src/graph.cpp:248-290 | The stream is the number of vertices, then for each in ascending order its hash and 15 words; there is an edge to the vertex of rank 64 j + k exactly if word j has the bit of weight two to the k |
| BitGraph.BitsBeyond | rashnu/src/graph.cpp:248-290 | No bit beyond the last rank is set |
| BitGraph.RoundTrip | themis/src/entity.cpp:43-82 | With at most 960 vertices, decoding the encoding gives back the graph exactly when every child is a vertex |
| LinkedList.OrderedList.PushBack | rashnu/src/ordered_list.cpp:69-80 | Appends a transaction unless present; forward chain, backward chain and index stay one list |
| LinkedList.OrderedList.Remove | rashnu/src/ordered_list.cpp:82-94 | Takes out exactly that transaction; forward chain, backward chain and index stay one list |
| LinkedList.OrderedList.GetSize | rashnu/src/ordered_list.cpp:106-108 | The size of the index is the length of the list |
| LinkedList.OrderedList.GetCurrMissingEdges | rashnu/src/ordered_list.cpp:119-134 | Walks the list into the sequence of missing pairs, and leaves the caller's map with the empty rows that its lookups insert |
| LinkedList.RowsInserted | rashnu/src/ordered_list.cpp:119-134 | The edges of that map stay, and which elements of the list it has rows for afterwards |
| LinkedList.OrderedList.Perform | rashnu/src/ordered_list.cpp:69-94 | After any sequence of pushes and removals on an empty list the object holds what `InsertionOrder` describes |
| LinkedList.MissingExactly | rashnu/src/ordered_list.cpp:119-134 | That sequence holds, once each, exactly the pairs in list order that are missing in either direction |
| LinkedList.InsertionOrder | rashnu/src/ordered_list.cpp:69-94 | After any sequence of operations the list has no repetitions, holds what was pushed and not removed since, in the order of those pushes |

## Left out

- HotStuffTheorems.Agreed: for the three-step variant holds under the hypothesis that the certificate inside a delivered block refers to a block on its own parent chain, which `on_deliver_blk` does not check; `AgreesExactlyInTwoSteps` shows that it cannot do without.
- Networking, timers, promises, TLS, configuration, logging and statistics: messages are steps that may be taken in any order, and callbacks run inside the handler that triggers them.
- Signatures and hashes: a certificate that verifies holds the real votes of at least a majority, and block identities do not collide. A replica does not create the same block twice.
- Liveness of HotStuff: nothing is claimed about views, leaders or timeouts.
- Parents other than the first: they are delivered and leave the tails, but no uncle is committed, as in the program.
- Reference counting (`prune`) and the storage's caches of seen and proposed commands, which `update` also maintains.
- HotStuffMachine.HotStuffCore.Commit: does not model the calls of `do_decide` one by one; the decided block is appended to the log and `Decisions` lists its commands.
- The executor's lock regions are single steps, a transaction executes in one step, and waiting in `pop` is a step that is not enabled; the empty graph, cyclic graphs and the unsynchronised `cmd_id` are not modelled.
- Transactions that run at the same time: two that do not conflict are executed one after the other in either order.
- ParallelExecution.RunsAgree: does not model how Rashnu aggregates the graph of a block from the replicas' graphs; that the graph is acyclic and leads between any two transactions that do not commute is a hypothesis, which the program does not check.
- SmallBankModel.SmallBank.TransactionSplit: requires existing accounts and a party that is not empty, since the program indexes and divides without checking.
- SmallBank's random generation of transactions and opening balances; opening balances are parameters.
- `compute_delta`, which reads a clock: delta is any integer from 1. The margin 1.2 is the fraction 6/5.
- BitGraph.Serialize: works on a stream of fields, not bytes; byte order is not modelled. Graphs of more than 960 vertices, for which the program writes beyond its row, are excluded.
- BitGraph.Unserialize: a stream that ends early or marks a vertex that does not exist is rejected here, where the program throws or reads beyond its vector.
- Rashnu's `fair_propose`, which differs from Themis' in counting the edges of dependency graphs and in reporting missing edges; `WeaklyConnectedGraph`; `fair_finalize_old`; the one-step contraction of proposed vertices.
- `OrderedList::get_cmds` of the linked list, whose loop never advances.
- The local-order queues and caches of `EntityStorage`, and the header-only graph mutation of blocks.
