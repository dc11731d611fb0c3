# A model of the Omnipair indexer

The indexer follows the transactions of a Solana program, turns each into instructions for its
processors, stores swaps in a database, and streams them to clients with prices and averages. This
project models the parts of it whose correctness takes an argument, and proves what they promise:

- **Instruction trace and tree** (`InstructionTrace`, `TraceRecords`, `InstructionTree`,
  `BuilderMemory`, `NestedBuilder`, `TreePaths`, `PathAgreement`, `ParsedInstructions`,
  `InstructionPipeline`, `PlannedCalls`, `TransactionHandOver`). A
  transaction is flattened into records with heights and absolute paths, nested into a forest by a
  builder that keeps raw pointers, parsed, flattened again, and walked by pipes. The builder is modelled
  on an explicit memory in which a growing vector may move its nodes and free the old block, so that
  reading through a stale pointer does not verify; it refines the pure function `Nest`.
- **Signature crawler** (`SignatureLedger`, `SignatureCrawler`, `StartSlot`, `CrawlerPipeline`). A
  cursor pages backwards over a ledger that grows meanwhile, starting above a signature found by a paged
  search, and feeds bounded stages. Growth, failed queries and the stages are steps in any order.
- **Schema matcher** (`SchemaMatcher`, `SchemaLaws`, `SchemaLeftmost`, `SchemaCompleteness`). A greedy matcher over nested
  schemas with wildcards, against a declarative notion of fitting.
- **Swap stream** (`DedupBuffer`, `SwapStream`). A database trigger, the process that fills in volumes,
  and the listener that holds an inserted swap until its enriched form or a timeout, as one concurrent
  system of queues and ticks.
- **Moving averages** (`TaylorExp`, `TaylorBounds`, `EmaPrices`, `EmaBackfill`). A fixed-point
  exponential with floors, the weighted average built on it, and the batched pass over past swaps.

`Wrappers` holds `Option`, `Filter`, `Min` and `Max`. Code that changes things step by step is modelled by classes and
loops, each proved equal to a function of its inputs or its old state; the theorems are about those
functions and about all runs of the step systems. Transactions, decoders, processors, filters, the node's
answers, volumes and clock readings are parameters.

## What the proofs say about the code

- The safety comment of the builder asks for enough capacity (`indexer/crates/core/src/instruction.rs:321-323`,
  `:348-352`). This is not what makes it safe: children vectors start empty and grow, so they may move. It is safe for
  every capacity, because pushing at a height only moves nodes at that height, and every pointer to those
  and deeper ones is replaced or cleared before it is read again (`NestedBuilder.UnsafeNestedBuilder.Add`).
- A recorded path leads to its record, and paths increase, if and only if the transaction is well formed
  in the sense of `PathAgreement.WellFormed`, a condition on the instructions as received. It fails for an
  inner instruction without a height (`PathAgreement.MissingHeightRepeatsPath`) and from the 257th sibling
  on (`PathAgreement.ManyInstructionsRepeatPath`): path counters are bytes and wrap around, as they do in
  a build without overflow checks. With one group of ordinary heights per index nothing else can go wrong.
- The transaction pipe unnests from height 0 (`indexer/crates/core/src/transaction.rs:308-312`), while
  records start at height 1. What it hands over cannot be nested again (`ParsedInstructions.UnnestFromZero`);
  starting at 1 would make nesting its inverse, and any other start does not (`ParsedInstructions.NestOfUnnest`).
- The matcher never backtracks: it finds the leftmost positions or none (`SchemaLeftmost.GreedyExactlyLeftmost`).
  The schemas for which it finds every match are exactly those that satisfy
  `SchemaCompleteness.GreedySafe`; for every other schema there is input it wrongly rejects, given by
  `SchemaCompleteness.Bad`.
- Without a start signature the crawler goes back to the oldest one (`StartSlot.WithoutStartEverything`);
  the log messages at `indexer/src/datasources.rs:179-208` say that it starts from the most recent ones.
- With one, it sends exactly the signatures above the target slot if and only if none at or below it
  arrives after the search (`StartSlot.StartsAboveTarget`), which is certain when the newest signature
  searched is above the target (`StartSlot.SearchedPastTarget`) and fails otherwise
  (`StartSlot.LateArrivalAtTarget`).
- Two swaps of one transaction share a signature, and the listener files swaps by signature. The first, as
  inserted, is lost to clients exactly if the second comes before a tick at least the timeout after it
  (`DedupBuffer.SecondInsertReplaces`).
- The script that fills in averages measures the age of the previous one against the wall clock. At the
  default half-life an average is forgotten entirely after 18102 seconds and not before
  (`EmaPrices.ForgetsExactlyWhenOld`), so for older swaps the average filled in is the spot price
  (`EmaBackfill.SpotExactlyWhenOld`).

## Model

| member | source | states |
|---|---|---|
| InstructionTrace.ProcessInstructions | indexer/crates/core/src/transformers.rs:122-181 | The loop stops the process exactly when some inner height is 0 or above 5, and otherwise records one entry per instruction, every top-level one followed by its groups in order |
| InstructionTrace.ProcessGroups | indexer/crates/core/src/transformers.rs:145-178 | Appends the records of exactly the groups whose index is the current top-level instruction |
| InstructionTrace.ProcessGroup | indexer/crates/core/src/transformers.rs:148-176 | The byte counters kept in place give every record of a group its path, counting afresh on a rise and on from the last sibling otherwise |
| InstructionTrace.BumpInPlace | indexer/crates/core/src/transformers.rs:154-158 | One counter is reset or moves on by one, wrapping at 256; the others stay |
| TraceRecords.RecordsOfInstruction | indexer/crates/core/src/transformers.rs:134-178 | The records with the index of a top-level instruction tell its own height and instruction and then those of all inner instructions of all groups with that index, in order; no other index occurs |
| TraceRecords.RecordsInOrder | indexer/crates/core/src/transformers.rs:134-178 | The records come in the order of those indices |
| PathAgreement.PathsRightExactlyWhenWellFormed | indexer/crates/core/src/transformers.rs:134-180 | Following each recorded path from the roots of the nested forest leads to that record, and paths strictly increase along the trace, if and only if, on the instructions as received, heights rise by at most one, no counting starts wrong, and none has more than 255 siblings before it |
| PathAgreement.FewSiblingsInForest | indexer/crates/core/src/instruction.rs:331-370 | The sibling condition on the instructions holds exactly when no list of siblings in the nested forest is longer than 256 |
| PathAgreement.OrdinaryPathsRight | indexer/crates/core/src/transformers.rs:134-180 | With at most one group per index, each starting at height 2 and rising by at most one, paths are right if and only if there are at most 256 instructions and no group used has more than 256 siblings |
| PathAgreement.MissingHeightRepeatsPath | indexer/crates/core/src/transformers.rs:145-175 | One instruction with one inner one recorded without a height: both records get path [0], and the paths are not right |
| PathAgreement.ManyInstructionsRepeatPath | indexer/crates/core/src/transformers.rs:134-143 | Without inner instructions the paths are right if and only if there are at most 256; the 257th repeats the path of the first |
| TreePaths.RecordedPathsLead | indexer/crates/core/src/instruction.rs:331-370 | If every entry carries the right edge at its insertion, later insertions never change what its path leads to |
| TreePaths.RecordedPathsIncrease | indexer/crates/core/src/instruction.rs:331-370 | Such paths strictly increase, hence are unique |
| TreePaths.AgreementLosesNothing | indexer/crates/core/src/instruction.rs:331-370 | If all paths lead to their entries and increase, nesting lost no entry |
| NestedBuilder.UnsafeNestedBuilder.constructor | indexer/crates/core/src/instruction.rs:324-329 | An empty builder of any capacity satisfies the pointer invariant |
| NestedBuilder.UnsafeNestedBuilder.PushCell | indexer/crates/core/src/instruction.rs:355-359 | A push fills spare capacity, grows the block in place if that is possible, or moves all nodes to a new block and frees the old one |
| NestedBuilder.UnsafeNestedBuilder.PushRoot | indexer/crates/core/src/instruction.rs:354-357 | Adds a root; the new right edge is just the pointer to it |
| NestedBuilder.UnsafeNestedBuilder.PushChild | indexer/crates/core/src/instruction.rs:358-365 | Adds a child below a right-edge node; the pointers above stay on the edge and the new one ends it |
| NestedBuilder.UnsafeNestedBuilder.AddRoot | indexer/crates/core/src/instruction.rs:354-357 | After clearing, pushing a root and setting its pointer makes the pointers those of the new right edge |
| NestedBuilder.UnsafeNestedBuilder.AddChild | indexer/crates/core/src/instruction.rs:358-365 | With a parent pointer there, pushing a child and setting its pointer makes the pointers those of the new right edge |
| NestedBuilder.UnsafeNestedBuilder.ClearBelow | indexer/crates/core/src/instruction.rs:338-340 | Forgets exactly the pointers at the height and below |
| NestedBuilder.UnsafeNestedBuilder.Add | indexer/crates/core/src/instruction.rs:332-366 | One turn keeps the set pointers a prefix equal to the right edge, all live, with no block leaked or shared, and inserts the entry into the stored forest |
| NestedBuilder.UnsafeNestedBuilder.Build | indexer/crates/core/src/instruction.rs:331-370 | Stops at the first height outside 1..5 if there is one, and otherwise leaves exactly the forest that the pure function nests |
| BuilderMemory.PushedForest | indexer/crates/core/src/instruction.rs:354-357 | A push onto an owned vector, moved or not, inserts at the end of the stored forest and touches nothing outside its footprint |
| BuilderMemory.PushedBelowForest | indexer/crates/core/src/instruction.rs:358-365 | A push onto the children of a right-edge node, moved or not, is one insertion into the stored forest, keeps all pointers above, and frees and allocates only within the footprint |
| BuilderMemory.SpineLive | indexer/crates/core/src/instruction.rs:348-352 | The right-edge pointers are as many as the forest's right edge is deep, and all live |
| BuilderMemory.Frame | indexer/crates/core/src/instruction.rs:348-352 | A change outside the footprint of a vector leaves its forest and its right edge as they were |
| InstructionTree.PreorderOfNest | indexer/crates/core/src/instruction.rs:331-370 | For any heights, flattening the nested forest gives exactly the entries whose latest earlier entry of lower height is one level up and itself survived, in order |
| InstructionTree.NothingLost | indexer/crates/core/src/instruction.rs:331-370 | Flattening gives back the whole trace if and only if heights start at 1 and rise by at most one |
| InstructionTree.NestLeveled | indexer/crates/core/src/instruction.rs:331-370 | Every entry of a nested forest is at the depth its height names |
| InstructionTree.NestOfPreorder | indexer/crates/core/src/instruction.rs:297-310 | Flattening a forest with right heights and nesting the result gives it back |
| ParsedInstructions.ParseInstructions | indexer/crates/core/src/transaction.rs:241-263 | The recursive loop ends, also through its one-element lists, and replaces every unknown node by what its children parse to |
| ParsedInstructions.ParseOneByOne | indexer/crates/core/src/transaction.rs:256-258 | Parsing the children one at a time is parsing them together |
| ParsedInstructions.ParseKeepsDecodable | indexer/crates/core/src/transaction.rs:241-263 | The parsed forest has exactly the decodable nodes in preorder, each below exactly its decodable ancestors |
| ParsedInstructions.ParsePreorder | indexer/crates/core/src/transaction.rs:241-263 | The preorder of the parsed forest is the decodable part of the preorder |
| ParsedInstructions.ParseDepth | indexer/crates/core/src/transaction.rs:241-263 | Parsing never deepens a forest |
| ParsedInstructions.UnnestParsedInstructions | indexer/crates/core/src/transformers.rs:292-322 | The loop lists a parsed forest in preorder, with heights counted from the given one and sibling indices from 1 |
| ParsedInstructions.UnnestFitsBuilder | indexer/crates/core/src/transformers.rs:292-322 | The heights given are ones the builder accepts if and only if they start at 1 or more and the depth still fits the limit |
| ParsedInstructions.UnnestIndices | indexer/crates/core/src/transformers.rs:304-313 | Every entry listed carries no path and, as its index, its number among its siblings, from 1 |
| ParsedInstructions.NestOfUnnest | indexer/crates/core/src/transformers.rs:292-322 | Nesting an unnested forest gives it back if and only if unnesting started at 1 (or it is empty); from 1 heights rise by at most one |
| ParsedInstructions.UnnestFromZero | indexer/crates/core/src/transaction.rs:308-312 | Started from 0, as the transaction pipe does, the listing of any forest but the empty one contains a height the builder refuses |
| ParsedInstructions.TransactionOrder | indexer/crates/core/src/transaction.rs:304-312 | Nesting, parsing and unnesting hand over the decodable ones among the surviving entries, in trace order |
| InstructionPipeline.TransactionPipe.MatchesSchema | indexer/crates/core/src/transaction.rs:217-225 | Nothing without a schema, and otherwise what the conversion makes of the result of matching, failed or not |
| InstructionPipeline.InstructionPipe.Run | indexer/crates/core/src/instruction.rs:176-208 | The processor is offered a node and then its descendants, and nothing after the first failure |
| InstructionPipeline.InstructionPipe.RunRoots | indexer/crates/core/src/pipeline.rs:562-568 | Over the roots that pass all filters, the calls made are the planned ones up to the first failure |
| InstructionPipeline.OfferedPrefix | indexer/crates/core/src/instruction.rs:190-205 | The calls made are the plan, or exactly its prefix up to and including the first call that fails |
| InstructionPipeline.TransactionPipe.Run | indexer/crates/core/src/transaction.rs:293-322 | One call with the metadata, the parsed forest unnested from height 0, and the data its schema matched; the outcome is the processor's |
| InstructionPipeline.Pipeline.RunInstructionPipes | indexer/crates/core/src/pipeline.rs:561-569 | Pipes before the failing one saw their whole plan, that one a prefix, later ones nothing |
| InstructionPipeline.Pipeline.RunTransactionPipes | indexer/crates/core/src/pipeline.rs:571-586 | Each admitting pipe up to the failing one is called once and others not at all; those before it accepted, and it refused |
| InstructionPipeline.Pipeline.Process | indexer/crates/core/src/pipeline.rs:559-586 | Transaction pipes are only reached when every instruction pipe has succeeded; what every pipe has seen at the end, which one failed, and that all others reached accepted |
| InstructionPipeline.PlanFollowsTrace | indexer/crates/core/src/pipeline.rs:559-569 | The calls planned are for the surviving, decodable entries in trace order, within the stretches whose root passes the filters |
| PlannedCalls.PlannedForTrace | indexer/crates/core/src/instruction.rs:186-205 | The calls planned for a trace are, in order, for exactly the survivors that decode and whose root passes all filters; each hands over the decoding of its survivor and, as children, exactly the survivors after it up to the next no deeper one |
| TransactionHandOver.HandsOverTrace | indexer/crates/core/src/transaction.rs:304-319 | The transaction processor is handed the metadata unchanged and the decodable survivors in order, from height 0 and numbered among their siblings |
| TransactionHandOver.HandsOverMatch | indexer/crates/core/src/transaction.rs:217-225 | With a schema of distinct names, the matched data is made from the data at its right and leftmost positions among the parsed instructions, or from a failed match if there are none; without a schema there is none |
| SchemaMatcher.MatchNodes | indexer/crates/core/src/schema.rs:149-248 | The loop succeeds exactly when the greedy search does, with the data it bound collected into one map |
| SchemaMatcher.FindType | indexer/crates/core/src/schema.rs:181-209 | Skips to the first instruction of the node's type, only after an `Any`, without changing the outcome |
| SchemaMatcher.TakeNode | indexer/crates/core/src/schema.rs:211-225 | Adds the node's data, then what its own schema binds inside, or fails with it |
| SchemaMatcher.MergeHashmaps | indexer/crates/core/src/schema.rs:262-275 | The second map wins on common keys |
| SchemaMatcher.Greedy | indexer/crates/core/src/schema.rs:160-248 | Whatever the greedy search settles on fits the schema |
| SchemaLaws.FitsExactly | indexer/crates/core/src/schema.rs:149-248 | Fitting means: one position per node, strictly increasing, of the node's type, adjacent where no `Any` intervenes, and recursively so inside |
| SchemaLeftmost.GreedyExactlyLeftmost | indexer/crates/core/src/schema.rs:160-248 | For every schema, the matcher settles on given positions if and only if they are right and leftmost: between a node and the one before, no instruction of its type is passed over, and so on inside |
| SchemaLeftmost.MatchedExactlyLeftmost | indexer/crates/core/src/schema.rs:160-248 | For every schema, a result exists if and only if some positions are right and leftmost, and it is what is bound at those |
| SchemaLaws.MatchReports | indexer/crates/core/src/schema.rs:211-225 | With distinct names, the result maps the name of every node to the data of the instruction at its position, and so on inside, and has no other name |
| SchemaLaws.AppendKeepsResult | indexer/crates/core/src/schema.rs:165-247 | Instructions appended at the top level do not change a result |
| SchemaCompleteness.GreedyExactlyWhenSafe | indexer/crates/core/src/schema.rs:160-248 | The matcher finds a match whenever some positions fit, if and only if after the first `Any` every node stands right behind an `Any` and asks for nothing inside, and inner schemas are safe in turn |
| SchemaCompleteness.MatchedExactlyWhenFits | indexer/crates/core/src/schema.rs:160-248 | For a safe schema a result is returned exactly when some positions fit |
| SchemaCompleteness.BadRejected | indexer/crates/core/src/schema.rs:160-248 | For any other schema, instructions that fit and are rejected |
| SignatureCrawler.SignatureFetcher.OnSignatures | indexer/datasources/rpc-transaction-crawler-datasource/src/lib.rs:278-338 | A page is sent in order and moves the cursor down; an empty one turns the cursor over to what is newer than the pass |
| SignatureCrawler.SignatureFetcher.Fetch | indexer/datasources/rpc-transaction-crawler-datasource/src/lib.rs:264-360 | The first answer within the retry limit is used; failures leave cursor and channel alone |
| SignatureCrawler.ExactlyOnce | indexer/datasources/rpc-transaction-crawler-datasource/src/lib.rs:255-361 | In every state of every run, with any growth and failures, the signatures sent are exactly those after the first `until` up to the current one and those from `before` to the most recent of the pass, each once |
| SignatureCrawler.FrozenLedgerDrains | indexer/datasources/rpc-transaction-crawler-datasource/src/lib.rs:278-338 | With no more arrivals, from any reachable state everything newer than the first `until` is sent after exactly `Remaining` successful fetches and not before |
| SignatureCrawler.DoneWhenNoneRemain | indexer/datasources/rpc-transaction-crawler-datasource/src/lib.rs:281-297 | Everything is sent if and only if no fetches remain |
| SignatureCrawler.PagesCeiling | indexer/datasources/rpc-transaction-crawler-datasource/src/lib.rs:271-276 | The number of pages is the ceiling of signatures over the batch limit |
| StartSlot.FindSignatureAtSlot | indexer/src/datasources.rs:94-160 | The paged search equals a linear scan of the newest ten thousand signatures known at its first query, or of as many pages as were answered |
| StartSlot.Search | indexer/src/datasources.rs:105-152 | The same for any number of attempts; arrivals during the search make no difference |
| StartSlot.ReachesTenThousand | indexer/src/datasources.rs:101-114 | With all ten queries answered the search reaches the newest ten thousand signatures and no others |
| StartSlot.FirstAtOrBelow | indexer/src/datasources.rs:129-136 | The loop over a page is the scan of that stretch |
| StartSlot.ScanFindsNewest | indexer/src/datasources.rs:129-136 | The signature found is the newest with a slot at most the target, as far as the search reached |
| StartSlot.StartsAboveTarget | indexer/src/datasources.rs:177-216 | As `until`, it makes the crawler send exactly the signatures above the target slot, once each, if and only if none at or below it arrives after the search |
| StartSlot.SearchedPastTarget | indexer/src/datasources.rs:177-216 | It always does when the newest signature searched is already above the target, which a caller can tell right after the search |
| StartSlot.LateArrivalAtTarget | indexer/src/datasources.rs:177-216 | A signature of the target slot that arrives after the search is sent |
| StartSlot.WithoutStartEverything | indexer/src/datasources.rs:207-216 | Without it everything is sent, back to the oldest signature, once each |
| CrawlerPipeline.Conservation | indexer/datasources/rpc-transaction-crawler-datasource/src/lib.rs:181-229 | In every reachable state each fetched signature is in exactly one place (waiting, channel, in flight, forwarding, channel, sending, receiver, delivered, or dropped for a reason) and all bounds hold |
| CrawlerPipeline.AtMostOneUpdate | indexer/datasources/rpc-transaction-crawler-datasource/src/lib.rs:486-592 | A signature leads to at most one update, and never to an update and a drop |
| CrawlerPipeline.DroppedForReason | indexer/datasources/rpc-transaction-crawler-datasource/src/lib.rs:405-441 | Over every run the dropped signatures are exactly those of the queries that gave up, of the unfit transactions, each for its verdict, and, only without blocking sends, of those that met a full receiver |
| CrawlerPipeline.ChannelsKeepOrder | indexer/datasources/rpc-transaction-crawler-datasource/src/lib.rs:181-229 | Over every run signatures are taken up in the order they arrived, transactions are judged in the order they were fetched, and with blocking sends updates are delivered in the order they were accepted |
| CrawlerPipeline.SomethingEnabled | indexer/datasources/rpc-transaction-crawler-datasource/src/lib.rs:379-470 | Some step is possible until all work is drained, and none but an arrival after that |
| CrawlerPipeline.Drains | indexer/datasources/rpc-transaction-crawler-datasource/src/lib.rs:379-592 | After the last arrival the remaining steps are bounded, and at their end every signature was delivered or dropped for a reason |
| CrawlerPipeline.AllDelivered | indexer/datasources/rpc-transaction-crawler-datasource/src/lib.rs:577-582 | With blocking sends, no query giving up and no unfit transaction, nothing is dropped, and a drained run has delivered exactly the arrivals |
| CrawlerPipeline.CrawlerDeliversOnce | indexer/datasources/rpc-transaction-crawler-datasource/src/lib.rs:192-221 | Together with the fetcher: each delivered signature is newer than the first `until` and delivered once; when all is sent and drained, the signatures newer than it are exactly those delivered or dropped for a reason |
| DedupBuffer.DbListener.OnNotification | grpc/src/db_listener.rs:66-120 | An INSERT is held, replacing an earlier one; any other operation drops what is held and is emitted; a payload that does not parse changes nothing |
| DedupBuffer.DbListener.OnTick | grpc/src/db_listener.rs:152-169 | Exactly the swaps held for at least the timeout are emitted, each once, in an order not specified |
| DedupBuffer.DedupConservation | grpc/src/db_listener.rs:58-171 | Over every run, INSERT notifications = held + those that replaced a held one + held ones ended by another operation + timed out; and emissions = other notifications + timed out |
| DedupBuffer.KeysIndependent | grpc/src/db_listener.rs:58-171 | In every run, whatever the flush order, what is held and emitted for a signature follows from its own notifications and the ticks |
| DedupBuffer.OthersIrrelevant | grpc/src/db_listener.rs:58-171 | Leaving out the notifications of other signatures changes nothing for it |
| DedupBuffer.Deadline | grpc/src/db_listener.rs:152-168 | In every run, after a tick nothing aged the timeout or more is held, and the tick has emitted, for each signature, exactly the swap that was |
| DedupBuffer.FlushedOnTime | grpc/src/db_listener.rs:80-86 | An INSERT that nothing follows is emitted once by the first tick at least the timeout later, and until then held |
| DedupBuffer.InsertStartsOver | grpc/src/db_listener.rs:80-86 | Once an INSERT comes, what is held and emitted for its signature from then on is what it would be had it come first |
| DedupBuffer.SecondInsertReplaces | grpc/src/db_listener.rs:80-86 | Of two INSERTs of one signature the first swap is emitted as inserted if and only if a tick at least the timeout after it came in between; whatever follows, later emissions are those of the second on its own |
| DedupBuffer.PricedIs | grpc/src/db_listener.rs:68-75 | The price is the amount of token 1 for each unit of token 0, or 0 without any of it; nothing else of the swap changes |
| SwapStream.Reachable | database/migrations/002_add_swaps_notify_trigger.sql:7-41 | In every reachable state each swap is in one of its phases, from the inserted row to the emitted enriched form |
| SwapStream.EmittedInOrder | grpc/src/db_listener.rs:80-111 | A swap is emitted at most twice, the enriched form last and never before the plain one, and its row causes at most two notifications |
| SwapStream.AllEmittedAtRest | grpc/src/db_listener.rs:152-168 | At rest every inserted swap has been emitted once or twice, last as its row stands |
| SwapStream.AllEnrichedAtRest | api/src/scripts/volumeEnricher.ts:249-274 | At rest every swap the enricher never failed on has a volume in its row and was emitted last in that form |
| SwapStream.OnceIfInTime | grpc/src/db_listener.rs:87-102 | A swap whose UPDATE is handled while its INSERT is held is emitted exactly once, enriched, in all that follows |
| SwapStream.ComesToRest | api/src/scripts/volumeEnricher.ts:240-282 | After the last insert a bounded number of steps changes anything: the UPDATEs that the enricher causes do not feed back |
| SwapStream.NeverStuck | api/src/scripts/volumeEnricher.ts:240-282 | Until all is quiet, some step other than a failure changes something, and whatever the enricher works on it can update with any volume |
| TaylorExp.TaylorExp | api/src/utils/emaCalculator.ts:38-76 | The loops with their early exit compute the floored sum of all terms, its floored tenth power and, below 0, the floored reciprocal |
| TaylorExp.ZeroTermsStay | api/src/utils/emaCalculator.ts:54-61 | After a zero term all terms are zero, so leaving early changes nothing |
| TaylorExp.ExpMono | api/src/utils/emaCalculator.ts:38-76 | The approximation is monotone over all integers, at most 1 (scaled) below 0 and at least 1 above |
| TaylorBounds.SumGap | api/src/utils/emaCalculator.ts:49-61 | With the reduced exponent at most the scale, the floored sum is at most the exact partial sum and below it by at most two units a term |
| TaylorBounds.SeriesTermIs | api/src/utils/emaCalculator.ts:53-61 | The exact terms compared with are q^i / i! |
| TaylorBounds.PowerGap | api/src/utils/emaCalculator.ts:63-68 | Flooring every step of a power costs at most the geometric sum of its base |
| TaylorBounds.MagnitudeGap | api/src/utils/emaCalculator.ts:38-68 | For an exponent of 0 or more whose tenth is at most the scale, the result is at most scale * E^10 and below it by at most 10 * (2 * precision + 1) * E^9, for E the exact partial sum |
| TaylorBounds.ReciprocalGap | api/src/utils/emaCalculator.ts:70-73 | Below 0, in the same range, the result is scale / E^10, less at most 1 and plus at most 10 * (2 * precision + 1) / E |
| EmaPrices.HalfLifeWeight | api/src/utils/emaCalculator.ts:101-109 | For every half-life of at least 1 and every age of at least that, the weight of the old average is at most one half plus 8 billionths; the time constant is never 0 |
| EmaPrices.HalfLifeClosesHalf | api/src/utils/emaCalculator.ts:99-117 | After a half-life, at most that share of the distance to the input is left, plus one unit |
| EmaPrices.EmaBetween | api/src/utils/emaCalculator.ts:87-121 | An update stays between old average and input and brings it no further from the input, whatever the clock says |
| EmaPrices.EmaKeepsWeight | api/src/utils/emaCalculator.ts:101-117 | Of the distance between old average and input an update leaves the part that is the weight of the old one, up to one unit either way |
| EmaPrices.EmaStays | api/src/utils/emaCalculator.ts:99-120 | Without time passing, or without a half-life, the average stays |
| EmaPrices.WeightVanishes | api/src/utils/emaCalculator.ts:101-109 | At the default half-life the weight is 0 if and only if the age is at least 18102 seconds |
| EmaPrices.ForgetsExactlyWhenOld | api/src/utils/emaCalculator.ts:87-121 | The input is taken over unchanged, whatever the old average was, if and only if the age is at least 18102 seconds |
| EmaBackfill.ProcessPairSwaps | api/src/scripts/fillEmaPrices.ts:96-163 | The batched loop writes the updates of one unbatched pass, rounded to six decimals and cut into batches |
| EmaBackfill.BatchesLoseNothing | api/src/scripts/fillEmaPrices.ts:114-159 | The batches put together are the updates in order, and every batch but the last holds a thousand |
| EmaBackfill.FillBatch | api/src/scripts/fillEmaPrices.ts:117-152 | One batch continues the pass from the state carried over and hands the state on |
| EmaBackfill.BackfillInRange | api/src/scripts/fillEmaPrices.ts:108-147 | For any swaps and clock readings every average lies between the least and greatest spot price so far, for both prices |
| EmaBackfill.FromNad | api/src/utils/emaCalculator.ts:150-152 | The nearest number of millionths, the greater of two equally near |
| EmaBackfill.SpotPriceIs | api/src/utils/emaCalculator.ts:130-142 | Either price is the floored amount of the other token for each unit of it, or 0 without any |
| EmaBackfill.StoredInRange | api/src/scripts/fillEmaPrices.ts:136-141 | Every stored price lies between the rounded least and greatest spot price so far, under the id of its swap |
| EmaBackfill.BackfillApproaches | api/src/utils/emaCalculator.ts:195-246 | No update moves either average further from the spot price of its swap |
| EmaBackfill.StartsAtSpot | api/src/utils/emaCalculator.ts:212-219 | The first average, and one after an average of 0, is the spot price |
| EmaBackfill.KeptWithoutTime | api/src/utils/emaCalculator.ts:209-235 | When the clock is not past the previous swap, or its time is 0, either average stays as it was |
| EmaBackfill.PastWeighsIn | api/src/scripts/fillEmaPrices.ts:126-147 | Otherwise what is left of the distance of either average to the spot price is its weight at the age of the previous swap, up to one unit: at least 49.97 % up to the half-life, and some until it is forgotten |
| EmaBackfill.BackfillIsSpot | api/src/scripts/fillEmaPrices.ts:121-147 | An average filled in 18102 seconds or more after the previous swap is the spot price |
| EmaBackfill.SpotExactlyWhenOld | api/src/scripts/fillEmaPrices.ts:121-147 | Either average is the spot price, for all swaps and clocks with the previous swap at that age, if and only if the age is at least 18102 seconds |

## Left out

- RPC, database, gRPC and WebSocket transport, logging, metrics, configuration, health servers and the account, block and deletion pipes: replaced by parameters and steps, or not needed for the properties.
- IEEE rounding of doubles and singles: products in the averages exceed 2^53, and the model computes with exact integers, as the program the calculator mirrors does. The listener's price is an exact ratio.
- EmaBackfill.ProcessPairSwaps: does not model the `catch` of the loop, because no expression in its `try` throws on a row of the table; reserves are natural numbers, so there is no NaN.
- `EmaCalculator` as an object: it only stores a half-life, and the pass always uses the default one.
- Transaction decoding, public keys, signer and writable flags, and the transaction metadata shared by all records.
- How matched data is deserialised: a parameter.
- InstructionTrace.ProcessInstructions: byte counters wrap as in a build without overflow checks; a build with them would stop instead.
- Nested loops (`process_instructions`, `match_nodes`, `find_signature_at_slot`, `processPairSwaps`) and the branches of `build` are split into a method each.
- Signatures that do not parse, closed channels, cancellation, and the length of waiting times between retries.
- A node that forgets signatures: `before` and `until` are assumed known to it, and ledgers only grow.
- CrawlerPipeline.Drains: queries in flight finish, and the receiver takes what it is offered; nothing is assumed about the order in which they do.
- Notifications lost while the listener reconnects, clients that fall behind the broadcast, and further writers of the swaps table (the scripts that fill in averages and volumes, and indexing again). In `SwapStream`, transaction signatures of inserted rows are distinct; the table itself only keeps signature and timestamp together distinct, and the enricher's update by signature would reach every row of a transaction.
- The enricher's price lookups and caches: the volume is any number. Its textual comparison with '0' is a comparison with zero.
- The log parser, the rate calculator and the query code of the API: other subjects.
