# hft-bench in Dafny

A model of the matching engines of hft-bench and of the stepwise protocols around them, with proofs
about every run.

**Reference book.** `Lob` is the plain limit order book: each side is the sequence of its live orders, best price
first and earliest first among equal prices; a cancel takes effect at once; the number of trades per order is a
parameter. `BookLaws`, `BookRuns`, `BookLedger` and `BookPrices` prove what that book guarantees over all runs: greedy
price-time fills (an independent characterisation, both ways), sortedness by arrival, no crossing, conservation per id,
that an id that is gone stays gone, and, in prices and request positions alone, that no limit order is filled past its
limit, none that could be filled is passed over, and what waits is what was submitted.

**Two engines.** `Shadow` and `ShadowBook` are the shadow engine: price levels of queues beside an id index, with lazy
cancels and a stop after 1024 trades. `Flat` and `FlatEngine` are the C engine: an order table, two compacting arrays
of active ids, a linear scan, eager cancels, 128 reported trades, and a gate on rising ids. Each is a class whose
methods are proved against the reference book. `Agreement` runs them over whole request sequences, `TableLimit` says what
becomes of ids that do not fit the C engine's table, and `Scoring` feeds both engines the benchmark's random order stream
and compares the answers the way the bot fleet does.

**Protocols.** `Framing` rebuilds lines in a fixed buffer. `Pipeline` is the dispatcher, worker pool and two bounded
channels. `Ingest` is the telemetry consumer and storage worker under crashes. `Isolation` is the directory of books
by submission. `Addresses` and `Orchestrator` are the registry of sandbox addresses and TAP interfaces.
`Percentiles` is the latency report.

Where the repository's ARCHITECTURE.md and the code differ, the model follows the code: a batch whose insert fails
stays in the buffer and is tried again, and is not dropped (services/telemetry-ingester/main.go:329-341).

Some promises are false outside a condition. The model keeps the code as it is, states the exact condition, and shows
an input that breaks it:

- the shadow engine refuses a new order under an id that its index still knows, also after a cancel; on a well-formed
  order it follows the eager book exactly when the index does not know the id, or the order is a market order that
  meets nothing (`SubmitOrder`, `ReuseAfterCancel`);
- an order leaves the shadow engine's raw levels crossed exactly when it is a limit order that meets 1024 crossing
  orders which do not offer enough (`SubmitOrder`, over runs `ReplayCrossings`); the unsigned spread can then wrap around
  (`CapCrosses`);
- the C engine answers an order as the capped reference book exactly when its id rises, the book before it needs at most
  128 trades, and anything left to rest fits its table - or the id is late and a market order meets nothing
  (`FlatAgreesIff`, `TableTooSmall`, `ReportTooSmall`); the engines stay alike over a run exactly when this holds at every
  order of it (`EnginesAgreeIff`);
- with small rising orders and ids of any size, the C engine's answers are those of the reference book exactly as long as
  the reference book trades with no id beyond the table (`FlatForgets`); the benchmark scores its reference engine without
  a mismatch up to 131072 orders, and 131073 are too many (`ScoreReferenceEngine`, `ScoreTooLong`);
- the receive buffer resets exactly on streams with an oversized line or remainder (`ResetIff`), and the lines handed
  out are those of the stream exactly when no complete line is oversized (`DeliveredIff`, `ResetLosesLine`);
- the benchmark finishes exactly when the orders fit the result channel (`CompletesIff`);
- after an error poll the ingester still stores everything below its committed offset, whatever comes, exactly when the
  poll skipped nothing valid and unstored or nothing valid comes after it (`ErrorPollIff`, `ErrorPollLoses`);
- submissions are isolated up to 101 of them, and 102 are too many (`SubmissionsIsolated`, `IsolationBoundExact`,
  `BookIsolationBound`);
- what follows a teardown look-up deletes only own TAPs, keeps spawns registered, and keeps addresses exclusive exactly
  when no other teardown of the active VM is under way (`LookupSafeIff`, `LookupAddressesIff`, `StaleTeardownMisdeletes`);
- the orchestrator is up and cannot crash exactly when no look-up has met a VM that was still being spawned: such an entry
  has no machine, and stopping it crashes the server (`CrashIff`).

Numbers are unbounded. The engines only compare and subtract within range, with two exceptions that are written out:
a trade quantity stored in 32 bits by the C engine (`Narrow`), and the unsigned spread of a crossed book (`Spread`).

## Model

| member | source | states |
|---|---|---|
| Lob.MatchCount | services/shadow-engine/src/main.rs:171-240 | an order makes at most as many trades as it has units, as there are makers, and as the cap allows |
| Lob.AcceptShows | services/shadow-engine/src/main.rs:122-169 | a well-formed limit order always trades or rests |
| Lob.InsertAt | services/shadow-engine/src/main.rs:145-148 | a resting order stands behind everything priced at least as well and before everything priced worse |
| Lob.InsertRemove | services/shadow-engine/src/main.rs:308-330 | placing one order and withdrawing another commute |
| BookLaws.CapCut | services/shadow-engine/src/main.rs:231-233 | a cap cuts the trade list at the cap and otherwise changes nothing |
| BookLaws.PriceTimeOptimal | services/shadow-engine/src/main.rs:174-306 | matching gives the greedy fill, position by position, with its exact stop condition, and no other outcome is one |
| BookLaws.TradesReach | services/shadow-engine/src/main.rs:231-233 | at least n trades are made exactly when an n-th order waits, its price crosses, and the orders before it do not offer enough |
| BookLaws.LeftAtCap | services/shadow-engine/src/main.rs:231-233 | after a stop at the cap, units are still wanted exactly when the orders traded with do not offer enough |
| BookLaws.LeftUncapped | sandbox/strategy_bin.c:109-147 | without a cap, units are left exactly when all crossing orders together do not offer enough |
| BookRuns.MatchSane | services/shadow-engine/src/main.rs:174-240 | makers are live orders of the opposite side, which stays sorted, positive and distinct; below the cap nothing crossing is left |
| BookRuns.SubmitSane | services/shadow-engine/src/main.rs:122-169 | one order keeps the book sane, adds at most its own id, and keeps it uncrossed while the cap is not reached |
| BookRuns.RunSane | services/shadow-engine/src/main.rs:122-330 | in every fresh-id run both sides stay sorted with distinct submitted ids, and quantities below the cap never leave a crossed book |
| BookRuns.GoneForGood | services/shadow-engine/src/main.rs:194-229 | an id that was filled, cancelled or dropped never becomes live or makes a trade again |
| BookLedger.MatchConserves | services/shadow-engine/src/main.rs:214-229 | every unit traded leaves one maker and the incoming order; none is lost |
| BookLedger.Conservation | services/shadow-engine/src/main.rs:122-330 | over every run and for every id: submitted = fills as taker + fills as maker + cancelled + dropped market remainder + live |
| BookLedger.RunTimeOrdered | services/shadow-engine/src/main.rs:140-164 | in every fresh-id run each side is ordered by price and then by time of submission |
| BookLedger.EveryOrderOptimal | services/shadow-engine/src/main.rs:122-306 | each order of a run meets a side in price-time order and is answered with the greedy fill of it |
| BookPrices.TradesWithinLimit | services/shadow-engine/src/main.rs:182-184 | a limit buy trades at no more than its price, a limit sell at no less |
| BookPrices.NoneLeftBehind | services/shadow-engine/src/main.rs:174-184 | while units are wanted below the cap, a market order leaves nobody and a limit order only orders priced beyond its limit |
| BookPrices.RefusedIff | services/shadow-engine/src/main.rs:122-128 | an order is answered with nothing and changes nothing exactly when it has no id, no units, or, as a limit order, no price, or is a market order that meets nobody |
| BookPrices.RestExact | services/shadow-engine/src/main.rs:135-168 | the units of an accepted order are traded or, of a limit order, wait on its own side under its id and price; nobody else joins that side |
| BookPrices.EveryRestExplained | services/shadow-engine/src/main.rs:140-148 | over every run, whoever waits was submitted as a limit order of that side, with that id and price, for at least those units |
| BookPrices.EveryTradeExplained | services/shadow-engine/src/main.rs:214-229 | over every run, a trade is between the order being answered and an earlier limit order of the other side, at the price of that order, within the limit of both and for no more units than either submitted |
| BookPrices.EveryMissExplained | services/shadow-engine/src/main.rs:122-168 | over every fresh-id run, an order not filled below the cap finds nobody left within its limit, and a limit order waits for exactly what is missing |
| BookPrices.EverySideOrdered | services/shadow-engine/src/main.rs:140-164 | over every fresh-id run bids fall and asks rise in price, and orders at one price stand in order of submission |
| Shadow.HeadLevelBest | services/shadow-engine/src/main.rs:176-184 | no queued order, dead or live, is priced better than the first level |
| Shadow.NoCross | services/shadow-engine/src/main.rs:182-184 | when the first raw level does not cross, no live order does, even if that level holds only dead orders |
| Shadow.PopFront | services/shadow-engine/src/main.rs:197-202 | removing the first queued order and its entry keeps queue and index in bijection; a dead one is invisible in the live book |
| Shadow.PushBackAt | services/shadow-engine/src/main.rs:145-148 | joining a level's queue puts the order behind all at least as good and before all worse |
| Shadow.PushBackLadder | services/shadow-engine/src/main.rs:160-163 | levels stay in priority order and none becomes empty; the best level changes only to a better price |
| ShadowBook.PushBackRefines | services/shadow-engine/src/main.rs:140-149 | resting an order keeps the bijection and is the reference insertion, with dead orders around |
| ShadowBook.FlagLive | services/shadow-engine/src/main.rs:322-330 | flagging an entry is removal from the live book |
| ShadowBook.SweepFront | services/shadow-engine/src/main.rs:194-202 | the sweep keeps the live book and ends on a live order or an empty queue |
| ShadowBook.FillLevel | services/shadow-engine/src/main.rs:204-234 | the inner loop continues the reference run: same trades, same remainder, stopped exactly at 1024 |
| ShadowBook.DrawFront | services/shadow-engine/src/main.rs:212-229 | one trade with the first live queued order is one trade with the best live order |
| ShadowBook.OrderBook.MatchBuy | services/shadow-engine/src/main.rs:173-240 | matching a buy gives the reference trades, remainder and ask side; bids stay; below the cap no level is left empty or crossing; every trade is within the limit |
| ShadowBook.OrderBook.MatchSell | services/shadow-engine/src/main.rs:244-306 | the same for a sell against the bids; every trade is within the limit |
| ShadowBook.OrderBook.SubmitOrder | services/shadow-engine/src/main.rs:121-169 | malformed orders and known ids change nothing; any other order does what the reference book does, and no refused one does unless it is a market order that meets nothing; uncrossed best raw prices stay uncrossed exactly unless a limit order meets 1024 crossing orders that do not offer enough, empty levels or not; trades are within the limit and what joins the own side has the order's id and price |
| ShadowBook.OrderBook.CancelOrder | services/shadow-engine/src/main.rs:321-330 | the answer is whether the order was live, and the live book loses exactly it |
| ShadowBook.OrderBook.Spread | services/shadow-engine/src/main.rs:334-347 | none exactly when a side has no level; exact while the best raw levels do not cross, 2^64 more than the difference when they do, and on an uncrossed raw book positive and at most the spread of any two live orders |
| ShadowBook.OrderBook.TotalRestingOrders | services/shadow-engine/src/main.rs:349-353 | the count of unflagged entries is the number of live orders of both sides |
| ShadowBook.OrderBook.Reset | services/shadow-engine/src/main.rs:98-103 | a reset book is empty, with an empty index |
| Flat.ScanFindsBest | sandbox/strategy_bin.c:110-121 | a left-to-right scan that moves only to strictly better prices ends on the first order in price-time priority |
| Flat.ArrangeDrop | sandbox/strategy_bin.c:140-143 | taking the scanned order out of the flat list is taking the first out of the priority order |
| Flat.ArrangeSet | sandbox/strategy_bin.c:137-138 | reducing the scanned order in place is reducing the first of the priority order |
| Flat.ArrangeRemove | sandbox/strategy_bin.c:215-224 | removing an id from the flat list is removing it from the priority order |
| Flat.AscendingBound | sandbox/strategy_bin.c:153 | ascending positive ids below a bound are fewer than the bound, so the append index stays inside the array |
| Flat.DrawBest | sandbox/strategy_bin.c:126-143 | a trade with the best active order keeps list and table exact and is a trade with the best reference order |
| Flat.AppendNewest | sandbox/strategy_bin.c:146-154 | appending the newest id keeps the list exact and ascending and is the reference insertion |
| FlatEngine.RemoveFrom | sandbox/strategy_bin.c:66-96 | the id, if present, is shifted out and everything else keeps its order; otherwise nothing changes |
| FlatEngine.ScanBest | sandbox/strategy_bin.c:110-121 | with the lowest-id tie-break, the scan returns the best order of the side, or nothing exactly when the side is empty |
| FlatEngine.Unlisted | sandbox/strategy_bin.c:146-154 | a slot above all listed ids is free, and the array has room for one more |
| FlatEngine.Engine.DrawAsk | sandbox/strategy_bin.c:137-143 | one trade with the best ask is one reference trade; the bids stay |
| FlatEngine.Engine.DrawBid | sandbox/strategy_bin.c:195-201 | one trade with the best bid is one reference trade; the asks stay |
| FlatEngine.Engine.MatchBuyOrder | sandbox/strategy_bin.c:99-155 | a buy is matched without a stop, reported up to 128 trades, and its rest is entered when the id fits the table; trades are within the limit and what rests has the order's id and price |
| FlatEngine.Engine.MatchSellOrder | sandbox/strategy_bin.c:157-213 | the same for a sell, with the same limits |
| FlatEngine.Engine.CancelOrder | sandbox/strategy_bin.c:215-224 | a cancel is removal from the reference book, for any id |
| FlatEngine.Engine.Handle | sandbox/strategy_bin.c:431-467 | one decoded message: ids that do not rise change nothing, the highest id is remembered, orders and cancels act as above |
| Agreement.FlatAgreesIff | sandbox/strategy_bin.c:129-154 | on a well-formed 32-bit order the C engine agrees with the 1024-capped book exactly when, seen on the book before the call, a rising id meets at most 128 orders opposite, or the 129th does not cross, or the first 128 offer enough, and the id fits the table or nothing will rest; a late id agrees exactly when it is a market order that meets nothing |
| Agreement.TableTooSmall | sandbox/strategy_bin.c:147 | a limit order with id 131072 rests in the shadow engine and is dropped by the C engine |
| Agreement.TableLast | sandbox/strategy_bin.c:147 | a limit order with id 131071 rests in both engines |
| Agreement.ReportTooSmall | sandbox/strategy_bin.c:129-135 | 129 one-unit asks and a buy of 129: 128 trades reported against 129 |
| Agreement.NarrowWraps | sandbox/strategy_bin.c:129-135 | a trade of 2^32 + 5 units is reported as one of 5 |
| Agreement.CapExact | services/shadow-engine/src/main.rs:231-233 | against n one-unit asks a buy of n makes n trades up to 1024, and 1024 beyond |
| Agreement.MaxIdIs | sandbox/strategy_bin.c:431-467 | the gate compares with the highest id placed so far, whatever was cancelled |
| Agreement.ComparableAgrees | sandbox/strategy_bin.c:431-467 | with ids in range and quantities up to 128 neither cap can bite, so the answers and books agree |
| Agreement.ReplayShadow | services/shadow-engine/src/main.rs:122-353 | over every fresh-id run, trades, cancel answers, the final count and the final live book are those of the eager book |
| Agreement.CompareEngines | sandbox/strategy_bin.c:99-224 | over every fresh-id run of well-formed 32-bit orders and arbitrary cancels: the shadow engine's trades and book are the reference ones at every step, the C engine's are those of its own specification, and the two are equal when every order fits, in particular for rising ids below 131072 and quantities up to 128 |
| Agreement.EnginesAgreeIff | sandbox/strategy_bin.c:431-467 | over every such run, ids in any order, both engines have the same book and the same answers after every request if and only if each order fits the C engine when it meets the reference book |
| Agreement.ReplayFlat | sandbox/strategy_bin.c:431-467 | over any run at all, late, reused and malformed orders included, the C engine's answers and book are those of the specification of its requests |
| Agreement.ReplayCrossings | services/shadow-engine/src/main.rs:231-233 | in every fresh-id run and at each of its prefixes, the raw levels were uncrossed after every request exactly when no limit order met 1024 crossing orders that did not offer enough |
| TableLimit.KeepMatch | sandbox/strategy_bin.c:109-147 | matching on the side without ids beyond the table is matching on the whole side, as long as none of them is traded with |
| TableLimit.FlatForgets | sandbox/strategy_bin.c:146-154 | over every run of rising orders of up to 128 units, ids of any size: the C engine's answers are the reference ones exactly when the reference book trades with no id beyond the table, and then its book is the reference book without those ids |
| Agreement.ReplaySpreads | services/shadow-engine/src/main.rs:334-347 | in every run of quantities below 1024, after every request: no raw level is empty, the raw levels do not cross even where only cancelled orders are queued, the spread is their exact difference, and it bounds the live spread from below |
| Agreement.CapCrosses | services/shadow-engine/src/main.rs:231-233 | 1024 one-unit asks and a buy of 1025 above them leave a crossed raw book, on which the unsigned spread wraps around |
| Agreement.ReuseAfterCancel | services/shadow-engine/src/main.rs:130-132 | place, cancel, place under one id: the shadow engine refuses the second order, the eager book rests it |
| Scoring.GenerateSingleOrder | services/bot-fleet/src/main.rs:705-755 | kind, side, id, price and quantity of the next order, and the list of cancellable ids after it |
| Scoring.CompareTrades | services/bot-fleet/src/main.rs:95-112 | true exactly for equal trade lists |
| Scoring.GenerateStream | services/bot-fleet/src/main.rs:492-508 | whatever the random choices: each order is the one drawn, ids rise by position, orders are well formed and small, cancels name issued ids, each at most once |
| Scoring.ScoreReferenceEngine | services/bot-fleet/src/main.rs:363-475 | for every outcome of the random choices and any number of orders: the first 131072 comparisons succeed, and all succeed exactly when the reference book trades with no order beyond the table |
| Scoring.ScoreTooLong | services/bot-fleet/src/main.rs:363-475 | a stream of 131073 orders on which the last comparison, and only that, fails |
| Framing.SplitStream | sandbox/strategy_bin.c:400-415 | cutting a stream anywhere, the second part continues the unfinished line of the first |
| Framing.LinesExact | sandbox/strategy_bin.c:400-415 | lines and remainder are the one way to cut the stream at its newlines and nowhere else |
| Framing.ChunkingIndependent | sandbox/strategy_bin.c:384-415 | without a reset the lines handed out are those of the whole stream, however it was cut |
| Framing.ResetIff | sandbox/strategy_bin.c:385-389 | the reset branch is taken exactly when some line exceeds 4094 bytes or the remainder exceeds 4095 |
| Framing.Client.FindNewline | sandbox/strategy_bin.c:402 | the next newline from a position on, or the end of the held bytes |
| Framing.Client.Receive | sandbox/strategy_bin.c:384-415 | one receive hands out every complete line of held and received bytes and keeps the rest |
| Framing.Client.Compact | sandbox/strategy_bin.c:510-514 | the unfinished line is moved to the front unchanged |
| Framing.DeliveredIff | sandbox/strategy_bin.c:384-415 | for every way of cutting a stream, the lines handed out are those of the stream exactly when no complete line exceeds 4094 bytes |
| Framing.ReceiveAll | sandbox/strategy_bin.c:384-515 | the same for a whole connection on the buffer |
| Framing.ResetLosesLine | sandbox/strategy_bin.c:385-389 | 4095 plain bytes and then a newline: the buffer resets and an empty line is handed out |
| Pipeline.StepInv | services/bot-fleet/src/main.rs:338-548 | every step of dispatcher, worker and drain keeps the conservation of jobs and the phase facts |
| Pipeline.StepCounts | services/bot-fleet/src/main.rs:338-548 | every step uses up exactly one unit of one measure |
| Pipeline.Progress | services/bot-fleet/src/main.rs:490-548 | with at most 4096 orders some step is always possible until the end |
| Pipeline.JobsConserved | services/bot-fleet/src/main.rs:259-272 | queued + in flight + results + counted = dispatched, in every reachable state |
| Pipeline.CompletesIff | services/bot-fleet/src/main.rs:490-548 | every schedule ends; it ends finished, with every order counted, exactly when there are at most 4096 orders |
| Pipeline.CountsReported | services/bot-fleet/src/main.rs:526-546 | at the end the reported successes and failures are the exchanges of the run that succeeded and that failed |
| Pipeline.EachOrderOnce | services/bot-fleet/src/main.rs:490-548 | at the end the orders 0 to total - 1 were taken in this order and each was exchanged exactly once |
| Ingest.StepInOrder | services/telemetry-ingester/main.go:360-394 | what an incarnation stored, buffers and queues is exactly what it fetched, in order, after every step |
| Ingest.CommitStored | services/telemetry-ingester/main.go:348-357 | at a commit every valid record below the new offset is stored |
| Ingest.CommitCovers | services/telemetry-ingester/main.go:348-357 | a commit puts every record of the batch, and all else this incarnation stored, below the new offset, which is one above a record of the batch |
| Ingest.ExposedIff | services/telemetry-ingester/main.go:323-358 | over every run, a crash now would make stored records of this incarnation be fetched again exactly between insert and commit, or after a failed commit until one succeeds |
| Ingest.CommittedOnce | services/telemetry-ingester/main.go:323-358 | once a batch is committed, no continuation, crashes included, stores again a record of it or one stored before it by this incarnation |
| Ingest.OnlyValidStored | services/telemetry-ingester/main.go:268-301 | only records that parse are stored, and a record waits to be handed over exactly while 10000 are queued |
| Ingest.ErrorPollIff | services/telemetry-ingester/main.go:253-266 | after any harmless run, every harmless continuation of a poll that skips records keeps all valid records below the committed offset stored, if and only if the poll skipped no valid unstored record or no valid record comes after those it skipped |
| Ingest.SkippingLoses | services/telemetry-ingester/main.go:253-301 | from any reachable state a poll that skips a valid unstored record, with another valid record to come, has a continuation that commits past it |
| Ingest.ErrorPollLoses | services/telemetry-ingester/main.go:253-266 | a run in which a record that came with an error is below the committed offset and not stored |
| Ingest.StoredAtLeastOnce | services/telemetry-ingester/main.go:323-394 | over any run with crashes and failures and only harmless error polls, every valid record below the committed offset is stored |
| Ingest.StoredAtMostOncePerEpoch | services/telemetry-ingester/main.go:323-358 | over any run, no incarnation stores a record twice, and none is lost or reordered on the way |
| Ingest.StorageWorker.Flush | services/telemetry-ingester/main.go:323-358 | one flush is the persist step followed by the commit step; a failed insert keeps the batch, and after a commit the whole batch is below the committed offset |
| Ingest.StorageWorker.OnRecord | services/telemetry-ingester/main.go:370-388 | a record is appended; the 500th is flushed at once together with the others |
| Isolation.StepKeeps | services/shadow-engine/src/main.rs:375-497 | every step keeps the directory one-to-one and every book equal to its submission's own requests on a fresh book |
| Isolation.SubmissionsIsolated | services/shadow-engine/src/main.rs:385-390 | with at most 101 submissions, each started first, every submission is answered as if alone, under any interleaving |
| Isolation.StartResets | services/shadow-engine/src/main.rs:385-390 | a start gives the submission a fresh book, also when it had one; with more than 100 books everybody else is forgotten, otherwise nobody is touched |
| Isolation.FreshAfterStart | services/shadow-engine/src/main.rs:385-461 | a request that comes next after a start is answered from a fresh book |
| Isolation.IsolationBoundExact | services/shadow-engine/src/main.rs:381-390 | with 102 submissions, none of them blank, for any engine whose answer to one request depends on another before it, a run in which a submission is answered from a fresh book half-way |
| Isolation.BookIsolationBound | services/shadow-engine/src/main.rs:386-390 | the same for the matching book: a resting sell is forgotten and the buy that should meet it trades nothing |
| Addresses.DigitsReadBack | services/sandbox-orchestrator/network.go:218-221 | decimal formatting is read back exactly |
| Addresses.AddressReadBack | services/sandbox-orchestrator/network.go:204-232 | an address exists exactly for 1 to 254 and is read back as its index |
| Addresses.AddressIs | services/sandbox-orchestrator/network.go:218-221 | the address of index i is 172.16.0. followed by the decimal digits of i |
| Addresses.LeastFreeIs | services/sandbox-orchestrator/main.go:473-478 | the search in ascending order gives the least unused index, or none when all are used |
| Addresses.FindFreeIPIndex | services/sandbox-orchestrator/main.go:462-479 | the least index in 2..254 that no registered address has, and none exactly when all are taken |
| Orchestrator.ReserveFresh | services/sandbox-orchestrator/main.go:94-110 | a reservation takes the least index that no registered VM has |
| Orchestrator.StepInv | services/sandbox-orchestrator/main.go:63-325 | every orderly step of spawns and teardowns keeps addresses, reservations, teardowns and TAP ownership consistent |
| Orchestrator.AddressesExclusive | services/sandbox-orchestrator/main.go:106-110 | over every interleaving of orderly steps registered VMs, tentative ones included, have distinct addresses in range and distinct context ids, the index plus 10 |
| Orchestrator.AllocationExact | services/sandbox-orchestrator/main.go:462-479 | in every reachable state allocation gives the least free index and fails exactly when all 253 are registered |
| Orchestrator.AddTapKeeps | services/sandbox-orchestrator/network.go:62-79 | a TAP that could be created was nobody else's |
| Orchestrator.TapsOwned | services/sandbox-orchestrator/network.go:146-202 | with colliding names allowed, no spawn or teardown deletes another's TAP, active VMs have distinct TAPs, and at rest the TAPs are those registered |
| Orchestrator.LookupSafeIff | services/sandbox-orchestrator/main.go:263-308 | from every reachable state, every continuation of a teardown look-up deletes only own TAPs and keeps spawns in flight registered, if and only if no other teardown of the active VM is under way |
| Orchestrator.LookupAddressesIff | services/sandbox-orchestrator/main.go:263-308 | from every reachable state, every continuation of a teardown look-up keeps registered addresses and context ids exclusive, under the same condition and only then |
| Orchestrator.CrashIff | services/sandbox-orchestrator/main.go:263-284 | over every run, orderly or not, the server is up and no teardown can crash it if and only if no look-up met a VM still being spawned, whose machine is nil; after a crash no step is possible |
| Orchestrator.SecondLookupMisdeletes | services/sandbox-orchestrator/main.go:263-308 | a second look-up of a VM always has a continuation in which it is about to delete the TAP of the VM's next spawn |
| Orchestrator.SecondLookupShares | services/sandbox-orchestrator/main.go:263-308 | a second look-up of a VM always has a continuation in which two registered VMs have the same address |
| Orchestrator.StaleTeardownMisdeletes | services/sandbox-orchestrator/main.go:263-308 | a literal run with two teardowns of one VM at once that drops the VM spawned next under the same id, and is about to delete its TAP |
| Orchestrator.Server.Reserve | services/sandbox-orchestrator/main.go:81-111 | under the lock: granted exactly when the reserve step of the protocol is possible, and then the registry takes that step with the least free address, 172.16.0. and its index; existing ids and exhaustion are reported exactly |
| Percentiles.SortedUnique | services/bot-fleet/src/main.rs:820 | there is one ascending arrangement of given samples |
| Percentiles.ClampIdle | services/bot-fleet/src/main.rs:861-863 | the clamp to the last index never applies |
| Percentiles.QuantileAt | services/bot-fleet/src/main.rs:855-866 | at most p% of the samples are below the reported value and more than p% are at most it |
| Percentiles.Samples.CalculatePercentiles | services/bot-fleet/src/main.rs:806-853 | zeros for no samples; otherwise four quantiles, ascending, with the samples left sorted |
| Percentiles.OrderIrrelevant | services/bot-fleet/src/main.rs:820-852 | the reported values depend only on the multiset of samples |

## Left out

- JSON, gRPC and sockets: requests, trades and telemetry records are taken as decoded; the reply text and the bot's read buffer are not modelled.
- Shadow.PushBack: an ordered map is the sequence of its entries in key order, and a hash map is a map; their internals are libraries.
- Agreement.CompareEngines: the engines see the requests in one order, one engine after the other, as with one worker; several workers may reorder requests on the wire.
- Framing.Client.Receive: a line is the bytes up to its newline; what parsing makes of a NUL byte inside a line is not modelled.
- Pipeline.CompletesIff: workers are connected and every exchange ends, so connection retries and time-outs are not steps; the mutex around the job receiver is one atomic take.
- Ingest.StoredAtLeastOnce: one partition without rebalancing; a batch insert happens as a whole or not at all, so an insert that succeeds but reports an error is not modelled.
- Isolation.SubmissionsIsolated: the book is any deterministic state and step function; the directory and book locks are atomic steps.
- Orchestrator.TapsOwned: deleting an existing interface succeeds, creating one succeeds or leaves nothing behind, and the disk image, the boot and the probes are one step that may fail; submission disk files are not covered.
- Orchestrator.AddressesExclusive: an active VM is not looked up for teardown while another teardown of it is under way; shutdown of the whole server is not modelled.
- Orchestrator.CrashIff: a crash ends the run; the restart with an empty registry, and the TAPs it leaves behind, are not modelled.
- Percentiles.Samples.CalculatePercentiles: the library sort is modelled by the ascending arrangement it must produce.
- The ingester's and orchestrator's concurrent parts are step relations rather than classes; the flush of the storage worker and the reservation under the registry lock are also given as methods.
- Scores, leaderboard, web interface, submission job queue, eBPF probes, resource limits and deployment files.
