# A verified model of the PFCP proxy

The proxy stands between SMFs and a pool of UPFs. It keeps a table that binds each session (SEID) to a UPF and an SMF,
a table of pending requests by sequence number, a pool of UPF backends with one ticket counter, and a bank of counters.
This project models those parts in Dafny and proves what they guarantee.

The model has three layers.

* **Classes** (`Sessions`, `Pending`, `Pool`, `Statistics`, `Proxy`, `Control`, `Tui`) have the fields of the program's
  own structures, and their methods update them in the same order and with the same loops. Every method is proved to do
  exactly what a function on the mathematical state says.
* **Runs.** `Routing` turns those functions into a state machine: one step per received message, cleanup tick, passage of
  time, pool change or health change. A step chooses freely which of its sends fail. `Routing.Run` is any sequence of
  steps, and the laws below hold of all of them. Where it matters they are stated from the outside: `LatestBinding` and
  `LatestExchange` are computed from received messages and sends alone, without looking at the proxy's tables.
* **Interleavings.** Every message is handled by a task of its own. `ConcurrentBalance` and `ConcurrentExchange` cut the
  handlers at their await points and quantify over all schedules; `UndisturbedTasks` shows that a task nobody interrupts
  does what the handler does in one step.

Time, the network and the set of failing sends are inputs; an address is an opaque pair with equality; the address parser
is a parameter.

## Main results

* Dispatch: what each message type, named one by one, makes the proxy decide and send, after any run.
* The pool, in every run, is what its additions, removals and health updates say; exactly the known healthy and unknown
  UPFs may be picked, and under round robin establishments take turns in the order of the pool, a UPF added later
  included.
* Affinity: the session table is, in every run, the latest binding of each SEID not since deleted, and requests follow it.
* Delivery: responses go only to the sender of the latest forwarded request with their sequence number, once for a
  unicast request and at most once per pool member for a broadcast; and until another request with its number is
  forwarded, a response is delivered exactly while its exchange is open, whatever else happens in between.
* Under every interleaving of tasks and pool changes responses return to their own request's sender only, and a response
  is lost exactly when its broadcast was closed early because the pool had shrunk. While the pool keeps its size a
  pending entry is gone exactly when its exchange is complete. Sequence numbers of outstanding requests are unique, no
  cleanup runs in between, and each UPF answers at most once.
* Least-sessions keeps the counts within one plus deletions plus re-bindings in sequential runs, and within exactly `k`
  when `k` non-atomic selections overlap.
* Round robin and weighted selection are fair to the last ticket, including the wrap of the counter; a weighted run of
  this proxy is a round-robin run.
* The counters satisfy exact ledgers against the tables, the pool and the sends.
* The command file: exact conditions for the round trip and for the line skip, the latter also as a condition on the
  file alone; harmlessness of replay, and agreement between the pool and the list on the screen.

## Promises that hold only under a condition

* The monitor promises to process every command, but skips `last_size / 20` lines. After ten removals read in one pass
  the next line is never applied (`Control.TenRemovalsLoseTheNext`), and an addition there never gets its address into
  the pool (`Control.AdditionAfterTenRemovalsIsLost`); nine are harmless (`Control.NineRemovalsLoseNothing`).
  `Control.AllAppliedExactlyWhenNeverOverskipping` gives the exact condition, L < 20 * (n + 1) after n lines of L bytes;
  `Control.SafeExactlyWhenBelowSkip` states it of the file.
* Round robin promises even distribution. Across a wrap of the ticket counter two backends can differ by two
  (`Tickets.UnfairAcrossWrap`); differences stay within one exactly when the number of backends divides 2^64.
* A broadcast expects one response per UPF. When the pool shrinks before all have answered, a response can be dropped
  (`Delivery.ShrinkingLosesAResponse`); `Delivery.DeliveredExactlyWhileOpen` and, for every interleaving,
  `ConcurrentExchange.LostExactlyWhenClosedEarly` say exactly which.
* Active sessions are established minus deleted exactly when re-bindings and establishments without a SEID are offset by
  fall-through insertions (`Ledgers.SessionLedger`). One establishment without a SEID breaks the equation
  (`Ledgers.EstablishedIsNotActive`).
* A command survives the trip through the file exactly when its action has no colon, neither field has a newline, and its
  address does not end in a carriage return.
* The repository's README says that a binding is recorded after the request was forwarded (lines 326-330). The code binds
  before it sends: the binding is there whether or not the send succeeds, and is backed by a request its UPF was sent
  exactly when the send succeeds (`Affinity.BindingIsBackedExactlyWhenSent`). A lost establishment leaves its SEID bound
  (`Affinity.LostEstablishmentStaysBound`), and a lost deletion leaves it unbound, so that repeating it reaches nobody
  (`Affinity.LostDeletionCannotBeRepeated`).

That README also describes weighted selection by UPF capacity (lines 365-371). The code gives every backend weight one,
and the model follows the code.

## Model

| member | source | states |
|---|---|---|
| Sessions.CountAfterInsert | src/session.rs:33-67 | binding a SEID adds one session to its new UPF and takes one from the UPF it was bound to before |
| Sessions.CountAfterRemove | src/session.rs:54-67 | removing a SEID takes one session from exactly the UPF it was bound to |
| Sessions.SessionTable.Insert | src/session.rs:33-42 | the table after an insertion: the SEID rebound, all other bindings untouched |
| Sessions.SessionTable.Lookup | src/session.rs:44-46 | the bound UPF, or none |
| Sessions.SessionTable.LookupFull | src/session.rs:48-52 | the bound UPF and SMF, or none |
| Sessions.SessionTable.Remove | src/session.rs:54-56 | the table without the SEID and otherwise unchanged |
| Sessions.SessionTable.CountByUpf | src/session.rs:62-67 | the number of SEIDs bound to the UPF |
| Pending.PendingRequests.Insert | src/session.rs:108-117 | a fresh entry with no responses replaces any older one for the sequence number |
| Pending.PendingRequests.LookupAndIncrement | src/session.rs:119-129 | counts the response in the entry and returns the entry as counted, or reports that there is none |
| Pending.PendingRequests.Remove | src/session.rs:131-133 | the entry is gone and nothing else changes |
| Pending.PendingRequests.CleanupStale | src/session.rs:135-139 | exactly the entries younger than the maximum age remain |
| Pool.UpfPool.constructor | src/main.rs:103-119 | every backend starts with unknown health and weight one, the counter at zero |
| Pool.UpfPool.AddBackend | src/main.rs:122-143 | appends a new backend if there is room and the address is new, and says whether it did |
| Pool.UpfPool.RemoveBackend | src/main.rs:146-158 | removes every backend with the address and says whether there was one |
| Pool.UpfPool.UpdateHealth | src/main.rs:254-262 | changes the health of the first backend with the address only |
| Pool.UpfPool.HealthyBackends | src/main.rs:238-248 | the healthy and unknown backends in pool order |
| Pool.UpfPool.SelectUpf | src/main.rs:171-179 | dispatches to the configured strategy and leaves the ticket counter as that strategy does |
| Pool.UpfPool.SelectByRoundRobin | src/main.rs:181-189 | draws one wrapping ticket and picks the backend at that ticket modulo the list length |
| Pool.UpfPool.SelectByLeastSessions | src/main.rs:191-209 | picks what the running-minimum scan over per-UPF counts picks |
| Pool.UpfPool.SelectByWeight | src/main.rs:211-236 | picks the owner of the ticket's slot on the cumulative weight line, with the 32-bit sum and the fallback for sum zero |
| Pool.HealthyExactly | src/main.rs:238-248 | a backend is selectable exactly when it is in the pool and healthy or of unknown health |
| Pool.HealthyInPoolOrder | src/main.rs:238-248 | the selectable backends are the records at exactly the positions with health healthy or unknown, in increasing order |
| Pool.RemovedInPoolOrder | src/main.rs:146-158 | a removal leaves the records at exactly the positions with another address, in increasing order |
| Pool.AddedRecord | src/main.rs:122-143 | an addition with room and a new address keeps every record and puts last one of unknown health and weight one, which may be chosen |
| Pool.AddedMembership | src/main.rs:122-143 | after an addition an address is in the pool exactly when it was, or was added with room to spare; distinctness is kept |
| Pool.RemovedAddrs | src/main.rs:146-158 | after a removal exactly the other addresses remain; the length is unchanged exactly when the address was absent |
| Pool.HealthUpdatedAt | src/main.rs:254-262 | a health update touches one position, the first with the address, or nothing |
| Pool.LeastIsFirstMinimum | src/main.rs:191-209 | the scan keeps the earliest backend with the smallest count below the sentinel, and none exactly when all are at the sentinel |
| Pool.OwnerOwnsItsInterval | src/main.rs:227-233 | the cumulative scan finds a backend exactly for the slots of its own weight interval |
| Pool.WeightedAlwaysFinds | src/main.rs:211-236 | weighted selection over a non-empty list always returns a backend, whatever the weights and even if their sum wraps |
| Pool.SelectedIsHealthyMember | src/main.rs:171-236 | the chosen address is a selectable pool member, and when nothing is chosen |
| Pool.LeastSessionsPicksFirstMinimum | src/main.rs:191-209 | least-sessions picks the first selectable backend in pool order among those with the fewest sessions |
| Pool.WrappedWeightsFallBack | src/main.rs:211-222 | weights that add up to 2^32 are treated as a zero sum |
| Pool.SelectDrawsOneTicket | src/main.rs:187-225 | one ticket per successful choice, none for a failed one or for least-sessions |
| Statistics.TotalAfterBump | src/statistics.rs:53-59 | bumping one key raises the sum over all keys by one |
| Statistics.SnapshotAgreesWithTable | src/statistics.rs:184-229 | reported per-UPF sessions never exceed the table's count over distinct backends, and equal it exactly when every bound UPF is in the pool |
| Statistics.Statistics.RecordMessageReceived | src/statistics.rs:45-51 | the new counters: total and per-type count up by one, the rest unchanged |
| Statistics.Statistics.RecordMessageSent | src/statistics.rs:53-59 | the new counters: total and per-UPF count up by one, the rest unchanged |
| Statistics.Statistics.RecordRoutingDecision | src/statistics.rs:69-77 | exactly one of the three routing counters goes up, broadcasts first |
| Statistics.Statistics.CreateSnapshot | src/statistics.rs:184-229 | the counters, the table's size and one record per pool member in pool order |
| Routing.TableAfterStep | src/main.rs:332-414 | bindings are made only by balanced requests with a SEID and undone only by deletions of bound SEIDs, which the deletion counter counts |
| Routing.StrategyNeverChanges | src/main.rs:88-93 | in every reachable state the strategy is the configured one and the counter fits its width |
| Dispatch.RoutingTable | src/main.rs:296-416 | the routing decision for every message type by name, from the pool, the pick and the binding |
| Dispatch.NodeMessagesReachEveryUpf | src/main.rs:304-329 | after any run each of the four node-level requests is sent once to every pool member in pool order and leaves sessions and pool alone |
| Dispatch.SmfRequestsAreNotResponses | src/main.rs:270-285 | none of the eleven SMF requests ever counts as a forwarded or dropped response |
| Dispatch.EverythingElseIsAResponse | src/main.rs:449-467 | every type but the twelve requests goes to the origin of its pending request or is dropped |
| Dispatch.EstablishmentsAreBalanced | src/main.rs:332-346 | an establishment draws the balancer's pick, goes there alone, binds its SEID to it and is counted, or does nothing when nothing is picked |
| Dispatch.SessionMessagesFollowBindings | src/main.rs:349-372 | a modification or deletion goes to its SEID's latest binding or nowhere; only a bound deletion unbinds and is counted |
| Dispatch.OtherRequestsFallThrough | src/main.rs:390-414 | the four remaining requests follow a binding if there is one and are balanced, and bound, otherwise |
| PoolHistory.PoolIsWhatEventsSay | src/main.rs:122-262 | in every run from distinct backends the pool holds exactly the UPFs its events say, with the health last reported since they were added |
| PoolHistory.SelectableExactlyWhenKnown | src/main.rs:171-262 | a UPF may be picked exactly while it is known as healthy or unknown, and except under least-sessions somebody is picked whenever there is such a UPF |
| Proxy.PfcpProxy.RouteMessage | src/main.rs:296-416 | the handler routes as the state machine does, with every table, pool and counter update |
| Proxy.PfcpProxy.HandleMessage | src/main.rs:422-483 | one received message is one step of the state machine, including every attempted send |
| Proxy.PfcpProxy.HandleUpfRequest | src/main.rs:485-514 | a report is tracked before it is sent on to the bound SMF, and untracked again when the send fails |
| Proxy.PfcpProxy.HandleResponse | src/main.rs:516-557 | look up and count, forward, and remove when the last expected response was forwarded |
| Proxy.PfcpProxy.HandleSmfRequest | src/main.rs:559-621 | insert before send, one send or one per backend, and withdrawal when no send succeeded |
| Proxy.PfcpProxy.SendToAll | src/main.rs:590-598 | the broadcast loop attempts every address in order and counts the successes |
| Proxy.PfcpProxy.CleanUp | src/main.rs:717-721 | the cleanup task is the state machine's cleanup step |
| Affinity.TableIsLatestBindings | src/main.rs:332-414 | in every run the table is the latest binding of each SEID not since deleted, as observed from messages and sends |
| Affinity.SessionAffinity | src/main.rs:349-400 | after any run a modification, deletion or fall-through request goes to the UPF of its SEID's latest binding and nowhere else; an unbound modification or deletion is sent nowhere |
| Affinity.ReportGoesToBoundSmf | src/main.rs:485-514 | a session report is sent on exactly when it comes from the bound UPF, and only to the bound SMF |
| Affinity.BindingIsBackedExactlyWhenSent | src/main.rs:332-346 | after any run a balanced request with a SEID binds it to the picked UPF whatever becomes of the send, and the UPF was sent the request exactly when the send succeeds |
| Affinity.LostEstablishmentStaysBound | src/main.rs:337-342 | an establishment whose send fails leaves its SEID bound, and a modification then goes to a UPF that never heard of the session |
| Affinity.LostDeletionCannotBeRepeated | src/main.rs:354-366 | after any run a deletion of a bound SEID unbinds it even when its send fails, and repeating the deletion is sent nowhere |
| Affinity.BindingsStayInPool | src/main.rs:332-400 | without removals every bound UPF stays in the pool |
| Affinity.DistinctPoolStaysDistinct | src/main.rs:122-158 | distinct backends stay distinct in every run |
| Affinity.SnapshotOfRunAgrees | src/statistics.rs:184-229 | in every run snapshot sessions are at most the table's, with equality exactly when all bound UPFs are in the pool |
| Delivery.PendingTracksExchange | src/session.rs:108-133 | every pending entry carries the origin, kind, time and count of the exchange an observer saw, and no exchange exceeds its allowance |
| Delivery.ResponseDelivery | src/main.rs:516-557 | a response goes to the sender of the latest forwarded request with its number or is counted as dropped; one delivery per unicast, at most the largest pool size per broadcast, failed forwards included |
| Delivery.FixedPoolAllowance | src/main.rs:530-546 | with a pool of B every broadcast brings back at most B responses and every other request one |
| Delivery.ReportResponseReturnsToUpf | src/main.rs:485-547 | the response to a forwarded report goes back to the bound UPF while its entry is undisturbed |
| Delivery.PendingWhileOpen | src/main.rs:516-603 | until another with its number is forwarded a forwarded request has its entry, with the number of responses so far, exactly while no cleanup, vain request or completing response has closed it |
| Delivery.DeliveredExactlyWhileOpen | src/main.rs:525-556 | after any forwarded request, and until another with its number is forwarded, a response with its number goes to its sender exactly while the exchange is open and is dropped otherwise |
| Delivery.BroadcastCollectsAll | src/main.rs:525-603 | a broadcast that reached some UPF of B gets its first B responses delivered, its entry goes with the B-th and later ones are dropped, with any other events in between while the pool keeps its size and no cleanup finds the entry too old |
| Delivery.ShrinkingLosesAResponse | src/main.rs:530-546 | a broadcast to two UPFs of which one is removed before the answers: the second answer is dropped |
| Tickets.WindowHits | src/main.rs:224-233 | over n consecutive tickets a slot range is hit once per slot and cycle, and the remaining tickets add at most one per slot |
| Tickets.RoundRobinFair | src/main.rs:181-189 | over any window of tickets two backends' picks differ by at most one plus the counter's wraps |
| Tickets.FairExactlyWhenLengthDividesWidth | src/main.rs:181-189 | picks always stay within one of each other exactly when the list length divides 2^64 |
| Tickets.UnfairAcrossWrap | src/main.rs:181-189 | otherwise a window around a wrap picks the first backend twice and the last one never |
| Tickets.RoundRobinClosedForm | src/main.rs:181-189 | after n tickets from zero the i-th of m backends was picked ceil((n - i) / m) times |
| Tickets.WeightedProportional | src/main.rs:211-236 | over n tickets a weight w of W is picked at least floor(n / W) * w times and at most min(w, n mod W) more, so exactly w times per W tickets |
| Fairness.TicketLedger | src/main.rs:181-225 | in every run the ticket counter is the number of balanced requests modulo 2^64, or zero under least-sessions |
| Fairness.PicksFollowTickets | src/main.rs:181-189 | while the selectable addresses stay the same the run's picks are those of consecutive tickets |
| Fairness.RoundRobinRunIsFair | src/main.rs:181-189 | from distinct initial backends, in any stretch of a round-robin run with steady selectable addresses, two backends' balanced requests differ by at most one plus wraps, or by one when their number divides 2^64 |
| Fairness.RoundRobinRunClosedForm | src/main.rs:181-189 | after k balanced requests over m steady addresses the i-th received floor((k + m - 1 - i) / m) |
| Turns.PickOfTicket | src/main.rs:181-189 | while the selectable addresses stay the same the k-th pick is the address at the k-th next ticket |
| Turns.EstablishmentsTakeTurns | src/main.rs:181-189 | under round robin with an untouched pool an establishment after k balanced requests is sent to the initial backend at position k, modulo 2^64 and their number |
| Turns.AddedUpfGetsItsTurn | src/main.rs:122-189 | an added UPF comes last among those that may be chosen and is picked within as many balanced requests as there are, or within one less than twice as many across a wrap |
| Fairness.ReachablePoolsHaveUnitWeights | src/main.rs:103-158 | every reachable pool has only weights of one and never outgrows 64 or its initial size |
| Fairness.WeightedEqualsRoundRobin | src/main.rs:211-236 | with unit weights, fewer than 2^32, weighted selection picks and counts as round robin does |
| Fairness.WeightedRunsAreRoundRobinRuns | src/main.rs:171-236 | every run under the weighted strategy sends, stores and counts exactly what it does under round robin |
| Balance.StepKeepsGap | src/main.rs:332-358 | a deletion adds at most one to the least-sessions gap, a re-binding at most one to the larger of one and the gap; a fresh SEID never raises it above the larger of one and what it was; no other step changes it |
| Balance.LeastSessionsStaysBalanced | src/main.rs:191-209 | in every run with steady selectable addresses, their session counts differ by at most one plus deletions plus re-bindings |
| Balance.EstablishmentGoesToFirstMinimum | src/main.rs:191-209 | under least-sessions an establishment is sent to the first selectable address in pool order with the fewest sessions |
| Ledgers.SendLedger | src/main.rs:571-603 | successful and failed sends to UPFs are one per request routed by SEID or balanced and one per pool member for each broadcast; per-UPF counts are the sends to each UPF and sum to the total |
| Ledgers.FixedPoolFanOut | src/main.rs:306-329 | with a pool of B the broadcasts account for B sends each |
| Ledgers.ResponseLedger | src/main.rs:525-556 | every response received was forwarded, dropped or failed to be sent; per-type counts sum to the messages received |
| Ledgers.PerTypeLedger | src/statistics.rs:45-51 | in every run the count of a message type is the number of messages of that type received |
| Ledgers.SnapshotReportsTheRun | src/statistics.rs:184-229 | in every run a snapshot reports per pool member, in pool order, its address, its health, the requests it was sent and the sessions bound to it, and the counters as they are |
| Ledgers.SessionLedger | src/statistics.rs:61-77 | live plus deleted plus re-bindings are the establishments with a SEID plus fall-through insertions, at most the balanced requests; and exactly when live is established minus deleted |
| Ledgers.EstablishedIsNotActive | src/main.rs:332-342 | one establishment without a SEID counts as established, deletes nothing and leaves no session |
| Lifetime.PendingLifetime | src/main.rs:711-723 | with timely cleanups every pending entry stems from a request forwarded less than 90 time units ago |
| Lifetime.LifetimeIsTight | src/session.rs:135-139 | an entry can be 89 units old |
| ConcurrentBalance.InvariantHolds | src/main.rs:191-209 | in every interleaving a UPF's count plus the tasks that may still choose it stays within k of any other's |
| ConcurrentBalance.ConcurrentGapAtMostK | src/main.rs:191-343 | with at most k overlapping non-atomic selections of fresh SEIDs, session counts never differ by more than k |
| ConcurrentBalance.GapOfKIsReached | src/main.rs:191-343 | for two backends and any k some schedule makes them differ by exactly k |
| ConcurrentBalance.UndisturbedScanIsSelection | src/main.rs:200-208 | a task left alone chooses what the sequential selection chooses |
| ConcurrentExchange.LostExactlyWhenClosedEarly | src/main.rs:525-603 | in every interleaving of tasks and pool changes a response about to be looked up misses its entry exactly when its broadcast was closed by a task that read a pool smaller than the number of copies; only then is one dropped |
| ConcurrentExchange.NoResponseIsLost | src/main.rs:525-603 | in every interleaving in which the pool never shrinks, whatever sends fail, a response always finds its entry and holds its own request's sender |
| ConcurrentExchange.EntryGoneExactlyWhenComplete | src/main.rs:525-603 | with a pool of fixed size the entry is gone exactly when the response counted last was delivered or no copy could be sent, hence once all responses are delivered |
| ConcurrentExchange.CountsAreDistinct | src/session.rs:119-129 | responses, under way or ended, hold distinct counts between one and the number of copies |
| ConcurrentExchange.ResponsesReturnToOrigin | src/main.rs:525-529 | whatever is sent on goes to the request's sender, at most once for each UPF reached and at most as often as there are copies; a delivered response was sent on |
| UndisturbedTasks.UndisturbedRequestIsHandled | src/main.rs:559-603 | a request task that nothing interrupts leaves the pending entry the one-step handler leaves |
| UndisturbedTasks.UndisturbedResponseIsHandled | src/main.rs:516-557 | a response task that nothing interrupts sends and moves the entry as the one-step handler does |
| UndisturbedTasks.UndisturbedEstablishmentIsHandled | src/main.rs:191-346 | an establishment task under least-sessions that nothing interrupts leaves the session table that the one-step handler leaves |
| CommandLog.RoundTripExactlyWhenWellFormed | src/bin/tui-runner.rs:551-567 | commands read back from the file equal those written exactly when all are well formed |
| CommandLog.LinesOfFile | src/main.rs:760 | whatever newline-free lines a file holds, they are read back up to a carriage return at their end |
| CommandLog.LinesOfWellFormed | src/main.rs:760-761 | the file of well-formed commands has one line per command, each splitting at its first colon into the command |
| CommandLog.LineEndings | src/main.rs:760 | a newline, or a carriage return and a newline, end a line and do not belong to it; a last line without a newline is kept whole |
| CommandLog.Utf8CharDecodes | src/main.rs:753 | the bytes that a character counts for are those of its shortest UTF-8 encoding (section 3 of RFC 3629), which decodes to it |
| CommandLog.SizeIsUtf8Length | src/main.rs:753 | the size of a text is the number of bytes of its UTF-8 encoding |
| CommandLog.DecodedFieldsAreClean | src/main.rs:760-761 | whatever the file holds, what is read has no colon in its action and no newline anywhere |
| Control.MonitorPass | src/main.rs:751-789 | one pass applies the lines after the skip, in order, if the file grew and could be read, and remembers the size it saw |
| Control.Monitor | src/main.rs:744-790 | the monitor's passes over any history of the file leave the pool and the remembered size that the history functions say |
| Control.LastSizeIsLargestSeen | src/main.rs:752-788 | the monitor remembers the largest size it has looked up, whether or not it could read |
| Control.UnchangedFileIsNotReadAgain | src/main.rs:752-754 | a pass that finds the file no larger than before applies nothing and changes nothing |
| Control.AllAppliedExactlyWhenNeverOverskipping | src/main.rs:744-788 | all lines read are applied by some pass exactly when L < 20 * (n + 1) at every pass that found new lines after n lines of L bytes, whatever the lines are |
| Control.PoolIsTraceApplied | src/main.rs:744-788 | the pool is what the lines that some pass applied make of the initial one, in the order in which they were applied |
| Control.SafeExactlyWhenBelowSkip | src/main.rs:744-788 | while reads succeed, every way of writing and reading a file applies all lines read exactly when each proper prefix of n lines has fewer than 20 * (n + 1) bytes |
| Control.ShortLinesAreSafe | src/main.rs:760 | files whose lines take at most 20 bytes each, newlines included, are always applied completely while reads succeed |
| Control.SkippedOnceIsLostForever | src/main.rs:760-788 | a line before the skip that was not applied yet is never applied |
| Control.LostAdditionNeverReachesThePool | src/main.rs:760-788 | when the only line that adds an address was skipped, the address is never in the pool |
| Control.TenRemovalsLoseTheNext | src/main.rs:760-788 | after ten 22-byte removals seen in one pass the next line is never applied |
| Control.AdditionAfterTenRemovalsIsLost | src/main.rs:760-788 | an addition after those ten removals never reaches the pool, although applying every line once would put its address there |
| Control.NineRemovalsLoseNothing | src/main.rs:760-788 | after nine such removals, 198 bytes, seen in one pass the next line is applied, and an addition there reaches the pool |
| Control.AppliedMembership | src/main.rs:764-778 | with at most 64 addresses in play, the last line that adds or removes an address decides whether it is in the pool |
| Control.PoolIsExactlyOnce | src/main.rs:744-788 | despite replays the pool's addresses are those of applying every line read exactly once in order |
| Tui.App.SendUpfCommand | src/bin/tui-runner.rs:551-567 | appends one encoded command to the file |
| Tui.App.HandleKey | src/bin/tui-runner.rs:1210-1284 | the tab's new state and the commands issued, for every key |
| Tui.App.SubmitInput | src/bin/tui-runner.rs:1220-1236 | a new, non-empty address is appended and announced when there is room, otherwise nothing changes |
| Tui.App.DeleteSelected | src/bin/tui-runner.rs:1255-1273 | the selected address is removed and announced, and the selection stays in range |
| Tui.SessionFollowsCommands | src/bin/tui-runner.rs:1220-1273 | whatever keys are pressed, the list is what the issued commands say, distinct and at most 64 long |
| Tui.TypedAddressIsAnnounced | src/bin/tui-runner.rs:1214-1254 | an address typed after `a` and confirmed ends the list and is written as `add:<address>`, or stays in the input when the list is full or has it |
| Tui.DeletionIsAnnounced | src/bin/tui-runner.rs:1255-1273 | `d` takes out the selected address, writes `remove:<address>` and keeps the selection in range |
| Tui.BackspaceUndoesTyping | src/bin/tui-runner.rs:1214-1219 | as many backspaces as characters typed, or more, give back the empty input |
| Tui.EscapeDiscards | src/bin/tui-runner.rs:1237-1254 | escape discards the input and leaves list and file as they were |
| Tui.DownStopsAtTheEnd | src/bin/tui-runner.rs:1277-1281 | n times down moves the selection n on, at most to the end |
| Tui.UpStopsAtTheBeginning | src/bin/tui-runner.rs:1274-1276 | n times up moves the selection n back, at most to the beginning |
| Tui.SelectionStaysInRange | src/bin/tui-runner.rs:1210-1284 | in every session the selection is on an address of the list, or at zero when it is empty |
| Tui.PoolFollowsList | src/main.rs:760-778 | applied once each, the commands keep the pool and the UI's list the same sequence of addresses |
| Tui.PoolMatchesScreen | src/main.rs:744-788 | end to end, without overskipping the pool's addresses are those of the UI's list after the last command read, and of the screen once all are read |

## Left out

- UDP sockets, name resolution, command-line arguments, the async runtime: a send succeeds or fails as the environment chooses.
- PFCP encoding and parsing: a message starts as its type, SEID, sequence number and sender; messages that do not parse change nothing and are not modelled.
- The 64-bit wrap of the statistics counters: the model counts without bound, so an equation between counters holds of the stored values modulo 2^64. The ticket counter's wrap and the 32-bit weight sum are modelled.
- Pool.UpfPool.SelectByWeight: the running `usize` sum of weights is unbounded, because it cannot reach 2^64 with 32-bit weights and fewer than 2^32 backends.
- DashMap and RwLock internals: each table operation is one atomic step, including one `count_by_upf`; the scan over several backends is not atomic in `ConcurrentBalance`.
- Session timestamps and `cleanup_idle`: nothing calls it and nothing else reads the timestamps.
- ConcurrentBalance.ConcurrentGapAtMostK: tasks are values in a schedule rather than class methods, because an interleaving is not a method call; the table is the one of `Sessions`.
- ConcurrentExchange.NoResponseIsLost: tasks are values in a schedule; cleanup does not run in between, sequence numbers are used again only when their request is over, and each UPF answers at most once.
- Control.SafeExactlyWhenBelowSkip: the control file grows in whole lines and is never truncated.
- Report printing, JSON export, snapshot timestamps and the text form of message types: formatting.
- The health monitor and the configuration file: a placeholder loop and an unused record; health changes are environment steps.
- Tui.App.HandleKey: quitting, switching tabs, messages, the service list and failures of writing the file are not modelled.
- The location of the control file: the UI and the proxy are taken to share one file.
