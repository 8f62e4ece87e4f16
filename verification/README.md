# Verified kernels of libp2p-rs

This project models the parts of libp2p-rs that keep state or define bytes on the wire, and proves what they are
relied on for. Sockets are byte sequences with a script of answers, time is a number passed in, hash maps are maps,
and concurrent code is a machine of labelled steps whose invariants hold over every interleaving.

| file | part of the system |
|---|---|
| `MetricMap.dfy` | the copy-and-swap map shared by metric writers |
| `TaskLimiter.dfy` | the token-based task limiter |
| `Dialer.dfy`, `Swarm.dfy`, `SwarmRuns.dfy`, `SwarmHistory.dfy` | dial rounds, the swarm's connection indexes and pending dials, runs of the swarm whose dials end as runs of dial rounds, and what its answers, counters and substreams tell of a run |
| `Varint.dfy`, `LengthDelimited.dfy`, `MultistreamProtocol.dfy`, `Negotiator.dfy`, `NegotiationReplies.dfy`, `NegotiationRuns.dfy`, `NegotiationLogs.dfy` | multistream-select 1.0.0, from varints to a two-party negotiation |
| `BackoffStorage.dfy`, `TimeCache.dfy`, `MessageCache.dfy`, `SubscriptionFilter.dfy` | gossipsub's backoff wheel, expiring cache, message window and subscription filters |
| `AddressRegistry.dfy` | the score-sorted registry of observed addresses |
| `PnetStream.dfy` | the private-network stream cipher under partial writes |
| `MultiaddrProtocol.dfy`, `MultiaddrBytes.dfy`, `Utf8.dfy`, `Multiaddr.dfy`, `MultiaddrReencoding.dfy` | the multiaddr binary code, its bytes and texts, editing addresses on their bytes, and when bytes survive decoding and encoding |
| `Bytes.dfy` | bytes, options and results |

A method that changes state is proved equal to a function on the object's value (`View`), and the properties are
proved of that function and of its runs.

Where the code does not do what one would expect of it, the code is modelled as it is, and the project holds an input
that shows the difference together with the exact condition:

- A modification returned by `store_or_modify` is visible afterwards exactly when no delete of its key was swapped in
  after the map it was applied in (`MetricMap.ReturnedModification`, `MetricMap.DeleteHidesConcurrentUpdate`).
- Negotiation keeps its promise exactly when every name that is offered survives the wire; a name of 140 bytes, which
  `Protocol::try_from` accepts, and the name of the header do not (`NegotiationRuns.EveryRunEndsAsPromised`,
  `MultistreamProtocol.RoundTrip`, `MultistreamProtocol.LongestNameIsLost`).
- `wait` may return counters that miss a task, because a task takes its own handle out of the map before it counts
  itself; they account for every submitted future exactly when no task is at that last action
  (`TaskLimiter.WaitMayMissATask`, `TaskLimiter.WaitRunsEverything`).
- A write to the private-network stream may report an error after it has taken its bytes; they stay on their way. The
  acknowledged bytes are the sent ones exactly when the socket never answers, after letting the buffered bytes go, with
  an error before it has made room for the new ones (`PnetStream.FailedWriteStaysOnWire`,
  `PnetStream.AcknowledgedIffNoneTakenButFailed`).
- Multiaddr bytes that were accepted rather than encoded may change when they are encoded again; they do not exactly
  when they are canonical (`MultiaddrReencoding.ReencodingMayShorten`, `MultiaddrReencoding.ReencodesIffCanonical`).
- A score in the address registry is 32 bits wide: it agrees with the reports exactly as long as no address has more
  than 2^32-1 of them (`AddressRegistry.OneReportTooMany`, `AddressRegistry.AgreedThroughoutIffCountable`).
- A message that is removed from the message cache and put again is in the window twice: it can be gossiped twice and
  leaves with its older mention (`MessageCache.RemovedThenPutIsGossipedTwice`,
  `MessageCache.RemovedThenPutLeavesEarly`; exactly how often and how long: `MessageCache.GossipedOncePerPut` and
  `MessageCache.CachedUntilOldestLeaves`).
- A subscription request with redundant actions may lose its last action in the deduplication
  (`SubscriptionFilter.RedundantRequestIsLost`; the exact condition is `SubscriptionFilter.KeptMeansRequestIff`), and
  bounds inside a combined filter are not looked at (`SubscriptionFilter.CombinedIgnoresBounds`).

One comment and its code disagree, and the code is followed: the documentation of `is_backoff_with_slack`
(protocols/gossipsub/src/backoff.rs:107-113) has its truth values the wrong way round; the code answers true while the
pair is stored.

## Model

| member | source | states |
|---|---|---|
| `MetricMap.StepKeeps` | core/src/metricmap.rs:66-137 | every step of every call keeps: published cells are never shared between keys, a private cell is unpublished until its swap wins, a removed cell is not reused, each returned modification was applied once, each returned delete has swapped in a map without its key |
| `MetricMap.RunKeeps` | core/src/metricmap.rs:66-137 | the invariant holds after every interleaving of any number of calls |
| `MetricMap.ReturnedModification` | core/src/metricmap.rs:66-137 | a returned modification was applied exactly once, to the cell its key had, and to no other published cell; it is visible in the current map if and only if no delete of the key came after |
| `MetricMap.SwapsChangeOneKey` | core/src/metricmap.rs:66-137 | with deletes, each successful exchange changes the presence of one key and keeps the cells of all others |
| `MetricMap.ReturnedDelete` | core/src/metricmap.rs:109-137 | in every run a returned delete has one exchange of its own, which published a map without the key; the key has stayed absent unless a later exchange stored it |
| `MetricMap.ReturnsIffNoneSince` | core/src/metricmap.rs:66-137 | the exchange of a call succeeds, and the call returns, exactly when no other exchange came since its load |
| `MetricMap.CellHoldsReturnedCalls` | core/src/metricmap.rs:66-97 | without deletes, the cell of a key holds exactly the returned calls of that key, each once: no update is lost or doubled |
| `MetricMap.DeleteHidesConcurrentUpdate` | core/src/metricmap.rs:66-137 | a run in which a delete between load and update makes a returned update invisible |
| `TaskLimiter.StepKeeps` | runtime/src/limit.rs:45-292 | every step of client, loop and tasks keeps the token, counter, future and shutdown invariants, and that each task which has yet to take its handle out of the map is in the map, on its way there, or being joined |
| `TaskLimiter.RunKeeps` | runtime/src/limit.rs:45-292 | they hold after every interleaving |
| `TaskLimiter.TokenConservation` | runtime/src/limit.rs:50-107 | tokens in the channel, with the loop and with tasks are `parallelism` until shutdown and never more; nor do more tasks run |
| `TaskLimiter.ReleaseNeverLosesToken` | runtime/src/limit.rs:281-292 | a token is never given back after the loop, and with it the receiver, has ended; before shutdown the ignored `try_send` always succeeds |
| `TaskLimiter.SomeTaskHoldsToken` | runtime/src/limit.rs:50-107 | a loop that waits for a token is not stuck: some task still has one to give back |
| `TaskLimiter.OnlyTheEndIsStuck` | runtime/src/limit.rs:50-163 | after `wait` or `shutdown`, in every run: neither the loop nor a task can take a step if and only if the loop has ended and every task is over |
| `TaskLimiter.NoneMadeAfterShutdown` | runtime/src/limit.rs:50-163 | whatever follows the flag of `shutdown`, in every run: no further task is made, and the loop takes at most the one future it may already have been about to take |
| `TaskLimiter.ShutdownCancels` | runtime/src/limit.rs:111-163 | once the loop joins, exactly after a shutdown every task that has not ended can be canceled: dropped uncounted if it never ran, else ended abnormally |
| `TaskLimiter.ShutdownCloses` | runtime/src/limit.rs:152-158 | in every run the flag is followed by closing the token channel and then the queue |
| `TaskLimiter.EachStartedTaskIsRecordedOnce` | runtime/src/limit.rs:222-292 | each started task is in flight or counted under exactly one of executed, crashed, canceled; canceled only after shutdown |
| `TaskLimiter.OutcomeTellsTheRun` | runtime/src/limit.rs:254-292 | in every run a task is recorded as executed if and only if it completed, and otherwise if and only if it panicked or was canceled while it ran |
| `TaskLimiter.CountedAsItEnded` | runtime/src/limit.rs:281-292 | in every run a task that counts itself raises one counter: executed if it completed, else canceled if the limiter was terminated by then, else crashed |
| `TaskLimiter.WaitRunsEverything` | runtime/src/limit.rs:111-163 | in every run of `wait`, once the loop has ended: every submitted future was started, each task is over or about to count itself, every token is back; executed and crashed account for all of them if and only if no task is still about to count itself |
| `TaskLimiter.OnlyCountingOutlivesLoop` | runtime/src/limit.rs:111-128 | after the end of the loop, shutdown or not, a task is over, dropped by a shutdown, or at its last action |
| `TaskLimiter.WaitMayMissATask` | runtime/src/limit.rs:281-292 | a run in which `wait` returns with one future submitted and none executed or crashed, because the task took its handle out before it counted itself |
| `Dialer.Deciding` | swarm/src/dial.rs:474-500 | the deciding round is the first successful one or the last of max(1, attempts) |
| `Dialer.StartDialing` | swarm/src/dial.rs:474-500 | the retry loop returns the verdict of the deciding round and runs no round after it |
| `Dialer.DialSucceedsIffARoundDoes` | swarm/src/dial.rs:474-500 | a dial succeeds if and only if an allowed round does, with that round's peer |
| `Dialer.VerdictOfDial` | swarm/src/dial.rs:474-500 | a dial ends with its first successful round; with every round failed, with the number of attempts if more than one was allowed, else with the error of the only round |
| `Dialer.Looked` | swarm/src/dial.rs:590-641 | the collector stops at the first report that is a connection to the wanted peer |
| `Dialer.CollectDialingResult` | swarm/src/dial.rs:590-641 | success names the requested peer; exactly the wrong peers and transport errors seen before it are put in backoff, in order |
| `Dialer.PenalisedIff` | swarm/src/dial.rs:590-641 | an address is put in backoff if and only if a report looked at names a wrong peer, or a transport error, for it |
| `Dialer.StepKeeps` | swarm/src/dial.rs:154-207 | every step of the jobs, the collector and foreign dials keeps: one report per job, the collector's count, the shared token counter |
| `Dialer.RunKeeps` | swarm/src/dial.rs:154-207 | that holds after every interleaving |
| `Dialer.RoundVerdict` | swarm/src/dial.rs:554-641 | a round ends with the wanted peer if and only if a taken report named it; otherwise every job has reported and none did |
| `Dialer.RoundRunsTheCollector` | swarm/src/dial.rs:554-641 | for whatever the channel would yield after its reports, an interleaved round ends with what `CollectDialingResult` ensures: the verdict, and the penalised addresses in order, from exactly the reports that method looks at |
| `Dialer.RoundNamesPeer` | swarm/src/dial.rs:503-641 | a round that succeeds, in any interleaving of its jobs, does so with the wanted peer |
| `Dialer.CollectorIsNeverStarved` | swarm/src/dial.rs:554-641 | a waiting collector has a report to take or a job that will send one |
| `Dialer.RoundIsNeverStuck` | swarm/src/dial.rs:154-207 | in every run a job that is not over can go on, and once all are over a collector without a verdict has a report to take |
| `Dialer.JobsReportOnce` | swarm/src/dial.rs:154-207 | no job reports twice |
| `Dialer.TokensReturned` | swarm/src/dial.rs:154-207 | when the jobs are over the shared counter is what foreign dials hold |
| `Dialer.RefusedIffLimitReached` | swarm/src/dial.rs:154-207 | in every run a job is refused exactly when the dials under way, its own round's and foreign ones, have reached the limit; it then reports just that, and any other job its own result |
| `Swarm.Without` | swarm/src/lib.rs:1383-1418 | retaining other ids removes exactly the closed one |
| `Swarm.OpenedKeepsIndexes` | swarm/src/lib.rs:1179-1307 | an opened connection keeps both indexes and the counters in agreement |
| `Swarm.ClosedKeepsIndexes` | swarm/src/lib.rs:1383-1418 | so does a closed one, without visiting either "shouldn't happen" branch, and no peer is left with an empty list |
| `Swarm.WarnsOfTheUnknown` | swarm/src/lib.rs:1383-1418 | a "shouldn't happen" branch is visited exactly when the connection is unknown or its peer is not listed |
| `Swarm.Swarm.constructor` | swarm/src/lib.rs:354-400 | a new swarm has empty indexes and no pending dials |
| `Swarm.Swarm.AddToIndexes` | swarm/src/lib.rs:1156-1174 | the connection goes into both indexes |
| `Swarm.Swarm.HandleConnectionOpened` | swarm/src/lib.rs:1179-1307 | counter, fresh id, callback, indexes; defined when the transaction is pending |
| `Swarm.Swarm.HandleConnectionClosed` | swarm/src/lib.rs:1383-1418 | removal from both indexes, dropping an emptied list, with both fallback branches |
| `Swarm.Swarm.HandleOutgoingConnectionError` | swarm/src/lib.rs:1319-1330 | the pending callback is run with the error |
| `Swarm.Swarm.DialAddr` | swarm/src/lib.rs:1015-1037 | a dial to the local peer is refused at once, any other gets a fresh transaction |
| `Swarm.Swarm.DialPeer` | swarm/src/lib.rs:1041-1086 | likewise, and without address and routing the callback is told so |
| `Swarm.Swarm.GetBestConn` | swarm/src/lib.rs:1088-1121 | none exactly when no listed connection is known, else a listed one with the most substreams, the last of equals |
| `Swarm.ListedIffConnected` | swarm/src/lib.rs:1088-1121 | with agreeing indexes a peer has a listed connection if and only if it has one |
| `Swarm.BestHasMostStreams` | swarm/src/lib.rs:1088-1121 | the best connection leads to the peer and no connection to that peer has more substreams |
| `SwarmRuns.StepKeeps` | swarm/src/lib.rs:530-577 | every step of event loop, dialer and connection tasks keeps: agreeing indexes, one closing event per ended connection, one ending event per ended dial, one answer per handled ending, requested peers; each round of a dial is an early error or the end of some run of its jobs |
| `SwarmRuns.RunKeeps` | swarm/src/lib.rs:530-577 | that holds after every run from a new swarm |
| `SwarmRuns.IndexesAlwaysAgree` | swarm/src/lib.rs:1156-1418 | in every run both indexes hold the same connections, each once under its own peer, opened minus closed is their number, and neither "shouldn't happen" branch is visited |
| `SwarmRuns.ClosedIsKnown` | swarm/src/lib.rs:1383-1418 | in every run a closing event that is handled is for a known connection of a listed peer |
| `SwarmRuns.EveryDialIsAnsweredOnce` | swarm/src/dial.rs:431-454 | in every run no `expect` fails; a transaction is answered at most once, exactly once when its ending is handled, and success carries the requested peer, as derived from the runs of the dial rounds |
| `SwarmRuns.DialNamesPeer` | swarm/src/dial.rs:474-641 | a dial whose rounds are runs of jobs and collector succeeds only with the wanted peer |
| `SwarmRuns.BestConnectionInEveryRun` | swarm/src/lib.rs:1088-1121 | in every run `get_best_conn` returns none if and only if there is no connection to the peer, and otherwise one to that peer with the most substreams |
| `SwarmHistory.AnswersTellTheVerdict` | swarm/src/dial.rs:431-454 | in every run the answer of a transaction tells the verdict its dial ended with: the peer it connected to, or that very error |
| `SwarmHistory.CountersTellTheEvents` | swarm/src/lib.rs:1179-1418 | in every run each counter is the number of handled events of its kind: incoming opened, outgoing opened, closed, failed dials |
| `SwarmHistory.SubstreamsTellTheEvents` | swarm/src/lib.rs:1332-1366 | in every run the substreams of a connection are those whose opening was handled since it exists, in order, without those closed since |
| `Varint.ScanEncode` | core/src/multistream/length_delimited.rs:75-86 | scanning an encoded number gives it back and leaves what follows |
| `Varint.RoundTrip` | core/src/multistream/length_delimited.rs:75-86 | so do the 16, 32 and 64 bit decoders |
| `Varint.ScanExtends` | core/src/multistream/length_delimited.rs:75-86 | a scan that stopped does not depend on what follows |
| `Varint.ScanStops` | core/src/multistream/length_delimited.rs:75-86 | a scan ends at the first byte without the continuation bit |
| `LengthDelimited.Receive` | core/src/multistream/length_delimited.rs:88-100 | a received frame is at most 16383 bytes and shortens the stream; end of file consumes it |
| `LengthDelimited.ReceiveFrame` | core/src/multistream/length_delimited.rs:88-115 | a sent frame is received and the rest is left |
| `LengthDelimited.ReceiveExtends` | core/src/multistream/length_delimited.rs:88-100 | what is received does not depend on bytes behind it |
| `LengthDelimited.FramesRoundTrip` | core/src/multistream/length_delimited.rs:71-115 | any sequence of frames followed by any data is received as sent, leaving exactly that data |
| `LengthDelimited.LengthDelimited.ReadUnsignedVarint` | core/src/multistream/length_delimited.rs:75-86 | the byte-by-byte loop reads one varint and stops right behind it |
| `LengthDelimited.LengthDelimited.RecvMessage` | core/src/multistream/length_delimited.rs:88-100 | receives one frame from the stream and nothing more |
| `LengthDelimited.LengthDelimited.SendMessage` | core/src/multistream/length_delimited.rs:102-115 | writes one frame, or refuses a long one and writes nothing |
| `MultistreamProtocol.DecodeEntriesOf` | core/src/multistream/protocol.rs:178-267 | an encoded list decodes name by name |
| `MultistreamProtocol.ListIsUnambiguous` | core/src/multistream/protocol.rs:225-267 | no list, not even of 47 names, is taken for a single name or a fixed message |
| `MultistreamProtocol.ListRoundTrip` | core/src/multistream/protocol.rs:178-267 | lists of at most 1000 names round trip, longer ones are refused |
| `MultistreamProtocol.NameRoundTrip` | core/src/multistream/protocol.rs:178-267 | names under 140 bytes round trip, except that the header's name decodes as the header |
| `MultistreamProtocol.LongestNameIsLost` | core/src/multistream/protocol.rs:131-267 | every 140-byte name is accepted by `try_from` and encoded but never decodes |
| `MultistreamProtocol.RoundTrip` | core/src/multistream/protocol.rs:178-267 | a message decodes to itself if and only if it is transmissible: name under 140 bytes and not the header's, list of at most 1000 |
| `MultistreamProtocol.EncodeList` | core/src/multistream/protocol.rs:178-222 | the encoding loop writes the count and every entry |
| `MultistreamProtocol.EncodeInto` | core/src/multistream/protocol.rs:178-222 | encoding appends the message's bytes |
| `MultistreamProtocol.ReadEntry` | core/src/multistream/protocol.rs:255-263 | one turn of the list loop |
| `MultistreamProtocol.DecodeMessage` | core/src/multistream/protocol.rs:225-267 | the decoder with its loop, error cases included |
| `Negotiator.NewWithProtocols` | core/src/multistream/negotiator.rs:38-58 | exactly the valid names are kept |
| `Negotiator.KeptInPlace` | core/src/multistream/negotiator.rs:38-58 | wherever a candidate stands among others, it is dropped or kept once in its place, so order and repetitions of the valid names stay |
| `Negotiator.Recv` | core/src/multistream/protocol.rs:306-309 | receives one message and leaves the following bytes |
| `Negotiator.Send` | core/src/multistream/protocol.rs:311-315 | sends one message or refuses a long one |
| `Negotiator.SelectOne` | core/src/multistream/negotiator.rs:116-154 | the dialer's loop reads, writes and returns what its automaton does on any incoming bytes |
| `Negotiator.Negotiate` | core/src/multistream/negotiator.rs:66-114 | so does the listener's |
| `NegotiationReplies.DialerSettlesIff` | core/src/multistream/negotiator.rs:116-154 | for any incoming bytes the dialer settles on its j-th name if and only if it reads the header, j refusals and that name, having sent the offers up to it in order and read no further; it reports all its names if and only if it reads the header and a refusal for each |
| `NegotiationReplies.DialerBreaksIff` | core/src/multistream/negotiator.rs:116-154 | it ends with any other error if and only if that is what the first message that is no answer stands for |
| `NegotiationReplies.ListenerSettlesIff` | core/src/multistream/negotiator.rs:66-114 | for any incoming bytes the listener settles on a name if and only if it reads the header, requests for its names or offers of unsupported ones, and an offer of that name, which it supports; it has then sent the header, the answer to each, and the name |
| `NegotiationReplies.WireIsRead` | core/src/multistream/protocol.rs:306-315 | a message that is transmissible and fits a frame is read back as itself, leaving what follows |
| `NegotiationReplies.ListIsRead` | core/src/multistream/negotiator.rs:84-88 | the answer to a request for the names is read as exactly the listener's names |
| `NegotiationReplies.WireBytes` | core/src/multistream/protocol.rs:51-58 | the bytes of the header, of a refusal, of a request for the names, of an offer and of a list of one name |
| `NegotiationRuns.StepKeeps` | core/src/multistream/negotiator.rs:66-154 | every delivery, receipt and later write keeps: who waits for what, and exactly which bytes are between the two |
| `NegotiationRuns.RunKeeps` | core/src/multistream/negotiator.rs:66-154 | that holds after every run, and receipts are bounded |
| `NegotiationRuns.ReceiveDescends` | core/src/multistream/negotiator.rs:66-154 | every receipt brings the negotiation closer to its end |
| `NegotiationRuns.QuiescentIsDone` | core/src/multistream/negotiator.rs:66-154 | when nothing more can happen both sides have returned: no deadlock |
| `NegotiationRuns.CanBeCompleted` | core/src/multistream/negotiator.rs:66-154 | from every reachable state, deliveries and receipts alone lead to one where nothing more can happen |
| `NegotiationRuns.EveryRunEndsAsPromised` | core/src/multistream/negotiator.rs:66-154 | every run reads at most 2n+5 messages; at its end both sides hold the dialer's first name the listener supports with exactly the later bytes unread, or the dialer reports all its names, if and only if the offered names survive the wire |
| `NegotiationRuns.ReturnedNamesAgree` | core/src/multistream/negotiator.rs:66-154 | at no moment does a side hold another name than the first shared one |
| `NegotiationLogs.ReadsThrough` | core/src/multistream/protocol.rs:306-309 | a completed read takes the same message and leaves the same bytes whatever has not arrived yet |
| `NegotiationLogs.RunsAreTheLoops` | core/src/multistream/negotiator.rs:66-154 | in every run, a side that has returned has the outcome, the sent bytes and the unread bytes of its own loop run on everything written to it |
| `NegotiationLogs.LoopsKeepThePromise` | core/src/multistream/negotiator.rs:66-154 | so at the end of any run with a shared name and offers that survive, the two loops on their whole streams return the first shared name and leave exactly the later data unread |
| `BackoffStorage.Heartbeats` | protocols/gossipsub/src/backoff.rs:50-52 | the number of heartbeats is the duration divided by the interval, rounded up |
| `BackoffStorage.BackoffStorage.constructor` | protocols/gossipsub/src/backoff.rs:54-64 | an empty wheel with a slot for every heartbeat of the longest backoff and the slack |
| `BackoffStorage.BackoffStorage.UpdateBackoff` | protocols/gossipsub/src/backoff.rs:68-105 | the nested maps and the wheel do what one entry map does, every pair staying in exactly the slot its entry records |
| `BackoffStorage.BackoffStorage.Heartbeat` | protocols/gossipsub/src/backoff.rs:132-158 | drops the expired pairs of the current slot, keeps the others there, advances the index with wrap-around |
| `BackoffStorage.BackoffStorage.IsBackoffWithSlack` | protocols/gossipsub/src/backoff.rs:114-116 | true exactly while the pair is stored |
| `BackoffStorage.BackoffStorage.GetBackoffTime` | protocols/gossipsub/src/backoff.rs:118-128 | the stored deadline |
| `BackoffStorage.RefinesPlainMap` | protocols/gossipsub/src/backoff.rs:68-158 | the wheel refines a plain map of deadlines: updates take the maximum, heartbeats drop only what is past deadline and slack |
| `BackoffStorage.StaysUntilSlackIsOver` | protocols/gossipsub/src/backoff.rs:68-158 | a pair stays backed off through every run that ends before its deadline plus the slack |
| `BackoffStorage.UpdateBacksOff` | protocols/gossipsub/src/backoff.rs:68-105 | after an update that holds for the requested time, whatever was stored before |
| `BackoffStorage.DeadlineIsLatestSinceInsertion` | protocols/gossipsub/src/backoff.rs:68-158 | a stored deadline is the latest one requested since the pair was last absent |
| `BackoffStorage.LeavesAtItsSlot` | protocols/gossipsub/src/backoff.rs:132-158 | an entry r slots ahead survives r spaced heartbeats and is dropped by the next |
| `BackoffStorage.DroppedAtExactHeartbeat` | protocols/gossipsub/src/backoff.rs:50-158 | with heartbeats an interval apart and no extension, a backoff within `prune_backoff` leaves at heartbeat ceil(time/interval)+slack+1, not before |
| `BackoffStorage.GoneWithinOneTurn` | protocols/gossipsub/src/backoff.rs:132-158 | a longer one leaves within one turn of the wheel after it is over |
| `BackoffStorage.DroppedOnTime` | protocols/gossipsub/src/backoff.rs:50-158 | the same of a new storage after any calls: its wheel is long enough for every backoff within `prune_backoff` |
| `BackoffStorage.GoneOneTurnLater` | protocols/gossipsub/src/backoff.rs:54-158 | and short enough for any expired one to leave within ceil(prune_backoff/interval)+slack+1 heartbeats |
| `TimeCache.AliveHead` | protocols/gossipsub/src/time_cache.rs:137-149 | when the head of the list is alive so is every entry |
| `TimeCache.DropHead` | protocols/gossipsub/src/time_cache.rs:137-149 | dropping an expired head, stale or not, keeps what is alive and its listing |
| `TimeCache.TimeCache.RemoveExpiredKeys` | protocols/gossipsub/src/time_cache.rs:137-149 | the lazy pop-front loop is filtering the map by expiry |
| `TimeCache.TimeCache.Entry` | protocols/gossipsub/src/time_cache.rs:151-166 | an entry is occupied exactly when the key is alive |
| `TimeCache.TimeCache.Insert` | protocols/gossipsub/src/time_cache.rs:67-105 | inserting sets the value with a new expiry and keeps the list sorted and covering |
| `TimeCache.TimeCache.Replace` | protocols/gossipsub/src/time_cache.rs:62-65 | replacing the value keeps its expiry |
| `TimeCache.TimeCache.OrInsert` | protocols/gossipsub/src/time_cache.rs:117-122 | inserts exactly when the key is not alive |
| `TimeCache.DuplicateCache.Insert` | protocols/gossipsub/src/time_cache.rs:197-204 | accepts exactly keys that are not alive |
| `TimeCache.DuplicateCache.InsertAll` | protocols/gossipsub/src/time_cache.rs:197-204 | over a whole run at times that do not go back, each answer is true if and only if the key was not accepted less than `ttl` before |
| `TimeCache.RefusedIffRecentlyAccepted` | protocols/gossipsub/src/time_cache.rs:137-204 | over any run with a monotone clock, an insert is refused if and only if the key was accepted less than `ttl` before |
| `TimeCache.AcceptedInsertsAreApart` | protocols/gossipsub/src/time_cache.rs:137-204 | two accepted inserts of one key are at least `ttl` apart |
| `AddressRegistry.SortSorts` | swarm/src/registry.rs:184-193 | the sort is a stable permutation into non-increasing scores |
| `AddressRegistry.MoveToPlace` | swarm/src/registry.rs:186-191 | the inner loop inserts one record into the sorted prefix |
| `AddressRegistry.Isort` | swarm/src/registry.rs:184-193 | the in-place sort of the slice is that sort |
| `AddressRegistry.Addresses.constructor` | swarm/src/registry.rs:67-73 | an empty registry under any positive limit |
| `AddressRegistry.Addresses.Add` | swarm/src/registry.rs:79-110 | the code with its searches, in-place sorts and pop loop does what `AddTo` does, in any state and under any limit |
| `AddressRegistry.MinusAgrees` | swarm/src/registry.rs:80-91 | taking the oldest report back leaves every score at its number of reports, in order |
| `AddressRegistry.PopZerosAgrees` | swarm/src/registry.rs:94-96 | popping from the end removes exactly the records without reports |
| `AddressRegistry.PlusAgrees` | swarm/src/registry.rs:98-109 | the new report keeps the agreement if and only if its address then has at most 2^32-1 reports |
| `AddressRegistry.AddAgrees` | swarm/src/registry.rs:79-110 | an add keeps the last `limit` reports, and the agreement of records and reports if and only if the added address is among them at most 2^32-1 times |
| `AddressRegistry.Addresses.AddAll` | swarm/src/registry.rs:79-110 | so does any sequence of adds |
| `AddressRegistry.ReportsAreRecent` | swarm/src/registry.rs:79-110 | after any sequence of adds the reports are its last `limit` elements |
| `AddressRegistry.AgreedThroughoutIffCountable` | swarm/src/registry.rs:79-110 | for every sequence and limit: the registry agrees with the last `limit` reports after every prefix if and only if no window holds an added address more than 2^32-1 times |
| `AddressRegistry.SmallLimitIsCountable` | swarm/src/registry.rs:79-110 | under a limit of at most 2^32-1 that is every sequence |
| `AddressRegistry.OneReportTooMany` | swarm/src/registry.rs:102-102 | 2^32 reports of one address, which no 32-bit score agrees with |
| `AddressRegistry.RegistryIsExact` | swarm/src/registry.rs:79-120 | an agreeing registry lists exactly the reported addresses, each once, each with its number of reports |
| `AddressRegistry.ScoresFit` | swarm/src/registry.rs:79-110 | for every sequence and limit no score leaves its 32 bits |
| `AddressRegistry.FullScoreStays` | swarm/src/registry.rs:102-102 | one more report of an address with a full score leaves the records as they are |
| `PnetStream.FlushBuf` | core/src/pnet/crypt_writer.rs:71-108 | a drain is done exactly when the buffer is empty, and never moves the cipher |
| `PnetStream.FlushConserves` | core/src/pnet/crypt_writer.rs:71-108 | delivered and buffered bytes together are the same before and after a drain, and delivery only grows |
| `PnetStream.DrainIsDecidedByAnswers` | core/src/pnet/crypt_writer.rs:71-108 | a drain fails if and only if an error or a zero answer comes while all earlier answers are interrupts or room, for fewer bytes than are buffered; it succeeds if and only if such answers make room for all, and it uses up just those |
| `PnetStream.FlushIsDecidedByAnswers` | core/src/pnet/crypt_writer.rs:132-136 | a flush succeeds if and only if the socket makes room for all that is buffered and its next answer is no error; everything is then on the wire; when it fails likewise |
| `PnetStream.CryptWriter.constructor` | core/src/pnet/crypt_writer.rs:50-56 | an empty buffer and a cipher at offset 0 |
| `PnetStream.CryptWriter.PollFlushBuf` | core/src/pnet/crypt_writer.rs:71-108 | the write loop with its draining is the drain, for short writes, zero writes, interrupts, pending and errors |
| `PnetStream.CryptWriter.PollWrite` | core/src/pnet/crypt_writer.rs:111-130 | drain, take, encipher in the buffer, drain: once the first drain is done, the wire and the buffer grow by exactly the data, each byte XORed with the keystream byte of its own offset |
| `PnetStream.CryptWriter.PollFlush` | core/src/pnet/crypt_writer.rs:132-136 | drain, then flush the socket |
| `PnetStream.StepKeeps` | core/src/pnet/crypt_writer.rs:111-143 | every call keeps: what is on the wire and in the buffer is the appended bytes, each XORed with the keystream byte of its offset |
| `PnetStream.EveryByteEncipheredOnce` | core/src/pnet/crypt_writer.rs:71-143 | for every run of calls and every script of the socket, each appended byte is enciphered once at its own offset |
| `PnetStream.WriteEnciphers` | core/src/pnet/crypt_writer.rs:111-130 | a write appends to wire and buffer the data XORed byte by byte with the keystream from the writer's offset on |
| `PnetStream.WireIsXorOfPlaintext` | core/src/pnet/crypt_writer.rs:111-143 | over every run, byte i on the wire is the i-th appended byte XORed with byte i of the keystream |
| `PnetStream.SecondDrainFails` | core/src/pnet/crypt_writer.rs:117-129 | a write that has taken its bytes fails exactly when the answers after its first drain break the second |
| `PnetStream.AcknowledgedIffNoneTakenButFailed` | core/src/pnet/crypt_writer.rs:111-130 | over every run, the acknowledged bytes are the appended ones if and only if no write meets this: the socket answers until the buffer is drained, and then with an error, or with no room at all, before it has made room for all the data |
| `PnetStream.FailedWriteStaysOnWire` | core/src/pnet/crypt_writer.rs:125-129 | a write that fails and whose byte is still to be sent |
| `PnetStream.PnetReader.PollRead` | core/src/pnet/mod.rs:293-302 | the bytes that arrived are deciphered in place, each XORed with the keystream byte at the reader's offset; the rest of the buffer is untouched |
| `PnetStream.ReadsDecipher` | core/src/pnet/mod.rs:293-302 | for every sequence of read sizes the output deciphers a prefix of what arrived |
| `PnetStream.ReadsXor` | core/src/pnet/mod.rs:293-302 | for every sequence of reads, byte i of the output is the i-th arrived byte XORed with byte i of the keystream |
| `PnetStream.PeerReadsAPrefix` | core/src/pnet/mod.rs:254-302 | after the nonce exchange the peer's reads yield a prefix of the appended plaintext, all of it once everything is drained, delivered and read |
| `MultiaddrProtocol.BigEndianRoundTrip` | multiaddr/src/protocol.rs:384-488 | fixed-width integers round trip; which byte is which is `MultiaddrBytes.BigEndianByte` |
| `MultiaddrProtocol.SegmentsRoundTrip` | multiaddr/src/protocol.rs:302-314 | IPv6 segments round trip |
| `MultiaddrProtocol.BuildBody` | multiaddr/src/protocol.rs:261-488 | for each of the 26 components, the payload it writes builds it again |
| `MultiaddrProtocol.RoundTrip` | multiaddr/src/protocol.rs:261-488 | decoding an encoded component followed by anything returns the component and exactly what follows |
| `MultiaddrProtocol.SelfDelimiting` | multiaddr/src/protocol.rs:261-380 | for any accepted bytes, what decoding consumed decodes the same whatever follows it |
| `MultiaddrProtocol.ReadSegments` | multiaddr/src/protocol.rs:305-309 | the segment loop reads eight 16-bit numbers |
| `MultiaddrProtocol.WriteSegments` | multiaddr/src/protocol.rs:393-395 | the segment loop appends them |
| `MultiaddrProtocol.WriteBytes` | multiaddr/src/protocol.rs:384-488 | every arm appends exactly the component's bytes |
| `MultiaddrBytes.BigEndianByte` | multiaddr/src/protocol.rs:384-488 | byte i of a k-byte integer is its digit of weight 256 to the power k-1-i |
| `MultiaddrBytes.TwoBytes` | multiaddr/src/protocol.rs:397-412 | a port is its high byte and then its low byte |
| `MultiaddrBytes.SegmentBytesAt` | multiaddr/src/protocol.rs:393-395 | so is each segment of an IPv6 address, in order |
| `MultiaddrBytes.VarintByte` | core/src/multistream/length_delimited.rs:75-86 | byte i of a varint is the digit of weight 128 to the power i, with the high bit set on all but the last |
| `MultiaddrBytes.TagOfCode` | multiaddr/src/protocol.rs:18-45 | the tag bytes of each of the 26 components |
| `MultiaddrBytes.BytesOfComponent` | multiaddr/src/protocol.rs:384-488 | each of the 26 components is its tag and then nothing, its integer, its address, or its length and bytes |
| `MultiaddrBytes.BytesOfMemory` | multiaddr/src/protocol.rs:482-485 | a memory id is eight bytes, highest first |
| `MultiaddrBytes.BytesOfAddresses` | multiaddr/tests/lib.rs:161-276 | whole addresses have the bytes that the tests of the crate list |
| `MultiaddrBytes.BytesOfPeer` | multiaddr/tests/lib.rs:161-276 | so has every peer id with a SHA2-256 hash |
| `Utf8.AcceptedIffEncoding` | multiaddr/src/protocol.rs:276-376 | the text of a component is accepted if and only if its bytes are the UTF-8 form of some sequence of Unicode scalar values |
| `MultiaddrReencoding.EncodedIffMinimal` | multiaddr/src/protocol.rs:261-268 | a number is encoded as the varint that was read exactly when that is the shortest form of that number |
| `MultiaddrReencoding.HashReencodes` | multiaddr/src/protocol.rs:334-338 | a multihash encodes to the bytes it was read from if and only if both its varints are in shortest form |
| `MultiaddrReencoding.Rebuilt` | multiaddr/src/protocol.rs:261-488 | a decoded component keeps its tag and, unless it is a multihash, its payload, except for a path tag with the path "/" |
| `MultiaddrReencoding.ReencodesIffCanonical` | multiaddr/src/protocol.rs:261-488 | for all accepted bytes, encoding the decoded component gives them back if and only if tag, length and multihash varints are in shortest form and lose no bits, and the tag is not a path tag with the path "/" |
| `MultiaddrReencoding.AddressReencodesIffCanonical` | multiaddr/src/lib.rs:298-348 | a valid address is what collecting its components gives if and only if that holds of each of them |
| `MultiaddrReencoding.ReencodingMayShorten` | multiaddr/src/protocol.rs:366-371 | accepted bytes that encode differently |
| `Multiaddr.CollectThenIterate` | multiaddr/src/lib.rs:298-348 | collecting any component list and walking the bytes returns the list |
| `Multiaddr.ComponentsAppend` | multiaddr/src/lib.rs:335-348 | appending bytes never changes the components before them; the whole is valid exactly when the appended part is |
| `Multiaddr.LastStartSplits` | multiaddr/src/lib.rs:101-116 | cutting before the last component leaves the other components, also in accepted bytes |
| `Multiaddr.PopUndoesPush` | multiaddr/src/lib.rs:85-116 | push then pop is the identity on the bytes, for every valid address |
| `Multiaddr.Multiaddr.Push` | multiaddr/src/lib.rs:85-89 | appends one component and keeps the address valid |
| `Multiaddr.Multiaddr.Pop` | multiaddr/src/lib.rs:101-116 | no decoding on the way fails; the last component is returned and removed |
| `Multiaddr.Multiaddr.Replace` | multiaddr/src/lib.rs:228-254 | none exactly when the index is out of range or the function declines, else only component `at` differs |
| `Multiaddr.Iter.Next` | multiaddr/src/lib.rs:338-347 | no decoding fails on a valid address; yields its components in order |
| `Multiaddr.FromIterator` | multiaddr/src/lib.rs:298-309 | the collected bytes have exactly these components |
| `Multiaddr.TryFrom` | multiaddr/src/lib.rs:379-391 | accepts exactly the valid byte strings, unchanged |
| `MessageCache.MessageCache.constructor` | protocols/gossipsub/src/mcache.rs:61-68 | an empty window of any given capacity and gossip length |
| `MessageCache.MessageCache.PutMessage` | protocols/gossipsub/src/mcache.rs:73-86 | stores the message; only a new id gets an entry |
| `MessageCache.MessageCache.GetWithIwantCounts` | protocols/gossipsub/src/mcache.rs:97-110 | a validated message with the peer's count raised by one |
| `MessageCache.MessageCache.ValidateMessage` | protocols/gossipsub/src/mcache.rs:113-118 | marks a cached message and changes nothing else; over runs, `MessageCache.CachedAsLastPut` |
| `MessageCache.MessageCache.ShiftHistory` | protocols/gossipsub/src/mcache.rs:149-169 | the loop removes exactly the ids of the last slot from both maps and the window moves on |
| `MessageCache.MessageCache.RemoveMessage` | protocols/gossipsub/src/mcache.rs:172-178 | removes from both maps, keeps the window |
| `MessageCache.StepKeeps` | protocols/gossipsub/src/mcache.rs:73-178 | every call, removal included, keeps: each cached id is in the window, only cached ids have counts |
| `MessageCache.RunKeeps` | protocols/gossipsub/src/mcache.rs:73-178 | that holds after every run |
| `MessageCache.EveryRunIsValid` | protocols/gossipsub/src/mcache.rs:61-178 | it holds after every run of a new cache |
| `MessageCache.CachedAsLastPut` | protocols/gossipsub/src/mcache.rs:73-118 | in every run a cached message has the data and topic of the last put of its id, and is validated if and only if it was put so or validated since |
| `MessageCache.CountIsAnsweredRequests` | protocols/gossipsub/src/mcache.rs:97-110 | in every run a peer's count for an id is the number of its requests answered since the id was last absent |
| `MessageCache.StepAges` | protocols/gossipsub/src/mcache.rs:73-178 | a call leaves the oldest mention where it is, a shift moves it on or drops the message with it |
| `MessageCache.CachedUntilOldestLeaves` | protocols/gossipsub/src/mcache.rs:149-169 | a cached id is cached after a run if and only if its oldest mention has not been shifted out |
| `MessageCache.GoneWithinCapacity` | protocols/gossipsub/src/mcache.rs:149-178 | whatever is called, removals of the id included, an id that is not put while absent is gone after `history_capacity` shifts |
| `MessageCache.GossipedOncePerEntry` | protocols/gossipsub/src/mcache.rs:121-145 | a validated id is gossiped under a topic once for each of its entries with that topic in the gossip window, else not at all |
| `MessageCache.MentionedOncePerPut` | protocols/gossipsub/src/mcache.rs:73-178 | in every run of a new cache, the youngest g slots mention an entry once for each put of it made while the id was absent and followed by fewer than g shifts |
| `MessageCache.GossipedOncePerPut` | protocols/gossipsub/src/mcache.rs:73-178 | so in every run, removals included, a validated id is gossiped under a topic exactly as often as it was put with that topic while absent, with fewer shifts since than the gossip length |
| `MessageCache.RunKeepsOnce` | protocols/gossipsub/src/mcache.rs:73-169 | without removals the window mentions each cached id once and nothing else |
| `MessageCache.NewMessageWindow` | protocols/gossipsub/src/mcache.rs:73-169 | without removals, a new message is cached after j shifts iff j < capacity and, while validated, gossiped under its first topic iff j < gossip, once |
| `MessageCache.RemovedThenPutIsGossipedTwice` | protocols/gossipsub/src/mcache.rs:172-178 | with a removal an id can be gossiped twice |
| `MessageCache.RemovedThenPutLeavesEarly` | protocols/gossipsub/src/mcache.rs:172-178 | and can leave early |
| `SubscriptionFilter.Deduplicate` | protocols/gossipsub/src/subscription_filter.rs:39-52 | the toggling loop is the left fold over the request |
| `SubscriptionFilter.ForgottenIffCancelsOut` | protocols/gossipsub/src/subscription_filter.rs:42-51 | toggling forgets a topic exactly when its actions are runs each ended by one opposite action |
| `SubscriptionFilter.KeptIsLastUnlessCancelled` | protocols/gossipsub/src/subscription_filter.rs:39-52 | at most one entry per topic, present exactly when its actions do not cancel out, always the last action |
| `SubscriptionFilter.KeptMeansRequestIff` | protocols/gossipsub/src/subscription_filter.rs:34-57 | applying the kept entries equals applying the request in order if and only if every topic that cancels out already had the status its last action asks for |
| `SubscriptionFilter.KeptIffChanged` | protocols/gossipsub/src/subscription_filter.rs:34-57 | without redundant actions a topic is kept exactly when the request changes its status |
| `SubscriptionFilter.KeptMeansRequest` | protocols/gossipsub/src/subscription_filter.rs:34-57 | without redundant actions applying the kept entries equals applying the request |
| `SubscriptionFilter.RedundantRequestIsLost` | protocols/gossipsub/src/subscription_filter.rs:42-47 | a redundant request whose unsubscription is lost |
| `SubscriptionFilter.CountChanges` | protocols/gossipsub/src/subscription_filter.rs:135-151 | the loop counts the gained and the dropped topics |
| `SubscriptionFilter.FilterIncomingSubscriptions` | protocols/gossipsub/src/subscription_filter.rs:34-158 | the deduplicating and bounding code, for every nesting of filters |
| `SubscriptionFilter.FilterSetIsCanSubscribe` | protocols/gossipsub/src/subscription_filter.rs:61-75 | filtering a set, combinations included, keeps exactly the entries whose topic is allowed |
| `SubscriptionFilter.AcceptedEntries` | protocols/gossipsub/src/subscription_filter.rs:34-187 | what any filter accepts is what its topic test lets through of the kept entries |
| `SubscriptionFilter.PlainFiltersAccept` | protocols/gossipsub/src/subscription_filter.rs:61-200 | of the kept entries, the open filter accepts all, a whitelist exactly those of its topics, a callback filter those it is true of |
| `SubscriptionFilter.CombinedAcceptsBoth` | protocols/gossipsub/src/subscription_filter.rs:160-187 | a combination accepts exactly what both of its parts let through |
| `SubscriptionFilter.TopicCount` | protocols/gossipsub/src/subscription_filter.rs:135-155 | the resulting topics are current plus gained minus dropped |
| `SubscriptionFilter.MaxCountVerdict` | protocols/gossipsub/src/subscription_filter.rs:121-158 | a bounded filter accepts if and only if the request is short, the inner filter accepts and the resulting topics are within the bound; which error otherwise |
| `SubscriptionFilter.CombinedIgnoresBounds` | protocols/gossipsub/src/subscription_filter.rs:176-186 | inside a combination a bounded filter acts as its inner filter |

## Left out

- Transports, sockets, timers, task spawning, logging, command line, HTTP servers and metrics exporters: I/O and plumbing. Their answers are parameters.
- Cryptography: keys, signatures and the inside of XSalsa20. The cipher is a keystream given by key and nonce.
- The unsigned-varint, multihash and futures crates are not part of the repository. Varints are modelled as little-endian groups of seven bits with the crate's length limits, bits beyond the width dropped, without a rejection of non-minimal forms; a multihash as code, size of at most 64 and digest.
- Multiaddr text form.
- Swarm commands and events other than dialing, connections and streams; routing, identify, ping and the peer store.
- The concurrent dial limit as a bound and the limiter's `Snapshot` values: their loads are not atomic with what follows them, so the code does not keep them.
- Floodsub, Kademlia, mDNS, gossipsub's mesh and scoring, RPC handling: not modelled.
- `MetricMap` and `TaskLimiter` are machines of steps over a value, not classes: the source's atomics and channels are shared between threads, which a class with one owner does not capture. Epoch-based reclamation appears only as "a replaced map keeps its identity".
- TaskLimiter.ReleaseNeverLosesToken: the token channel is modelled as refusing at `parallelism` tokens, stricter than the channel, which has one more slot per sender.
- PnetStream.CryptWriter.PollFlush: `poll_close` (core/src/pnet/crypt_writer.rs:138-142) is the same drain followed by the socket's close, and has no member of its own.
- PnetStream.CryptWriter.PollFlushBuf: a script is finite and answers Pending at its end, so a socket that answers Interrupted for ever is not modelled.
- BackoffStorage.Heartbeats: durations are whole numbers of one unit, and sums do not overflow.
- MessageCache.MessageCache.GetWithIwantCounts: counts are unbounded, the source's are 32 bits wide.
- MessageCache.MessageCache.ShiftHistory: with capacity 0, which the configuration allows (protocols/gossipsub/src/config.rs:725-728), the source panics here and in `put`; the panic is a precondition of the two methods.
- SubscriptionFilter.FilterIncomingSubscriptions: a callback filter is a function of the topic, without state of its own.
- Negotiator.SelectOne: protocol values are represented by their names' bytes.
- Swarm.Swarm.GetBestConn: substream counts are those the swarm has been told of; opens and closes arrive on different channels.
