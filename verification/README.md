# A verified model of kprobe's inference, replay, enrichment and console logic

kprobe records kernel events, links them into a causal graph, stores and replays them, and shows
them in a console. This project models the parts of it whose correctness is not visible in any
single function, and proves what they promise over every input, every run and every interleaving.
`dafny verify dfyconfig.toml` checks the whole project.

| file | what it models |
|---|---|
| `KernelEvents.dfy` | the event record shared by all components |
| `CausalRules.dfy` | cause tables, window edges, cross-process edges, interval latency |
| `WindowLinks.dfy` | the thread pass and the process pass, against a declarative description of the linked pairs |
| `InferenceEngine.dfy` | the engine object: windows, retained histories, edges of a window |
| `CausalOrder.dfy` | why the graph of a whole run has no cycle, and why flush boundaries do not matter |
| `ReplayConfig.dfy` | replay settings, failure injection, the delays of a playback |
| `ReplaySession.dfy` | the replay session and its playback goroutines as a transition system, and the session object |
| `Enricher.dfy` | pairing, trace lookup, eviction and the 32 shards |
| `EnricherSharding.dfy` | the sharded enricher against an unsharded one, over every run |
| `EnricherLedger.dfy` | the books of a run with eviction: what became of each event, and why |
| `EnricherConservation.dfy` | conservation of events counted from the books, and which keys are in flight |
| `SpanRetention.dfy` | which spans of a process are kept |
| `ShardedLedger.dfy` | all of this carried to the 32 shards |
| `BatchStore.dfy` | the ClickHouse batcher as a concurrent step system, and the store object |
| `ConsoleGraph.dfy` | edge inference in the console, with its early break |
| `GraphSanitizer.dfy` | graph sanitising and path highlighting |
| `FallbackLayout.dfy` | the fallback grid |
| `MessageList.dfy` | the console's deduplicating message list |
| `Sequences.dfy`, `Paths.dfy`, `StableSort.dfy`, `OrderedMap.dfy` | facts about sequences, walks in a graph, a stable sort and insertion-ordered maps |

## How the parts fit

**Inference.** The loops of a window are methods that are proved to produce `PassLinks`, whatever
order the group map is iterated in; `PassLinksExact` shows that this is the declarative set of
links. `CrossEdgesExact` does the same for the cross-process edges, by position in everything
processed so far. What makes an edge is then said on the fields of the two events. The engine object carries the windows it has processed and what it emitted as a run in its
invariant, so that the theorems about runs (`RunAcyclic`, `ReachKeepsLayer`, `RetainedIsNewest`)
apply to every engine, however it was driven (`EngineAcyclic`). Edges do not all point forward in
time (`BlockEdgeAgainstTime`); what every edge respects is the order by layer, then timestamp, then
reversed arrival.

**Replay.** What is delivered is the event at the cursor of the list in force, and a live playback
that nobody interferes with delivers all of them (`EveryClaimDelivers`, `PlaysToEnd`). Control calls, the steps of any number of playbacks, and cancellation from outside are
actions of one transition system. `Playing` does not imply a running playback, and `Completed` does
not imply that the cursor is at the end, because Reset is allowed afterwards; neither is claimed.
Two promises need a condition, which is proved exact over runs. The cursor stays inside the events
throughout a run exactly when every replacement list reaches the cursor, and completion is set at
the end exactly when the last setting of cursor or list left the cursor inside; replacing by an
injected copy, as the API does, always meets this. The schedule is kept exactly when every delay,
the scaled gap plus the extra latency, fits a signed 64-bit number: otherwise the sum of two int64
values wraps and the playback falls behind by at least 2^63 nanoseconds.

**Enricher.** The sharded enricher equals one set of tables in which a keyed block event sees spans
only if its block key hashes to the shard of its process; so in any run every visible output is the
unsharded one, and every invisible one has the trace fields it was given with. The ledger keeps,
next to the tables, the fate of every event and the reason for it: a pair is made of a half and the
next event of its key, an overwritten event is a block issue that names the next event of its key,
another issue, a completion passes through only when no issue of its key waits, and an evicted event
names an eviction of the run that was due, found it in its table and found it stale, before anything
else of its key arrived. Its balance survives every step, with the trace lookup left arbitrary. With
eviction, shard by shard and with anything in between, each shard is an enricher of its own on its
share of the steps. The spans held for a process are its newest throughout a run exactly when every
due eviction finds its expired spans first; spans are stamped before their shard is locked, so
concurrent callers can break this, and a run on which it fails is given.

The laws of pairing speak of the fields of events (cgroup, process and thread; sector, size and
operation), not of the keys the tables use.

**Console.** A hydration is described on the actions of a run: it lists the history followed by the
live texts still waiting (`HydrationOfRun`). The edge key is a concatenation, so two different pairs can share one. Sanitising keeps
exactly the first edge of each valid pair if and only if no two valid pairs of the input do.

## Model

| member | source | states |
|---|---|---|
| CausalRules.PairCauseMeaning | engine/inference/engine.go:299-331 | the cause table read backwards: which two event types each cause name stands for |
| CausalRules.WindowEdgeMeaning | engine/inference/engine.go:193-214 | a window edge exists exactly for events at most 50 ms apart whose types its cause explains; it runs forward in time, on a tie from the later arrival, carries the time difference and the source's transaction and service |
| CausalRules.CrossProcEdgeMeaning | engine/inference/engine.go:216-254 | an edge from a scheduler switch or page fault exists exactly for another process, strictly later, within 50 ms; a switch must name the process and have run on its CPU |
| CausalRules.BlockEdgeMeaning | engine/inference/engine.go:216-297 | a block I/O event makes an edge exactly to a read or write whose interval comes within 50 ms of its own, in any process; the latency is the start distance on overlap and the gap otherwise, the other fields are the block event's |
| CausalRules.CrossEdgeMeaning | engine/inference/engine.go:216-297 | both cases together, on the fields of the two events |
| CausalRules.WithinGapIsEndpointDistance | engine/inference/engine.go:256-297 | two closed intervals come within a gap of each other exactly when neither starts more than the gap after the other ends |
| CausalRules.IntervalLatencyMeaning | engine/inference/engine.go:256-297 | without wrap-around: accepted exactly when the intervals are at most 50 ms apart, symmetric, the start difference on overlap and the exact gap otherwise; the default case is not needed |
| CausalRules.AcceptanceMetIff | engine/inference/engine.go:256-297 | for all events, wrapped or not: the 50 ms rule is met exactly when no wrapped end creates a false gap that is judged differently from the true distance |
| CausalRules.WrappedIntervalIsRefused | engine/inference/engine.go:291-297 | with wrap-around two events that start together can be refused |
| WindowLinks.GroupIndices | engine/inference/engine.go:97-103 | the grouping loop builds, for every key that occurs and no other, its positions in arrival order |
| WindowLinks.PositionDistance | engine/inference/engine.go:109-115 | the distance of two positions in a group is the number of group members between the two events |
| WindowLinks.LinkBack | engine/inference/engine.go:109-119 | the look-back loop emits the edges of the at most ten previous members, nearest first |
| WindowLinks.LinkGroup | engine/inference/engine.go:106-121 | the edges of one group |
| WindowLinks.LinkGroups | engine/inference/engine.go:105-142 | one pass emits the links of all groups in the order in which the map happens to be iterated |
| WindowLinks.GroupLinksSound | engine/inference/engine.go:105-142 | every link a group yields is a described one |
| WindowLinks.GroupLinksComplete | engine/inference/engine.go:105-142 | every described link is yielded by the group of its events |
| WindowLinks.PassLinksNoDup | engine/inference/engine.go:105-142 | no link is made twice |
| WindowLinks.PassLinksExact | engine/inference/engine.go:97-142 | for every iteration order a pass makes exactly the described links, each once: shared TID (or shared PID and different TIDs), at most ten members in between, an edge by the rules |
| WindowLinks.PassEdgesDeterministic | engine/inference/engine.go:105-142 | two iteration orders give the same multiset of edges |
| WindowLinks.PassLinksBounded | engine/inference/engine.go:105-142 | a pass makes at most ten links per event |
| WindowLinks.WindowLinksBounded | engine/inference/engine.go:97-142 | over both passes no pair of events gets two edges, and there are at most 20 edges per event |
| InferenceEngine.CollectEdgesInto | engine/inference/engine.go:150-159 | the edges from a list of earlier events into one event |
| InferenceEngine.CrossEdgesExact | engine/inference/engine.go:146-191 | the cross-process edges of a window are exactly those of the pairs of a remembered event (fewer than 5000 later block I/O events, or 200 later switches and faults) and a read or write of the window, each pair once |
| InferenceEngine.CrossLinkMeaning | engine/inference/engine.go:146-160 | unless an end wraps, such a pair makes an edge exactly by the conditions on its fields |
| InferenceEngine.AssignedIds | engine/inference/engine.go:85-89 | missing ids are filled in, given ones stay, nothing else changes, and all ids are distinct if the given ones and the supply are |
| InferenceEngine.RetainedHistory | engine/inference/engine.go:171-191 | trimming after a window keeps what one cut of the whole history keeps |
| InferenceEngine.Engine.constructor | engine/inference/engine.go:31-41 | a new engine holds nothing and has run nothing |
| InferenceEngine.Engine.Receive | engine/inference/engine.go:58-59 | a received event is appended to the window |
| InferenceEngine.Engine.Tick | engine/inference/engine.go:60-63 | a tick flushes a non-empty window and does nothing otherwise |
| InferenceEngine.Engine.Flush | engine/inference/engine.go:72-82 | a flush empties the window and extends the run by it and its edges |
| InferenceEngine.Engine.ProcessWindow | engine/inference/engine.go:84-169 | the window's events get ids, and the run is extended by the edges the window may emit: both passes exactly, then the cross-process links exactly |
| InferenceEngine.Engine.RememberCrossProcCandidates | engine/inference/engine.go:171-184 | the retained windows are the newest 200 and 5000 candidates of the whole history |
| InferenceEngine.Engine.CollectCrossEdges | engine/inference/engine.go:146-160 | the nested loops emit the cross-process edges of the retained windows |
| CausalOrder.CauseKeepsLayer | engine/inference/engine.go:299-331 | no cause leads from syscalls and receives back to the layer below |
| CausalOrder.WindowOrdered | engine/inference/engine.go:84-169 | every edge of a window strictly increases layer, timestamp, reversed arrival |
| CausalOrder.RunOrdered | engine/inference/engine.go:84-358 | so does every edge of every run |
| CausalOrder.RunAcyclic | engine/inference/engine.go:84-358 | with distinct event ids the graph of all edges ever emitted has no cycle |
| CausalOrder.EngineAcyclic | engine/inference/engine.go:51-169 | this holds of whatever an engine object has emitted |
| CausalOrder.ReachKeepsLayer | engine/inference/engine.go:299-358 | along a path the layer never drops |
| CausalOrder.PathCrossesOnce | engine/inference/engine.go:299-358 | along any path at most one step leads from the lower layer to the upper one |
| CausalOrder.SharedIdMakesCycle | engine/inference/engine.go:206-213 | distinct ids are needed: two events of a thread that share an id make a cycle |
| CausalOrder.BlockEdgeAgainstTime | engine/inference/engine.go:256-273 | a block I/O event can cause a system call that started before it |
| CausalOrder.RetainedIsNewest | engine/inference/engine.go:144-191 | after any windows the retained histories are the last min(200, total) and min(5000, total) candidates of all events |
| CausalOrder.RetainedIgnoresBoundaries | engine/inference/engine.go:144-191 | where the flushes fell makes no difference |
| ReplayConfig.ValidConfigHasPositiveFactors | replay/config/config.go:15-40 | settings are accepted exactly with an id and no negative factor, and then the factors in force are positive |
| ReplayConfig.ZeroMeansOne | replay/config/config.go:28-40 | a zero multiplier or speed gives the delays of one |
| ReplayConfig.DelayMeaning | replay/session/session.go:240-241 | for positive factors the delay is the gap times the multiplier over the speed, truncated, plus the extra latency, if that fits int64 |
| ReplayConfig.GapMeaning | replay/session/session.go:233-238 | the gap between two events is their distance forwards and nothing backwards |
| ReplayConfig.ScheduleMeaning | replay/session/session.go:232-251 | the bounds of the total wait on the fields of settings and events: the recorded span times the multiplier over the speed |
| ReplayConfig.FailureTargetMeaning | replay/injector/injector.go:67-82 | which name stands for which event type, and that any other is refused |
| ReplayConfig.Apply | replay/injector/injector.go:22-82 | injection fails exactly on an unknown target for a non-empty list; otherwise length, order, times and identity stay, and durations and return values are as configured, with wrap-around |
| ReplayConfig.PlayThrough | replay/session/session.go:211-260 | an uninterrupted playback delivers every index once, in order, and waits the sum of the positive delays, each computed with the wrap of the int64 sum |
| ReplayConfig.FittingDelay | replay/session/session.go:240-241 | a delay that fits int64 is the truncated scaled gap plus the extra latency |
| ReplayConfig.MisfitDelay | replay/session/session.go:240-243 | any other delay waits at least 2^63 nanoseconds too little |
| ReplayConfig.ScheduleBounds | replay/session/session.go:232-251 | for time-sorted events whose delays all fit int64, the total wait, less the extra latency per gap, is at most the scaled span and less than one nanosecond per gap below it |
| ReplayConfig.OneMisfitIsEnough | replay/session/session.go:232-251 | one delay that does not fit puts the whole playback behind by at least 2^63 nanoseconds |
| ReplayConfig.ScheduleKeptIff | replay/session/session.go:232-251 | those bounds hold exactly when every delay fits int64 |
| ReplayConfig.WrappedSumStartsNoTimer | replay/session/session.go:241-243 | with the largest int64 as extra latency a gap of one nanosecond gives the delay -2^63, and no timer starts |
| ReplayConfig.ScheduleExact | replay/session/session.go:232-251 | at rate one the total wait is exactly the recorded span plus the extra latency per gap if and only if every gap plus the extra latency fits int64 |
| ReplayConfig.SlowRateFallsBehind | replay/session/session.go:232-251 | at a rate below one and a positive span it is strictly less |
| ReplayConfig.FastRateGetsAhead | replay/session/session.go:232-251 | at a rate above one it is strictly more, once every delay fits and the stretch is at least one nanosecond per gap |
| ReplayConfig.InjectionKeepsSchedule | replay/injector/injector.go:22-65 | injection changes no delay |
| ReplaySession.ClaimTakes | replay/session/session.go:216-226 | a claim takes the event at the cursor of the list in force and hands it to its playback |
| ReplaySession.EveryClaimDelivers | replay/session/session.go:216-230 | in every run every delivered event is the one at its index of the list in force when it was claimed |
| ReplaySession.TimerMeansDelay | replay/session/session.go:232-251 | after an event a timer runs exactly when the event has a delay and it is positive |
| ReplaySession.PlayDelivers | replay/session/session.go:143-226 | playing from an idle session delivers the event at its cursor first |
| ReplaySession.SeekThenPlay | replay/session/session.go:186-226 | after an accepted Seek the event sought is delivered next, after a Reset the first; refused calls change nothing |
| ReplaySession.PauseAndStopKeepPlace | replay/session/session.go:164-184 | pausing and stopping leave nothing live, keep the place, and lead to the paused and the ready state |
| ReplaySession.CancelledIsNotLive | replay/session/session.go:143-162 | a playback with a cancelled context is not live, and Play does nothing unless the session is idle |
| ReplaySession.PlaysToEnd | replay/session/session.go:211-260 | a live playback that nobody interferes with plays to the end: the session completes with the cursor there |
| ReplaySession.ExclusiveStep | replay/session/session.go:143-184 | idle states store no cancel function, and it names any uncancelled live playback: every action keeps this |
| ReplaySession.ConsecutiveStep | replay/session/session.go:186-226 | since the last Seek or Reset the claimed indices are consecutive and end before the cursor: every action keeps this |
| ReplaySession.LateOnceStep | replay/session/session.go:211-260 | every action keeps that a playback claims at most one event after it was cancelled |
| ReplaySession.SafeStep | replay/session/session.go:143-266 | the three together are inductive |
| ReplaySession.RunSafe | replay/session/session.go:143-266 | they hold after every action of every interleaving |
| ReplaySession.AtMostOneLive | replay/session/session.go:143-184 | in every interleaving at most one live playback is uncancelled |
| ReplaySession.BoundStep | replay/session/session.go:143-266 | every action keeps the cursor inside the events, apart from a replacement that ends before the cursor |
| ReplaySession.OutOfBoundsStep | replay/session/session.go:186-266 | a cursor beyond the list comes back inside exactly by an accepted Seek or Reset or a replacement that reaches it |
| ReplaySession.BoundIff | replay/session/session.go:186-266 | at every point of every run the cursor is inside the events exactly when the last setting of cursor or list left it there |
| ReplaySession.CompletedOnlyAtEnd | replay/session/session.go:216-221 | only a claim that finds no event left sets the complete state |
| ReplaySession.RunBoundedIff | replay/session/session.go:186-266 | the cursor is inside the events throughout a run exactly when every replacement reaches the cursor |
| ReplaySession.CompletedAtEndIff | replay/session/session.go:216-221 | the complete state is set with the cursor at the end exactly when the last setting of cursor or list left the cursor inside |
| ReplaySession.ShortReplacementBreaksBound | replay/session/session.go:211-266 | a six-action run in which an empty replacement leaves the cursor beyond the list and the session completes there |
| ReplaySession.InjectedRunBounded | api/handlers/replay.go:76-81 | if every replacement has the length of the list it replaces, as an injected copy has, the cursor is always inside and completion is always at the end |
| ReplaySession.PausedSessionMayStillAdvance | replay/session/session.go:164-173 | the one late claim is real: a paused session can still move its cursor |
| ReplaySession.PlaybackStepCounts | replay/session/session.go:211-260 | every playback step uses up a bound computed from the cursor and the program counters; an outside cancellation uses up none |
| ReplaySession.PlaybacksTerminate | replay/session/session.go:211-260 | once control calls stop, all playbacks of any run together take at most that many steps |
| ReplaySession.NoStepsLeftMeansFinished | replay/session/session.go:211-260 | when the bound is used up every playback has finished |
| ReplaySession.UnfinishedCanStep | replay/session/session.go:211-260 | a playback that has not finished can always take a step |
| ReplaySession.Session.constructor | replay/session/session.go:91-97 | a session as the manager creates it |
| ReplaySession.Session.StartPlay | replay/session/session.go:143-162 | one play action; refused exactly when complete or failed |
| ReplaySession.Session.DoPause | replay/session/session.go:164-173 | one pause action, keeping the invariants |
| ReplaySession.Session.DoStop | replay/session/session.go:175-184 | one stop action, keeping the invariants |
| ReplaySession.Session.DoReset | replay/session/session.go:186-194 | one reset action, keeping the invariants |
| ReplaySession.Session.DoSeek | replay/session/session.go:196-209 | one seek action; accepted exactly when not playing and in range |
| ReplaySession.Session.DoReplaceEvents | replay/session/session.go:262-266 | one replace action, keeping the invariants |
| ReplaySession.Session.InjectFailures | api/handlers/replay.go:76-81 | the caller's replacement by an injected copy: refused on a bad target, otherwise length, cursor and delays stay |
| ReplaySession.Session.ClaimNext | replay/session/session.go:216-226 | one claim: the index at the cursor and the event there, or none at the end |
| Enricher.XorIsBitwise | engine/enrich/enricher.go:82-84 | each low bit of the exclusive or is set exactly when the bits differ |
| Enricher.ShardBits | engine/enrich/enricher.go:78-84 | a block key has the shard of a process exactly when in each of the low five bits sector and size differ where the process id is set |
| Enricher.OutputTrace | engine/enrich/enricher.go:99-208 | an output has the trace fields looked up for it, a pair those of its earlier half |
| Enricher.WaitsAsShown | engine/enrich/enricher.go:152-172 | a half that waits does so as the lookup left it, stamped with its arrival |
| Enricher.EvictionMeaning | engine/enrich/enricher.go:210-247 | a small enricher is left alone; otherwise exactly the halves of the last five seconds and the spans of the last thirty stay, as they were |
| Enricher.TraceKeepsIdentity | engine/enrich/enricher.go:133-150 | trace lookup changes the four trace fields only |
| Enricher.TraceFromOldest | engine/enrich/enricher.go:133-150 | the oldest retained span that was open at the timestamp, ends included, gives its four trace fields |
| Enricher.TraceFromNone | engine/enrich/enricher.go:133-150 | without a covering span the event is unchanged |
| Enricher.ShardedEnricher.constructor | engine/enrich/enricher.go:56-64 | 32 empty shards |
| Enricher.ShardedEnricher.Add | engine/enrich/enricher.go:86-97 | the span goes to the shard of its process, cut by 100 above 1000; no other shard changes |
| Enricher.ShardedEnricher.Process | engine/enrich/enricher.go:99-183 | lookup and pairing happen in one shard, and no other shard changes |
| Enricher.ShardedEnricher.EvictShard | engine/enrich/enricher.go:210-247 | one shard is evicted by its own clock reading when one of its tables has reached 100 entries; no other shard changes |
| Enricher.DropStale | engine/enrich/enricher.go:222-232 | the deletion loop keeps exactly the entries of the last five seconds, in whatever order it visits them |
| Enricher.DropExpired | engine/enrich/enricher.go:234-246 | the span loop keeps exactly the spans of the last thirty seconds, in order, and no empty lists |
| EnricherSharding.VisibleMeaning | engine/enrich/enricher.go:78-84 | an event is visible unless it is a keyed block event whose bits do not agree with those of its process |
| EnricherSharding.ShardTrace | engine/enrich/enricher.go:99-150 | the shard shows an event all spans of its process if the event is visible there, otherwise none |
| EnricherSharding.ShardTraceAgreesIff | engine/enrich/enricher.go:117-122 | after any run, lookup in the event's shard agrees with lookup in the plain unsharded enricher exactly when the event is visible ((sector xor bytes) mod 32 = pid mod 32 for a keyed block event) or no span changes it; an invisible event is left as it is |
| EnricherSharding.MergedAdd | engine/enrich/enricher.go:86-97 | adding a span keeps the shards a partition of one set of tables |
| EnricherSharding.MergedPair | engine/enrich/enricher.go:152-183 | so does pairing, with the same output |
| EnricherSharding.MergedProcess | engine/enrich/enricher.go:99-131 | so does a whole event, apart from what it may see |
| EnricherSharding.ShardedRunEqualsVisibleRun | engine/enrich/enricher.go:78-150 | over every run the sharded outputs equal those of one set of tables in which only visible events are looked up |
| EnricherSharding.ShardedRunAgrees | engine/enrich/enricher.go:78-150 | over every run, mixed or not, the outputs equal the unsharded ones up to trace fields, and outright for every visible output, so for syscalls, other events and block events without a key |
| EnricherSharding.InvisibleKeepsOwnTrace | engine/enrich/enricher.go:117-122 | over every run an invisible output is a given event but for the duration and result of its pair: it keeps its own trace fields |
| EnricherSharding.VisibleRunsAgree | engine/enrich/enricher.go:78-150 | if every event of a run is visible or unchanged by the unsharded lookup, all outputs are equal outright |
| EnricherSharding.InvisibleEventMissesItsSpan | engine/enrich/enricher.go:117-122 | an invisible block event keeps its own trace fields although the unsharded enricher finds its span |
| EnricherLedger.JoinsPair | engine/enrich/enricher.go:199-208 | a pair is the earlier half, lasting the absolute difference without underflow, with the later half's result |
| EnricherLedger.KeysMeanFields | engine/enrich/enricher.go:152-197 | the keys of the tables say the same as the fields: cgroup, process and thread; sector, size and operation, all of them usable |
| EnricherLedger.DeedKinds | engine/enrich/enricher.go:152-183 | only syscalls and keyed block issues are held, only other events pass through, pairs are two halves of one thread or block, and only an issue replaces an issue of its block |
| EnricherLedger.PassedIssueEvicted | engine/enrich/enricher.go:173-177 | a completion that passes through would have found its issue, had that not been evicted |
| EnricherLedger.ArriveBalanced | engine/enrich/enricher.go:99-183 | an arriving event keeps the books: every event is exactly one of held and untouched since, passed through with no issue waiting for it, half of one pair with the next event of its key, an issue whose next event is another issue, or evicted as stale; every output is accounted for |
| EnricherLedger.EvictBalanced | engine/enrich/enricher.go:210-232 | an eviction keeps the books: what it removes it found in a table, stale, when it was due |
| EnricherLedger.RunBalanced | engine/enrich/enricher.go:86-232 | the books of every run of spans, events and evictions balance, and their arrivals, evictions, tables and outputs are those of the run |
| EnricherConservation.Conservation | engine/enrich/enricher.go:152-232 | over every run, events given = entries in flight + passed through + two per emitted pair + overwritten issues + evicted; outputs = passed through + pairs; without eviction none is evicted |
| EnricherConservation.EmittedFrom | engine/enrich/enricher.go:152-208 | over every run an output is an event that may not wait, or joins two arrivals of one cgroup, process and thread, or of one sector, size and operation, with no other such in between |
| EnricherConservation.SyscallsAreKept | engine/enrich/enricher.go:152-161 | over every run a syscall half is held, paired, or taken by a named eviction of the run that found it stale |
| EnricherConservation.OddMeansInFlight | engine/enrich/enricher.go:152-161 | without eviction a syscall key is in flight exactly after an odd number of its events |
| EnricherConservation.LastIssueMeansInFlight | engine/enrich/enricher.go:163-183 | without eviction a block key is in flight exactly when its last issue or completion is an issue |
| SpanRetention.KeptAtMost | engine/enrich/enricher.go:86-97 | whatever arrives and is evicted, at most 1000 spans are kept for a process |
| SpanRetention.StepKeepsSuffixIff | engine/enrich/enricher.go:86-247 | arrivals and lookups keep the spans of a process a suffix of its arrivals; an eviction does exactly when it is not due or finds the expired spans first |
| SpanRetention.HoldsNewestIff | engine/enrich/enricher.go:86-247 | throughout a run the spans of a process are a contiguous suffix of its arrivals exactly when every due eviction finds the expired ones first |
| SpanRetention.KeptSpans | engine/enrich/enricher.go:86-97 | in particular without eviction, and with eviction when spans are added in stamp order |
| SpanRetention.EvictionLeavesGap | engine/enrich/enricher.go:86-97 | a run with 101 processes whose due eviction keeps the older of two spans and not the newer |
| SpanRetention.KeptNumber | engine/enrich/enricher.go:92-96 | without eviction their exact number is known, and it is at least min(total, 901) |
| SpanRetention.ActiveIsSuffixIff | engine/enrich/enricher.go:234-246 | evicting spans by age keeps a suffix exactly when no expired span comes after one that has not expired |
| ShardedLedger.ShardIsItsOwnEnricher | engine/enrich/enricher.go:66-131 | with evictions of single shards at any point, each shard holds what an enricher of its own holds after its share of the steps |
| ShardedLedger.SharesAreAll | engine/enrich/enricher.go:78-131 | the shares are, as multisets, exactly the events given and the events emitted |
| ShardedLedger.ShardedConservation | engine/enrich/enricher.go:66-232 | balanced books and conservation in every shard of the sharded enricher, and nothing falls between the shards |
| ShardedLedger.ShardedOddMeansInFlight | engine/enrich/enricher.go:101-107 | syscall parity in the sharded enricher |
| ShardedLedger.ShardedLastIssueMeansInFlight | engine/enrich/enricher.go:108-122 | block keys in flight in the sharded enricher |
| ShardedLedger.ShardHoldsNewestIff | engine/enrich/enricher.go:66-97 | throughout a run of the sharded enricher the spans of a process are its newest exactly when every due eviction of its shard finds the expired ones first |
| ShardedLedger.ShardedKeptSpans | engine/enrich/enricher.go:86-97 | in particular the bound of 1000 always, a suffix without eviction of its shard or in stamp order, and the exact number without eviction |
| ShardedLedger.ShardEvictionLeavesGap | engine/enrich/enricher.go:66-97 | a run of the sharded enricher that keeps the older of two spans and not the newer |
| BatchStore.WakingTakesAll | engine/store/clickhouse.go:61-82 | whatever wakes the flusher it takes the whole buffer as a batch; with nothing to write it waits again, or exits after Close; a signal is used up |
| BatchStore.WritingEnds | engine/store/clickhouse.go:87-102 | a batch is written at the first success of three attempts and dropped after the third failure; then the flusher waits again, or exits after Close |
| BatchStore.InsertionMeaning | engine/store/clickhouse.go:42-54 | an insertion goes behind the others and calls for a signal exactly when the buffer has reached 5000 |
| BatchStore.NothingLostStep | engine/store/clickhouse.go:42-82 | the batches in order followed by the buffer spell the insertion sequence: every action keeps this |
| BatchStore.SettledStep | engine/store/clickhouse.go:74-105 | batches settle in order, are never empty, and are dropped only after three attempts: every action keeps this |
| BatchStore.CloseDrainsStep | engine/store/clickhouse.go:67-69 | after the final swap everything inserted before Close is in a batch: every action keeps this |
| BatchStore.SafeStep | engine/store/clickhouse.go:42-105 | these together with the pending wake-up of a full buffer are inductive |
| BatchStore.RunSafe | engine/store/clickhouse.go:42-105 | in every interleaving nothing is lost, and a buffer of 5000 implies a pending signal, a flusher before its swap, or an inserter before its send |
| BatchStore.ExitDeliversAll | engine/store/clickhouse.go:148-152 | when the flusher has exited, the settled batches begin with everything inserted before Close, in order |
| BatchStore.ClickHouseStore.constructor | engine/store/clickhouse.go:30-40 | an empty store with its flusher waiting |
| BatchStore.ClickHouseStore.AppendEvent | engine/store/clickhouse.go:42-48 | one insertion, and whether the buffer is full |
| BatchStore.ClickHouseStore.TrySignal | engine/store/clickhouse.go:48-53 | one non-blocking send |
| BatchStore.ClickHouseStore.TakeBatch | engine/store/clickhouse.go:75-82 | one swap: the batch is the whole buffer |
| BatchStore.ClickHouseStore.WriteWithRetries | engine/store/clickhouse.go:87-102 | the batch is written exactly when one of three attempts succeeds, the first success ends the loop, and the outcome is recorded |
| BatchStore.ClickHouseStore.Attempt | engine/store/clickhouse.go:88-101 | one attempt of the retry loop |
| ConsoleGraph.RestOfRowIdle | console/src/pages/Graph.tsx:108-112 | in time order, nothing after the break could have added an edge |
| ConsoleGraph.InferEdges | console/src/pages/Graph.tsx:101-136 | the loops with the early break give the edges of the full pairwise scan |
| ConsoleGraph.InferRow | console/src/pages/Graph.tsx:108-133 | one row, with its break |
| ConsoleGraph.InferredEdgesExact | console/src/pages/Graph.tsx:101-136 | an id pair has an edge exactly when two nodes with these ids, of one service or process or from kernel to another layer or from application to domain, follow in time order at most 5 ms apart, and then only one; it carries their ids and the time in milliseconds; nodes of one time keep the order given |
| GraphSanitizer.SanitizeGraph | console/src/pages/Graph.tsx:138-164 | the loops compute the unique nodes and the cleaned edges |
| GraphSanitizer.UniqueNodesExact | console/src/pages/Graph.tsx:142-143 | the nodes have distinct ids, all ids that were given, in the order in which they were first given, and each the last data given for its id |
| GraphSanitizer.ValidPairMeaning | console/src/pages/Graph.tsx:147-155 | a pair is valid exactly when both nodes are known and different and the source is earlier, or as late with the smaller id |
| GraphSanitizer.CleanEdgesClean | console/src/pages/Graph.tsx:146-163 | kept edges are valid, carry their key and have distinct keys |
| GraphSanitizer.SanitizeIdempotent | console/src/pages/Graph.tsx:138-164 | sanitising twice is sanitising once |
| GraphSanitizer.SanitizedAcyclic | console/src/pages/Graph.tsx:138-164 | the result has no cycle, whatever the input |
| GraphSanitizer.KeyDeterminesPair | console/src/pages/Graph.tsx:157 | without an arrow in the source ids the key determines the pair |
| GraphSanitizer.CollidingKeysLoseAnEdge | console/src/pages/Graph.tsx:157-160 | four nodes and two valid edges of different pairs on which sanitising drops the second edge |
| GraphSanitizer.KeyTaken | console/src/pages/Graph.tsx:157-160 | a valid pair's key is taken exactly when an edge of that pair was given |
| GraphSanitizer.FirstOfIsFirst | console/src/pages/Graph.tsx:158-160 | the first edge of a pair is the one with no earlier edge of that pair |
| GraphSanitizer.KeptExactlyFirst | console/src/pages/Graph.tsx:146-163 | exactly the first edge of each valid pair is kept, provided no two valid pairs share a key |
| GraphSanitizer.KeptExactlyFirstIff | console/src/pages/Graph.tsx:146-163 | and that condition is exact |
| GraphSanitizer.ArrowFreeKeysTellPairs | console/src/pages/Graph.tsx:157 | source ids without an arrow meet the condition |
| GraphSanitizer.Search | console/src/pages/Graph.tsx:186-206 | the queue search ends on every edge list and returns exactly the nodes reachable in its direction |
| GraphSanitizer.Follow | console/src/pages/Graph.tsx:188-194 | one round of the search keeps its invariant and makes progress |
| GraphSanitizer.GetPathIds | console/src/pages/Graph.tsx:182-209 | the result is exactly the node, all that reach it and all it reaches, cycles or not |
| GraphSanitizer.DirectionsDisjoint | console/src/pages/Graph.tsx:182-209 | on a sanitised graph ancestors and descendants are disjoint and neither holds the start |
| FallbackLayout.Columns | console/src/pages/Graph.tsx:171 | the least number of columns, at least one, whose square holds all nodes |
| FallbackLayout.GridSteps | console/src/pages/Graph.tsx:172-179 | the grid starts at (90, 70); each next node is 230 to the right, or first in a row 142 lower when the columns are used up |
| FallbackLayout.NoOverlap | console/src/pages/Graph.tsx:166-180 | no two node rectangles overlap, and they are read in placement order |
| FallbackLayout.RowsFit | console/src/pages/Graph.tsx:171-179 | no more rows than columns |
| FallbackLayout.LayoutSorted | console/src/pages/Graph.tsx:166-180 | reading order is (timestamp, id) order, and the placed nodes are a permutation of the given ones but for position |
| MessageList.HydrationLists | console/src/hooks/useConnection.tsx:113-120 | hydration lists min(number of distinct keys given, 2000) keys, in time order, each with its last-arrived text |
| MessageList.HydrationKeepsNewest | console/src/hooks/useConnection.tsx:118-120 | the last text of any key given but not listed is no newer than anything listed |
| MessageList.HydrationOfRun | console/src/hooks/useConnection.tsx:89-129 | in any run a hydration lists, of the history followed by all live texts that arrived before the first hydration, the newest 2000 distinct keys in time order, each with its last text, a live one before a historical one, under the next ids |
| MessageList.HydrateStep | console/src/hooks/useConnection.tsx:113-128 | hydration establishes the invariant, with seen keys equal to listed keys |
| MessageList.LiveStep | console/src/hooks/useConnection.tsx:159-180 | a live message keeps the invariant |
| MessageList.RunConsistent | console/src/hooks/useConnection.tsx:85-180 | in every reachable state keys are distinct, ids strictly increase, there are at most 2000 messages, and all listed keys are seen |
| MessageList.SeenIsListed | console/src/hooks/useConnection.tsx:85-180 | until a clear, the seen keys are exactly the listed ones |
| MessageList.LiveListedIff | console/src/hooks/useConnection.tsx:162-179 | a live message is appended exactly when its key is not seen, with the next id, behind all listed before but the oldest of a full list |
| MessageList.ClearedEventIsRefused | console/src/hooks/useConnection.tsx:85-87 | after a clear whatever was listed is still refused |
| MessageList.Connection.constructor | console/src/hooks/useConnection.tsx:72-82 | the initial state |
| MessageList.Unique | console/src/hooks/useConnection.tsx:115-116 | the loop builds the insertion-ordered map of last texts |
| MessageList.Connection.AssignNumbers | console/src/hooks/useConnection.tsx:123-126 | the hydrated texts get consecutive ids after the counter, which ends at the last |
| MessageList.Connection.HydrateHistory | console/src/hooks/useConnection.tsx:113-128 | one hydration step |
| MessageList.Connection.OnMessage | console/src/hooks/useConnection.tsx:159-180 | one live step |
| MessageList.Connection.ClearMessages | console/src/hooks/useConnection.tsx:85-87 | one clear step: only the messages change |

## Left out

- CausalRules.IntervalLatencyMeaning: its symmetry and latency clauses are stated for events whose end does not wrap past 64 bits; for wrapped ends `AcceptanceMetIff` says exactly when the acceptance rule is met.
- Eviction in the comparison with an unsharded enricher (`EnricherSharding`): the threshold counts the entries of one shard, so the two evict differently by design. Eviction is covered shard by shard in `ShardedLedger`.
- The engine's input channel and the events it drops when full, and the writes to Neo4j, ClickHouse and Kafka with their error logging.
- Generation of ids and reading of clocks: fresh ids and times are parameters; that event ids are distinct is a condition of the acyclicity theorems.
- Event fields that none of the modelled code reads, and the other fields of a span or message.
- `Manager.Create`, `Get` and `Remove`: a map of sessions, with easy claims only; a session starts validated and non-empty, as `Create` makes it.
- The unlocked reads of the event list after a claim are taken as one atomic step with the delivery.
- float64 arithmetic: multiplier, speed and scaled gaps are real numbers. The language leaves the conversion of an out-of-range float to int64 to the platform; the model takes that of amd64.
- Time-sorted rows are assumed for the schedule, as the replay store's query orders them.
- The ClickHouse batch text and events inserted after the final swap, which stay in the buffer.
- `localeCompare`: an abstract comparison, assumed to be a strict order (a strict weak order for the layout).
- `Math.sqrt` followed by `Math.ceil`: the exact integer ceiling.
- JSON parsing of messages: the key and the timestamp of a text are given with it; a timestamp that is not a number is not modelled.
- Reconnection, backoff, unmounting and stale hydrations in the console's connection; React's update scheduling, where each update is taken as atomic and in order.
- Rendering, the layered layout, authentication, HTTP and gRPC handlers, metrics, probe programs and the ptrace stub.
