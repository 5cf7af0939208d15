# A verified model of the audit gateway

The gateway forwards requests for language models and inspects what flows through it. This
project models the parts of it that are hard to get right, in Dafny, and proves what they
promise. `dafny verify dfyconfig.toml` checks everything.

* **Matching and streaming.** `AhoCorasick`, `AhoBuilder` and `RuleEngine` build and run the
  keyword automaton, `Policies` turns matches into a verdict, `SseFraming` and `SseEvents` cut
  an event stream into events and their data, `RollingWindows` keeps one inspection window per
  channel, `StreamAudit` and `StreamCopy` inspect and forward, `ClientView` reads the result
  as a client does, and `StreamGuarantees` states what this means for a whole stream: auditing
  event by event agrees with searching the whole text of a channel, the event that completes a
  blocked keyword never reaches the client, and the client can tell that it was cut off.
* **Durable delivery.** `Pipeline` (bounded queue with capacity tokens), `Outbox` (leases,
  attempts, backoff, dispatchers) and `Consumer` (batches, dead letters, offsets) are state
  machines over every interleaving of their steps and failures, the last two also of crashes.
* **Upstreams and keys.** `Lifecycle` is a state machine of row-locked transactions, triggers,
  checks and the finalizer.
* **Smaller machines.** `RateLimit`, `Migrations`, `Circuit`, `Pagination`, `LoginGuard` and
  `AuthThrottle`.

How the source is modelled:

* Code that updates state in place is a class or a method with loops, proved against a
  function of the old state. Concurrent protocols are values with a step function; a class
  beside them performs the steps, and theorems are about all runs.
* Map iteration order, buffer growth, lost answers, write failures and crashes are arbitrary
  choices. Bytes are integers from 0 to 255.
* Lower-casing, normalisation, regular expressions, JSON and string trimming are arbitrary
  functions passed in. Lower-casing is assumed to keep non-empty patterns non-empty.
* Clocks are parameters. Limiter arithmetic is over the reals, rule weights are unbounded.

Where the code does something else than its format or its comments say, the model follows the code:

* A line whose line end starts a fresh slice of the 32768-byte reader buffer, such as one of
  exactly 32768 bytes and a line feed, has its line end taken for a blank line.
  `BoundariesAtBlankLines` gives the exact condition, `MisframedLineSplitsEvent` the failing
  family, `ClientSeesTermination` what it costs a client whose stream is stopped.
* An insert cancelled during an attempt is reported as success. `CancelledInsertLosesEvents` shows
  the loss, `LostExactly` says which messages are lost.
* A gateway without brokers still runs a dispatcher, whose missing publisher reports success.
  `UnsentButPublished` shows a row marked published that was never sent,
  `AcknowledgedIffConfigured` the exact condition.
* The five-minute cap of the outbox backoff is dead code (`BackoffRange`).
* A pattern longer than the window plus one byte can be missed (`WindowBoundIsSharp`).

## Model

| member | source | states |
|---|---|---|
| `AhoCorasick.ReportedExactly` | internal/rule/engine.go:179-214 | The reference list of a text holds exactly the rules whose non-empty keyword occurs contiguously in it, each once |
| `AhoCorasick.EndingMembers` | internal/rule/engine.go:171-172 | The terms attributed to a string are exactly the rules whose keyword is a non-empty suffix of it |
| `AhoCorasick.PathsDistinct` | internal/rule/engine.go:132-148 | Each trie node stands for one distinct string |
| `AhoCorasick.Follow` | internal/rule/engine.go:158-169 | The fallback loop ends and lands on the longest suffix of the extended string that is in the trie |
| `AhoCorasick.EndingOfLongestSuffix` | internal/rule/engine.go:186-207 | The terms of the longest suffix in the trie are all the terms that end at this position |
| `AhoCorasick.Advance` | internal/rule/engine.go:186-207 | One byte of the scan keeps the state at the longest suffix, whose terms are all rules ending there |
| `AhoBuilder.InsertKeyword` | internal/rule/engine.go:132-148 | Inserting a keyword keeps the trie and attributes the rule to exactly the node of its keyword |
| `AhoBuilder.LinkFailures` | internal/rule/engine.go:149-173 | Whatever order map entries are visited in, the breadth-first pass ends with every fail link at the longest proper suffix and every term list complete |
| `AhoBuilder.VisitEdge` | internal/rule/engine.go:156-172 | Visiting one edge keeps the frontier invariant: shallower nodes finished, queue in level order |
| `AhoBuilder.Dequeue` | internal/rule/engine.go:153-155 | Taking the next node from the queue keeps the frontier invariant |
| `AhoBuilder.AllVisited` | internal/rule/engine.go:149-173 | When the queue runs dry every node has been visited |
| `RuleEngine.CompileRules` | internal/rule/engine.go:49-72 | Rules are compiled in order with defaults filled in and empty patterns skipped; it fails exactly when some kept regex does not compile |
| `RuleEngine.PlantKeywords` | internal/rule/engine.go:132-148 | The trie loop plants exactly the lowered keyword rules |
| `RuleEngine.BuildAho` | internal/rule/engine.go:131-174 | The built machine is a correct automaton for the lowered keywords |
| `RuleEngine.Snapshot.Audit` | internal/rule/engine.go:89-125 | With any pooled scratch, an audit lists exactly the reference findings in the reference order, and the capped sum of their weights |
| `RuleEngine.MatchScratch.Begin` | internal/rule/engine.go:99-107 | A reused scratch starts with no rule marked, also when the 32-bit generation wraps around |
| `RuleEngine.MatchScratch.Mark` | internal/rule/engine.go:199-205 | A rule is reported the first time it is seen and not again |
| `RuleEngine.AhoMatches` | internal/rule/engine.go:179-214 | The scan equals the reference list of the text, order included, so the result does not depend on the history of the scratch |
| `RuleEngine.KeywordHitsMembers` | internal/rule/engine.go:131-214 | A keyword rule is reported if and only if its lowered pattern occurs in the text, and only once |
| `RuleEngine.HitsExactly` | internal/rule/engine.go:89-125 | An audit lists a rule if and only if it fires, and lists no rule twice |
| `RuleEngine.CollectKeywords` | internal/rule/engine.go:108-112 | The first loop of the audit sums the weights of the keyword matches in scan order |
| `RuleEngine.CollectRegexes` | internal/rule/engine.go:114-120 | The second loop appends the firing regex rules by index and adds their weights |
| `RuleEngine.Engine.Replace` | internal/rule/engine.go:49-78 | Publishing swaps the snapshot, or leaves the old one in place when a regex is broken |
| `RuleEngine.Engine.Audit` | internal/rule/engine.go:89-125 | Without a snapshot nothing matches; otherwise the findings of the current snapshot |
| `RuleEngine.AuditReportsExactly` | internal/rule/engine.go:49-129 | An audit reports exactly the definitions whose pattern matches the text, each once, with the id, name and pattern given and the weight 10, severity medium and action monitor where the definition leaves them open |
| `RuleEngine.Capped` | internal/rule/engine.go:121-123 | The score is the least of 100 and the sum of the weights |
| `Policies.Elevate` | internal/policy/policy.go:82-98 | The loop with its early exit gives the strongest of the decision and the match actions |
| `Policies.VerdictIsJoin` | internal/policy/policy.go:70-98 | For a validated policy, with 30, 80 and block where nothing is set, the verdict is the least upper bound of what the weights reach and all match actions |
| `Policies.VerdictExactly` | internal/policy/policy.go:70-98 | The verdict is to block, to redact or to monitor if and only if a match asks for it by name or the weights reach the threshold that brings it |
| `Policies.ThresholdsExactly` | internal/policy/policy.go:70-98 | The verdict is at least the intervention action if and only if the weights reach its threshold or some match asks for as much; likewise for monitoring |
| `Policies.UnsetMeansDefault` | internal/policy/policy.go:42-68 | Thresholds that are not set act as 30 and 80, an action that is not set as block |
| `Policies.WeightMonotone` | internal/rule/engine.go:108-123 | More matches never weigh less, in any order |
| `Policies.VerdictMonotone` | internal/policy/policy.go:70-98 | The verdict never falls when more rules match |
| `Policies.VerdictOrderFree` | internal/policy/policy.go:82-98 | The verdict does not depend on the order of the matches |
| `SseFraming.Reader.ReadSlice` | internal/stream/sse.go:76-90 | The buffered reader returns the next line or the next 32768 bytes of it, without losing a byte |
| `SseFraming.ReadEvent` | internal/stream/sse.go:73-101 | The slice loop computes the next event of the input, the end, a read error or an oversized event |
| `SseFraming.NextEventBytes` | internal/stream/sse.go:73-101 | An event and what is left make up the input, an event is within the limit, and each error has its cause |
| `SseFraming.FramesPreserveBytes` | internal/stream/sse.go:44-101 | The events of an input are non-empty, within the limit, and concatenate to a prefix of it, all of it when the end is reached |
| `SseFraming.ReadLine` | internal/stream/sse.go:73-101 | Reading slice by slice is the same as reading line by line, with the end test on the last slice only |
| `SseFraming.ReaderClosesAt` | internal/stream/sse.go:84-107 | The reader closes an event exactly at blank lines and at long lines whose line end starts a fresh slice |
| `SseFraming.FramesAreGroups` | internal/stream/sse.go:73-101 | The events of a source that ends properly are its lines grouped by that test, up to the first oversized group |
| `SseFraming.BoundariesAtBlankLines` | internal/stream/sse.go:73-107 | For a source that ends properly, event boundaries fall exactly at blank lines if and only if no line but the last is misframed |
| `SseFraming.BrokenFrames` | internal/stream/sse.go:91-99 | A source that breaks gives the same events as one that ends, without an open last event, and a read error |
| `SseFraming.MisframedLineSplitsEvent` | internal/stream/sse.go:76-90 | A line of exactly one buffer and its line feed is cut off as an event of its own, for every continuation, while the event of the format goes on after it |
| `SseEvents.ParseData` | internal/stream/sse.go:109-136 | The loop over the lines of an event collects and joins the values of its data lines |
| `SseEvents.FieldAgrees` | internal/stream/sse.go:112-124 | The prefix test picks exactly the lines whose field name is `data`, with the value of the standard |
| `SseEvents.DataIsStandard` | internal/stream/sse.go:109-136 | For events without a lone CR the data is the data buffer of section 9.2.6 of the WHATWG HTML standard |
| `SseEvents.DataIsSeen` | internal/stream/sse.go:109-131 | For every event the data is that of its data fields, with a lone CR not taken for a line end |
| `SseEvents.EncodedRoundTrip` | internal/stream/sse.go:109-136 | Writing any list of line-end-free values as data lines and parsing it returns the values |
| `SseEvents.EncodedIsOneGroup` | internal/stream/sse.go:103-107 | By the format, what was written is one event |
| `SseEvents.EncodedIsOneEvent` | internal/stream/sse.go:73-101 | The reader takes what was written for exactly one event if and only if no data line ends on a fresh slice of its buffer, a condition on the lengths of the values |
| `SseEvents.ParseEvent` | internal/stream/sse.go:109-136 | An event carries its raw bytes, the data of its data fields, whether that is the end marker, and the fragments of that data unless it is |
| `SseEvents.EncodedIsShown` | internal/stream/sse.go:109-136 | A value written as an event is its data, and its fragments are extracted from it unless it trims to the end marker |
| `StreamAudit.FragmentsAreShown` | internal/stream/sse.go:109-136 | The fragments the inspector gets of a list of events are those of their data, in order |
| `RollingWindows.Scanner.Feed` | internal/stream/sse.go:277-303 | Feeding returns the last window bytes of the earlier text followed by the chunk; tail and buffer never share storage |
| `RollingWindows.Windows.Feed` | internal/stream/sse.go:256-275 | The same per channel, whatever the other channels do |
| `RollingWindows.WindowCatches` | internal/stream/sse.go:277-303 | A pattern of at most window + 1 bytes that first occurs with a fragment is in the window text of that fragment |
| `RollingWindows.FirstCaught` | internal/stream/sse.go:256-303 | If a short pattern occurs in the channel text, some fragment shows it at its first occurrence |
| `RollingWindows.CaughtOccurs` | internal/stream/sse.go:256-303 | What a window shows occurs in the channel text |
| `RollingWindows.WindowsSeeWholeText` | internal/stream/sse.go:256-303 | A pattern of at most window + 1 bytes is shown by some non-empty fragment if and only if the whole channel text holds it |
| `RollingWindows.WindowBoundIsSharp` | internal/stream/sse.go:256-303 | The bound is sharp: every longer pattern is missed when it arrives byte by byte |
| `StreamAudit.Inspector.JudgeAll` | internal/httpapi/handler.go:281-302 | The loop over fragments stops exactly when some window text is blocked |
| `StreamAudit.Inspector.Inspect` | internal/httpapi/handler.go:278-304 | An event passes exactly when none of its window texts is blocked; otherwise the stream is cancelled with a policy code |
| `StreamCopy.Forward` | internal/stream/sse.go:57-62 | An event is inspected before any byte of it is written |
| `StreamCopy.CopyNext` | internal/stream/sse.go:49-70 | One round reads, inspects and writes the next event, or stops for a stated reason |
| `StreamCopy.Copy` | internal/stream/sse.go:44-71 | The output is the concatenation of the first passing events, plus a prefix of the next one only when a write fails; each result states its cause |
| `ClientView.ClientFrames` | internal/stream/sse.go:44-101 | A client that splits at blank lines finds the events that were sent and the notice after them if and only if no line that was sent is misframed |
| `StreamGuarantees.Notify` | internal/httpapi/handler.go:350-378 | A stopped stream gets one termination event with the right code, any other stream gets none |
| `StreamGuarantees.Serve` | internal/httpapi/handler.go:278-381 | A served stream is the copied events followed by the notice |
| `StreamGuarantees.TerminationIsOneEvent` | internal/stream/sse.go:305-311 | The termination event reads as one event in the format, whatever the code and the request id |
| `StreamGuarantees.TerminationSays` | internal/stream/sse.go:305-311 | A client that was told reads the code and message of a policy stop, or those of the size limit, and the request id in the data of the termination event |
| `StreamGuarantees.ClientSeesTermination` | internal/httpapi/handler.go:350-378 | A client told that its stream was stopped, by policy or by the size limit, finds exactly the events sent and the termination event if and only if no line that was sent is misframed |
| `StreamGuarantees.CopyPreservesBytes` | internal/stream/sse.go:44-71 | However a copy ends, and whether or not its source breaks, the output is a prefix of the source, and all of it when the copy completes |
| `StreamGuarantees.BytewiseKeepsKeyword` | internal/httpapi/handler.go:285 | Where normalising and lower-casing map the bytes of the windows, as they do for ASCII, they keep the keyword and add none |
| `StreamGuarantees.KeywordBlocks` | internal/httpapi/handler.go:285-300 | A window holding the keyword of a blocking rule is blocked whatever the policy thresholds are |
| `StreamGuarantees.BlocksExactly` | internal/httpapi/handler.go:285-300 | A window stops the stream if and only if auditing is on and a rule that blocks matches its normalised and lowered text, or the weights of the matching rules reach the threshold of a policy that blocks |
| `StreamGuarantees.StoppedBefore` | internal/stream/sse.go:44-71 | Whatever is blocked by the end of an event stops the stream before that event is written |
| `StreamGuarantees.KeywordNeverForwarded` | internal/httpapi/handler.go:278-304 | When a blocking keyword of at most window + 1 bytes is complete on a channel with the data of event j, what reaches the client is a prefix of the events before j: no byte of event j, not even by a failed write |
| `StreamGuarantees.KeywordStream` | internal/httpapi/handler.go:278-381 | The same for a served stream; when it was stopped by policy and the client listened, the client has exactly the events before the stopping one and one termination event |
| `StreamGuarantees.CleanStreamIsUnchanged` | internal/stream/sse.go:44-71 | Unless an event is blocked or too large, or a read, a write or the client fails, the output is the input |
| `StreamGuarantees.ReportedIffOccurs` | internal/httpapi/handler.go:278-304 | Where the audited windows of a channel show the keyword exactly when their mapped bytes do, auditing window by window reports a keyword rule if and only if its keyword occurs in the mapped text of the whole channel |
| `Outbox.StepKeepsInv` | internal/events/events.go:334-378 | Stores, claims, sends, lost answers, retries, marks and crashes in any order keep the outbox invariant |
| `Outbox.DeliveryGuarantee` | internal/storage/postgres.go:488-569 | In every run a row marked published was acknowledged, or skipped by a dispatcher without a publisher; no row has more than 12 attempts and no event is published more than 12 times |
| `Outbox.StoreExactly` | internal/storage/postgres.go:488-523 | Every event of a batch is recorded whatever the switch; exactly with the outbox enabled each has a row, claimable at once if it is new |
| `Outbox.RunHistory` | internal/storage/postgres.go:488-569 | In every run records, rows, attempts, sends and the clock are what the steps alone say: stored events are recorded, enabled stores make the rows, attempts count the claims |
| `Outbox.SessionsExactly` | internal/events/events.go:334-378 | A dispatcher is at work exactly from an answered claim to its mark or its death |
| `Outbox.LeaseExactly` | internal/storage/postgres.go:530-554 | A claimed row is claimable again exactly after thirty seconds, while attempts are left |
| `Outbox.ClaimsApart` | internal/storage/postgres.go:530-554 | In every run two claims of an event without a retry in between are more than thirty seconds apart |
| `Outbox.UnsentButPublished` | internal/events/events.go:51-54 | A dispatcher whose publisher is missing marks a leftover row as published although nothing was sent |
| `Outbox.AcknowledgedIffConfigured` | internal/events/events.go:51-61 | Published means acknowledged, over all runs, if and only if the dispatchers have a publisher |
| `Outbox.PublishedIsFinal` | internal/storage/postgres.go:530-561 | A published row is never claimed again |
| `Outbox.BackoffRange` | internal/storage/postgres.go:562-569 | A retry is between one second and 256 seconds away, so the cap of five minutes is never reached |
| `Outbox.BackoffDoubles` | internal/storage/postgres.go:562-569 | The delay starts at a second and doubles up to the ninth attempt |
| `Outbox.RetryExactly` | internal/storage/postgres.go:562-569 | A retried row is claimable exactly from the end of its delay on, and no other row changes |
| `Outbox.MarkExactly` | internal/storage/postgres.go:555-561 | A mark publishes exactly the named rows, now, and frees their leases |
| `Outbox.StepClaimable` | internal/storage/postgres.go:530-554 | At a fixed time only a store makes rows claimable, at most its own, and a claim takes exactly its rows away |
| `Outbox.DrainStops` | internal/events/events.go:309-321 | At a fixed time dispatchers and writers in any interleaving claim no more rows than were claimable or are stored meanwhile |
| `Outbox.Repository.StoreEvents` | internal/storage/postgres.go:488-523 | A batch is one step of the protocol: every event is recorded whatever the switch, exactly with the outbox enabled each has a row, and rows that were there stay as they were |
| `Outbox.Repository.SelectCandidates` | internal/storage/postgres.go:540 | The oldest claimable rows that are not locked, at most the limit, all of them if fewer |
| `Outbox.Repository.ClaimOutbox` | internal/storage/postgres.go:530-554 | The selected rows are leased and their attempts counted; the default limit is 100 |
| `Outbox.Repository.PublishAll` | internal/events/events.go:345-360 | Exactly the deliveries reported as a success are collected for the mark, whatever retries are asked for |
| `Outbox.Repository.Dispatch` | internal/events/events.go:334-378 | One round is a run of the protocol that claims what it reports, unless the claim fails; exactly the events reported as delivered get published rows, if the mark succeeds |
| `Outbox.Repository.Drain` | internal/events/events.go:309-321 | The loop that goes on while a claim fills ends, and claims in all no more than was claimable |
| `Pipeline.StepKeepsInv` | internal/events/events.go:132-259 | Every step keeps: free tokens + queued + batched + held = capacity, and first-in first-out order |
| `Pipeline.StoreTwice` | internal/storage/postgres.go:488-523 | Storing a batch again after an ambiguous commit changes nothing |
| `Pipeline.LostAnswer` | internal/events/events.go:226-259 | A commit whose answer is lost has stored the batch, and the retry adds nothing |
| `Pipeline.RunHistory` | internal/events/events.go:114-259 | In every run the accepted events are, one by one, those of the enqueues that were completed, and the reported error and saturation are those of the last attempts |
| `Pipeline.PipelineGuarantee` | internal/events/events.go:114-259 | A holder of a token always finds room, giving back never blocks, records are a gapless prefix of the events of completed enqueues, each once, and nothing acknowledged is missing |
| `Pipeline.AuditPipeline.Enqueue` | internal/events/events.go:132-157 | With all others running in between, a caller takes a token and its own event is accepted, or finds none and is rejected; it never gives a token back |
| `Pipeline.AuditPipeline.FillBatch` | internal/events/events.go:182-201 | With enqueuers running in between, the batch becomes the oldest events not stored yet, full unless the channel was found empty |
| `Pipeline.AuditPipeline.StoreOnce` | internal/events/events.go:226-259 | With enqueuers running in between, exactly the tokens of the batch go back after a reported commit; a failed attempt keeps batch and tokens |
| `Consumer.StepKeepsSafe` | internal/consumer/consumer.go:67-144 | Every step keeps: messages before the batch are inserted, dead-lettered, or were in hand at a cancelled insert |
| `Consumer.CommitGuarantee` | internal/consumer/consumer.go:67-144 | Without a cancelled insert, with any crashes and redeliveries, the stored events below the committed offset are exactly the valid messages, and only the last message of a batch is invalid |
| `Consumer.CancelledInsertLosesEvents` | internal/consumer/consumer.go:244-246 | A cancelled insert can commit an event that was never stored |
| `Consumer.LostExactly` | internal/consumer/consumer.go:234-256 | In every run, with crashes, redeliveries and cancellations, a message below the committed offset is lost if and only if its batch was in hand at a cancelled insert and no insert of the run wrote it |
| `Consumer.LogIsProduced` | internal/consumer/consumer.go:67-144 | The messages a run works on are those that were produced, in order |
| `Consumer.Redelivered` | internal/consumer/consumer.go:67-144 | After a crash messages are delivered one by one from the committed offset on |
| `Consumer.EventConsumer.FetchBatch` | internal/consumer/consumer.go:78-116 | A batch ends at an invalid message, at 100 messages, when no more arrive in time or at the end of the log, and at nothing else |
| `Consumer.EventConsumer.InsertWithRetry` | internal/consumer/consumer.go:234-256 | One to ten attempts, exactly ten before it gives up uncancelled; a context cancelled during an attempt is reported as success, between attempts as a failure |
| `Consumer.EventConsumer.Turn` | internal/consumer/consumer.go:67-144 | One turn is a run of the protocol: a reported commit covers the batch, a failed one may have taken effect, giving up commits nothing, and only messages that are handled or were dropped by a cancelled insert are ever committed |
| `Lifecycle.StepKeepsInv` | internal/storage/admin_upstreams.go:132-376 | Every transaction or legacy write, committed or rejected by a trigger or check, keeps the lifecycle invariant |
| `Lifecycle.AttemptIsIntended` | internal/storage/admin_upstreams.go:132-376 | From every valid state each transaction, new or legacy, with all triggers, checks and guards, leaves exactly the intended tables or fails with the intended error |
| `Lifecycle.ProjectionRepairs` | internal/storage/migrations/002_upstream_lifecycle.sql:45-79 | Without the projection trigger a legacy write breaks the checks exactly when it flips enabled; with it every legacy write passes and deleting rows keep their state |
| `Lifecycle.InsertProjected` | internal/storage/migrations/002_upstream_lifecycle.sql:45-79 | An inserted row passes the check on enabled exactly when its phase allows it; the trigger repairs rows of older writers |
| `Lifecycle.NoConstraintViolation` | internal/storage/migrations/002_upstream_lifecycle.sql:27-37 | No transaction, new or legacy, ever violates a check or the foreign key |
| `Lifecycle.KeyStepKeepsInv` | internal/storage/migrations/002_upstream_lifecycle.sql:88-108 | The key guard admits no live key on a missing or deleting upstream |
| `Lifecycle.DeletionCommits` | internal/storage/admin_upstreams.go:255-305 | A deletion request for an existing upstream always commits: secret gone, timestamps set, every key of it revoked, nothing else changed; a second request changes nothing |
| `Lifecycle.FinalizeNeverFails` | internal/storage/admin_upstreams.go:332-376 | The finalizer of a deleting upstream never violates the key foreign key |
| `Lifecycle.LifecycleGuarantee` | internal/storage/admin_upstreams.go:132-376 | In every reachable state enabled means active, deleting rows have no secret and valid timestamps, live keys have a live upstream |
| `Lifecycle.DeletingIsTerminal` | internal/storage/migrations/003_lifecycle_consistency.sql:9-17 | A deleting upstream keeps its phase and timestamps until it is gone |
| `Lifecycle.StaysGone` | internal/storage/admin_upstreams.go:332-376 | A purged upstream never comes back |
| `Lifecycle.NoRouteAfterDeletion` | internal/storage/admin_upstreams.go:392-413 | After a deletion request no key bound to the upstream routes anywhere again, and no key, old or new, routes to it, in any continuation |
| `Lifecycle.RouteExactly` | internal/storage/admin_upstreams.go:392-413 | A key routes to an upstream if and only if it is bound to it and unrevoked and the upstream is active |
| `Lifecycle.RevokedForGood` | internal/storage/postgres.go:411-421 | A revoked key routes nowhere in any continuation; an earlier revocation time is kept and nothing else changes |
| `Lifecycle.BacklogIsPurgeable` | internal/storage/admin_upstreams.go:310-328 | The backlog never reports a malformed row, and a deleting row is due exactly when its time has come |
| `Lifecycle.Repository.Execute` | internal/storage/admin_upstreams.go:132-305 | A transaction leaves exactly the intended tables, or the database unchanged with the intended error |
| `Lifecycle.Repository.FinalizeDue` | internal/storage/admin_upstreams.go:332-376 | Alone at one moment, the finalizer purges the due upstreams, earliest first, as many as the limit allows, and counts them and their keys; nothing else changes |
| `Lifecycle.Repository.FinalizeAmongOthers` | internal/storage/admin_upstreams.go:332-376 | With other writers and finalizers in between it never fails, purges each upstream it counts by a transaction of its own and none twice, stays within the limit, and what it purged stays gone |
| `RateLimit.AdaptiveLimiter.Allow` | internal/ratelimit/redis.go:120-131 | A call takes a token from Redis, or from the local bucket when Redis does not answer, and returns the hint of that side; other keys are untouched |
| `RateLimit.AdaptiveLimiter.AllowLocal` | internal/ratelimit/redis.go:132-155 | The local bucket answers as the script does, with its own truncated hint |
| `RateLimit.CreditOverTime` | internal/ratelimit/redis.go:43-47 | Waiting does not create credit |
| `RateLimit.ConfiguredAsGiven` | internal/ratelimit/redis.go:102-107 | In a second as many tokens flow in as configured, the bucket holds the configured burst, and settings below one mean 60 and 120 |
| `RateLimit.CreditOfCall` | internal/ratelimit/redis.go:43-47 | A granted call costs exactly one token of credit, a refused one nothing |
| `RateLimit.GrantBound` | internal/ratelimit/redis.go:43-47 | From any state, one side grants a key at most burst + rate * T calls in an interval of length T |
| `RateLimit.WindowBound` | internal/ratelimit/redis.go:120-155 | In any window of any history Redis grants at most burst + rate * T, and both sides together at most twice that |
| `RateLimit.CoveredCallsAreGranted` | internal/ratelimit/redis.go:43-47 | Calls for which the bucket holds a token each are all granted, whenever they come |
| `RateLimit.DegradedExactly` | internal/ratelimit/redis.go:120-131 | Redis counts as degraded exactly if the last call that tried it failed |
| `RateLimit.ExpiredIsFull` | internal/ratelimit/redis.go:46 | A bucket that is idle for the life of its key is full |
| `RateLimit.ExpiryUnobservable` | internal/ratelimit/redis.go:43-47 | Expiry of keys never changes an answer |
| `RateLimit.HintSuffices` | internal/ratelimit/redis.go:47 | Waiting the hinted time with no other call guarantees a grant |
| `RateLimit.HintIsTight` | internal/ratelimit/redis.go:47 | A caller short of a token is still refused a millisecond before the hint |
| `RateLimit.LocalHintWithinNanosecond` | internal/ratelimit/redis.go:154 | Over the reals, a refused caller is refused again before the truncated local hint, and granted a token one nanosecond after it |
| `Migrations.EqualBytes` | internal/storage/migrations.go:220-229 | The constant-time loop decides equality |
| `Migrations.LoadMigrations` | internal/storage/migrations.go:60-95 | A directory is accepted if and only if its versions are 1 to n, and is returned in order |
| `Migrations.ValidateApplied` | internal/storage/migrations.go:189-218 | A ledger is accepted if and only if it is versions 1 to k with matching names and checksums |
| `Migrations.Database.ApplyMigration` | internal/storage/migrations.go:231-250 | Script and ledger row commit together or not at all; a commit whose answer is lost is reported as a failure |
| `Migrations.Database.BaselineCurrentSchema` | internal/storage/migrations.go:274-311 | A baselined ledger is an accepted prefix and nothing is executed, also when the answer of the commit is lost |
| `Migrations.Database.Migrate` | internal/storage/migrations.go:97-159 | One start ends with an accepted ledger and has executed exactly the versions it added |
| `Migrations.MigrateExactlyOnce` | internal/storage/migrations.go:97-159 | However often the runner starts and wherever it crashes, each needed version is executed exactly once and in order, and a start that succeeds completes the ledger |
| `Migrations.UnsupportedIsRefused` | internal/storage/migrations.go:274-311 | An unsupported schema without a ledger is refused by every start and left alone |
| `Migrations.BaselineIsExact` | internal/storage/migrations.go:274-311 | For an existing schema versions 1 and 2 are never executed, and version 3 if and only if its constraint is missing, over any number of starts |
| `Circuit.CircuitBreaker.Conclude` | internal/audit/circuit.go:64-83 | The end of a call resets, counts, opens, or for a cancelled call changes nothing |
| `Circuit.StepKeepsInv` | internal/audit/circuit.go:44-84 | Every interleaved step keeps the failure count equal to the current run of failures and below the maximum |
| `Circuit.StreakIsMaximalRun` | internal/audit/circuit.go:64-83 | The count is the maximal run of failures at the end of the history |
| `Circuit.BreakerGuarantee` | internal/audit/circuit.go:44-84 | In every interleaving calls in flight stay within the semaphore and each opening follows, at once, exactly maxFailures failures since the last success or opening |
| `Circuit.RunHistory` | internal/audit/circuit.go:44-84 | In every interleaving the history is what the auditor reported, and the deadline is that of the last opening |
| `Circuit.EnterExactly` | internal/audit/circuit.go:44-57 | A call is refused if and only if it arrives before the end of the last opening; a waiting call goes on exactly while a permit is free |
| `Circuit.PositionsExactly` | internal/audit/circuit.go:52-59 | The auditor works on exactly the calls that took a permit and have not come back |
| `Circuit.CancelledChangesNothing` | internal/audit/circuit.go:44-84 | In every interleaving, calls the auditor never answered can be erased: the run without them is possible and ends with the same count, deadline and observations |
| `Pagination.Query` | internal/clickhouse/store.go:273-295 | The query returns one row per group in listing order, the first ones after the cursor |
| `Pagination.ListEvents` | internal/clickhouse/store.go:236-352 | A limit outside 1 to 200 is refused, 0 means 50; a page holds exactly the matching keys between its cursor and the next one and is full if there is a next one |
| `Pagination.FollowAll` | internal/clickhouse/store.go:317-352 | Following the cursors lists every matching event exactly once, newest first and then by descending id, and ends |
| `LoginGuard.Guard.IsBlocked` | internal/httpapi/login_guard.go:39-47 | An account is refused exactly while its lock lasts |
| `LoginGuard.Guard.RecordFailure` | internal/httpapi/login_guard.go:51-67 | A wrong password opens a window, counts, or locks |
| `LoginGuard.Guard.RecordSuccess` | internal/httpapi/login_guard.go:70-74 | A success forgets the account |
| `LoginGuard.StepKeepsLocks` | internal/httpapi/login_guard.go:51-74 | No lock outlives its window |
| `LoginGuard.LockHolds` | internal/httpapi/login_guard.go:39-74 | A lock in force stays in force until its time is up or a sign-in succeeds, over every continuation |
| `LoginGuard.BlockedIsEarned` | internal/httpapi/login_guard.go:51-67 | An account is blocked only by exactly maxFailures failures within one window, with no success among them or since |
| `LoginGuard.OwnFailuresOnly` | internal/httpapi/login_guard.go:51-74 | Since its last success an account depends on its own failures only |
| `LoginGuard.BurstLocksExactly` | internal/httpapi/login_guard.go:51-67 | As many failures as allowed, within the length of one window, lock the account if and only if the one that uses up the open window comes before its end |
| `LoginGuard.FreshBurstLocks` | internal/httpapi/login_guard.go:51-67 | Such failures after the last window has ended block the account exactly until the last of them plus the window |
| `LoginGuard.WindowsDoNotSlide` | internal/httpapi/login_guard.go:51-67 | Three failures within a window of ten that straddle two counting windows do not lock |
| `AuthThrottle.Throttle.Sweep` | internal/httpapi/auth_throttle.go:33-39 | The sweep, in any order, removes exactly the stale buckets |
| `AuthThrottle.Throttle.IsBlocked` | internal/httpapi/auth_throttle.go:29-49 | The answer after a sweep, and what is deleted |
| `AuthThrottle.Throttle.RecordFailure` | internal/httpapi/auth_throttle.go:51-61 | A failure opens a new bucket or counts in the current one |
| `AuthThrottle.ForgettingIsInvisible` | internal/httpapi/auth_throttle.go:29-61 | Sweeps and deletes never change an answer compared with a map that never deletes |
| `AuthThrottle.RefusedExactly` | internal/httpapi/auth_throttle.go:29-61 | A key is refused if and only if at least the limit of its failures fall into the window that is open, told by the operations alone |

## Left out

- StreamGuarantees.KeywordNeverForwarded: assumes that normalisation and lower-casing keep the keyword in the windows whose mapped bytes show it, because normalisation also rewrites Unicode and reads JSON.
- StreamGuarantees.KeywordStream: makes the same assumption.
- StreamGuarantees.ReportedIffOccurs: assumes that the audited windows of the channel show the keyword exactly when their mapped bytes do, for the same reason.
- StreamGuarantees.ClientSeesTermination: assumes that encoded JSON strings hold no line feed.
- StreamGuarantees.TerminationSays: assumes that they hold no carriage return either.
- SseEvents.DataIsStandard: says nothing about a byte order mark or a lone carriage return, where the code and the standard differ.
- Pagination.FollowAll: assumes a fixed store and fixed bounds, and that an event id belongs to one tenant, because a cursor does not name the tenant.
- Lifecycle.Repository.FinalizeDue: runs alone at one moment; FinalizeAmongOthers is the same loop with others in between and promises neither the order nor the number.
- RateLimit.LocalHintWithinNanosecond: speaks of the reals and does not model float64, whose rounding can move the computed wait across a whole nanosecond.
- Consumer.CommitGuarantee: covers one partition.
- Circuit.CircuitBreaker.Conclude: only the last critical section is a method; entering, waiting for the semaphore and releasing it are steps of the state machine.
- Rule set and policy are fixed during a stream; publishing rule sets concurrently is not modelled.
- Policy scope, route, direction and resolution by specificity.
- Copying without an inspector.
- Extraction of fragments from provider JSON.
- Closing or crashing the audit pipeline, which loses the events it still holds in memory.
- Retention and its cascade into the outbox; leases are not exclusive and are not claimed to be.
- Retries inside the Kafka client, topics and schema creation.
- Floating-point rounding in the limiter and clock skew between gateways sharing Redis.
- The contents of migration scripts and the advisory lock around them.
- HTTP routing, sessions, encryption, address checks, metrics, configuration and the web interface.
