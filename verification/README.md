# A model of the gateway's trust-critical protocols

This project models the parts of the repository on whose correctness its guarantees rest, and
proves what they are for:

- **The Bedrock Mantle streaming adapter.** An incremental server-sent-event framer that scans
  only new bytes and a three-byte overlap, an event-order automaton behind it, and in front of it
  an identity check that withholds every byte until the upstream has named the bound model. The
  fast form is a class and methods with the source's variables; it refines a whole-buffer split,
  and the results about the split are stated for every sequence of chunks.
- **The model-binding cache and its refresh protocol.** A monotone cache with rules against
  rollback and resurrection; one refresher and any number of waiters, as interleaved steps over
  time; two independently written validators of one payload.
- **Azure verification.** A sweep over arbitrary answers that can fail at any read, the gate that
  weighs what was seen against what failed, and the timed loops that follow it.
- **The attested connection pool and the forwarding of requests.** Ownership of connections, and
  the rule that a request is serialised at most once, over every interleaving.
- **Parsers and escapers.** The event log and its replay into registers, the Envoy template, Lua
  string quoting, and the JSON control-character sanitiser.

| file | contents |
|---|---|
| `Common`, `Json` | shared vocabulary; JSON values with unique keys |
| `SseFraming` | where a frame ends; the whole-buffer split |
| `SseEvents`, `SseEventLaws` | the event of a frame and the rewritten identity frame; what a frame means, by its lines and names |
| `StreamGuard`, `GuardedRuns` | the guard, one chunk and one poll at a time; its whole runs |
| `StreamIdentity`, `StreamedResponse` | the identity check; the response end to end |
| `WrittenStreams`, `StreamEnds` | streams as a provider writes them; the cause of every refusal |
| `BindingCache`, `BindingCacheLaws` | the cache and its safety; which offers it accepts and how it answers |
| `RefreshProtocol`, `RefreshLaws` | the refresher and its waiters; why waiters wait and return, and the delays |
| `BindingsPayload`, `BindingsPayloadLaws` | the two validators; the accepted payloads written out |
| `AzureAudit`, `AzureRequests`, `AzureRules` | answers and tests; the order of the requests; the rules in the fields of the answers |
| `AzureSweep`, `AzureStreaming`, `AzurePeriodic` | the sweep and the gate; the streaming check; what runs after boot |
| `AttestedPool`, `AttestedPoolLaws` | the pool, the lease and the forwarding of requests; bounds in fields, and what has to happen |
| `EventLog`, `EventLogParser`, `EventLogCursor`, `EventLogLaws` | the binary format; the accepted logs; the cursor, the parser and replay; events in the fields of records |
| `EnvoyTemplate`, `LuaQuoting`, `JsonSanitizer` | the text transducers |

The files ending in `Laws`, with `AzureRules`, `WrittenStreams` and `StreamEnds`, say what the
operations mean without naming the functions that compute them: names, numbers and texts are
written out there, and each law says when a thing happens as well as when it does not.

Bytes are integers below 256 and text is its UTF-8 bytes. Time is a natural number (nanoseconds in
the refresh protocol). `dafny verify dfyconfig.toml` verifies the project.

## What the proofs showed about the code

- **The streaming check misses padded policy names.** Policies are fetched and stored under the
  name as written, but looked up under the trimmed name, so a deployment that names its policy
  with surrounding white space is dropped as unobservable and its policy's mode is never judged.
  `AzureStreaming.PaddedExample` is a concrete case; `AzureStreaming.CheckIsExactIff` says exactly
  which accounts the check is right for.
- **The exact frame margin.** A stream passes under every chunking exactly when each frame
  together with all but the last byte of its own separator fits the frame bound
  (`GuardedRuns.PassesHoweverChunkedIff`): one byte of margin before LF LF, three before
  CR LF CR LF. A frame of exactly the bound passes in one chunk and can fail in two.
- **A failed guard can be terminal with bytes pending**: exactly when they came in the same chunk
  as the closing event, behind it (`GuardedRuns.TerminalPendingIff`). A guard that has not failed
  never is.
- **Some tokens are not read as written.** A template variable whose name ends in an underscore is
  cut short by its own closing mark, and `__GM` directly before a token swallows it
  (`EnvoyTemplate.UnderscoreExample`, `SwallowedExample`; `TokenIsReadIff` says exactly when).
- **An account id without a leading slash** makes the settings read fail definitively without a
  request being sent. The model logs it as a refusal of the verifier's own, so it counts as a
  definitive failed read.
- **The truncating 64-bit shift in the retry delay is harmless** for every failure count, and the
  branches "nothing due", "cycle timeout" and "passed without a timestamp" are unreachable.

## Model

| member | source | states |
|---|---|---|
| SseFraming.FindIsLeast | attestd/src/bedrock_mantle.rs:1621-1630 | the reported separator is the least offset at which LF LF or CR LF CR LF starts, with its length, and none is reported only if there is none |
| SseFraming.FindStable | attestd/src/bedrock_mantle.rs:1621-1630 | a separator once found is never displaced by later bytes |
| SseFraming.OverlapMissesNothing | attestd/src/bedrock_mantle.rs:1385-1400 | scanning from three bytes before the old end finds exactly what scanning the whole buffer would |
| SseFraming.SplitExtend | attestd/src/bedrock_mantle.rs:1385-1439 | splitting as bytes arrive, re-reading only the unframed rest, equals splitting the whole |
| SseFraming.SplitIsLossless | attestd/src/bedrock_mantle.rs:1385-1439 | frames, separators and rest re-assemble the buffer |
| SseEvents.ParseStreamEvent | attestd/src/bedrock_mantle.rs:1522-1583 | the line loop computes the reading of a frame that SseEventLaws describes: known lines only, no field twice, and the event that the name stands for |
| SseEvents.CanonicalReadsBack | attestd/src/bedrock_mantle.rs:1588-1619 | the rewritten frame parses back as a message_start with exactly the rewritten value |
| SseEvents.CanonicalIsOneFrame | attestd/src/bedrock_mantle.rs:1588-1619 | the rewritten frame splits as one frame with nothing over |
| SseEvents.EventIsOneFrame | attestd/src/bedrock_mantle.rs:1522-1583 | so does every event with a one-line name, for any lawful codec |
| SseEventLaws.WrittenEventIs | attestd/src/bedrock_mantle.rs:1522-1583 | an event written with its name and JSON data is refused unless the data has that type, and is then what the name says: message_start, message_stop, error and ping as such, the four content and delta names inner, every other name unknown |
| SseEventLaws.EventTable | attestd/src/bedrock_mantle.rs:1541-1582 | the same for every frame whose lines give it these fields, however they are arranged |
| SseEventLaws.FieldsIff | attestd/src/bedrock_mantle.rs:1526-1545 | the lines of a frame give an event and a data field exactly if every line is blank, a comment or one of the two fields, and neither field comes twice |
| SseEventLaws.RepeatedFieldIsRefused | attestd/src/bedrock_mantle.rs:1531-1540 | a second event or data line refuses the frame |
| SseEventLaws.UnknownLineIsRefused | attestd/src/bedrock_mantle.rs:1541-1544 | a line that is neither blank, a comment nor one of the two fields refuses the frame |
| SseEventLaws.NotTextIsRefused | attestd/src/bedrock_mantle.rs:1523-1523 | a frame that is not UTF-8 text is refused |
| SseEventLaws.OnlySkippedIsEmpty | attestd/src/bedrock_mantle.rs:1526-1552 | blank lines and comments alone are no event |
| SseEventLaws.DataAloneIsRefused | attestd/src/bedrock_mantle.rs:1546-1552 | data without an event refuses the frame |
| SseEventLaws.EventAlone | attestd/src/bedrock_mantle.rs:1553-1571 | an event without data, or with empty data, is refused, except a ping |
| SseEventLaws.LinesReadBack | attestd/src/bedrock_mantle.rs:1526-1527 | lines closed by a line feed are read back as they are, less a carriage return |
| SseEventLaws.ValidIsText | attestd/src/bedrock_mantle.rs:1523-1523 | a frame passes as text exactly if it is the UTF-8 form of some scalar values (with TextIsValid) |
| SseEventLaws.TextIsValid | attestd/src/bedrock_mantle.rs:1523-1523 | the UTF-8 form of every sequence of scalar values passes as text |
| SseEventLaws.WhitespaceIs | attestd/src/bedrock_mantle.rs:1531-1540 | what is trimmed from a field are exactly the characters with the property White_Space |
| SseEvents.WithModelReplacesOnlyModel | attestd/src/bedrock_mantle.rs:1600-1614 | the rewritten value has the same keys at both levels and the same value for each, except the model, which is the canonical one |
| StreamGuard.ScanChunk | attestd/src/bedrock_mantle.rs:1385-1439 | the overlap-scanning frame loop ends, advances and hands over frames exactly as a whole-buffer split of the pending bytes does |
| StreamGuard.Guard.Next | attestd/src/bedrock_mantle.rs:1362-1458 | each poll moves all variables and yields the item that the split-based step prescribes, for chunks, interruption and end, before and after failure |
| GuardedRuns.HandedFramesAreTheSplit | attestd/src/bedrock_mantle.rs:1362-1458 | for every list of chunks the frames handed to the event parser are the successive frames of a split of all bytes, and all of them until the guard fails |
| GuardedRuns.EveryRunIsSafe | attestd/src/bedrock_mantle.rs:1362-1458 | in every run released bytes are a prefix of the source, every frame complete in them was admitted in order and fits, at most one error item appears and it is last, and a terminal guard that has not failed has nothing pending |
| GuardedRuns.TerminalPendingIff | attestd/src/bedrock_mantle.rs:1385-1439 | a terminal guard, failed or not, has bytes pending if and only if, within the bytes up to some chunk, frames that this chunk completes are a whole stream in order and within the limits, and bytes follow |
| WrittenStreams.TrailingByteExample | attestd/src/bedrock_mantle.rs:1423-1429 | a message_start, an error event and one more byte in one chunk leave a terminal guard with bytes pending, for every lawful codec and all events that fit |
| GuardedRuns.AutomatonIsGrammar | attestd/src/bedrock_mantle.rs:1401-1431 | the phase automaton accepts exactly quiet* message_start inner* (message_stop or error) |
| GuardedRuns.PassingStreamIsAcceptable | attestd/src/bedrock_mantle.rs:1362-1458 | a body without an error item delivered exactly its input, which is a complete, well-ordered stream within both limits |
| GuardedRuns.OneChunkPassesIffAcceptable | attestd/src/bedrock_mantle.rs:1362-1458 | delivered at once, a stream passes if and only if it is complete, well ordered and within the limits |
| GuardedRuns.PassesHoweverChunkedIff | attestd/src/bedrock_mantle.rs:1362-1458 | a stream passes under every chunking if and only if it is acceptable and each frame with all but the last byte of its separator fits the bound |
| GuardedRuns.ShortFramesPass | attestd/src/bedrock_mantle.rs:1362-1458 | an acceptable stream with frames of at most the bound less three passes under every chunking |
| StreamIdentity.SeekFrames | attestd/src/bedrock_mantle.rs:1316-1350 | the inner loop, with both its counters equal throughout, finds the identity frame, refuses or waits as a frame-by-frame reading from the scanned offset does |
| StreamIdentity.ValidateStreamIdentity | attestd/src/bedrock_mantle.rs:1306-1357 | the chunk loop returns the opened preamble with the unread chunks, or the rejection, of the reading over all chunks |
| StreamIdentity.IdentifyOpens | attestd/src/bedrock_mantle.rs:1306-1357 | an opened source showed, after quiet frames only and within the preamble bound, a message_start naming the raw model, and only that frame was replaced |
| StreamIdentity.OpensIffShown | attestd/src/bedrock_mantle.rs:1306-1357 | whether a source opens depends on its bytes alone: exactly when they show the identity, for every chunking |
| StreamedResponse.ReplacementKeepsBoundaries | attestd/src/bedrock_mantle.rs:1588-1619 | replacing the identity frame changes one frame of the split and no other; the value read from it names the raw model, and the value read from its replacement differs in the model alone |
| StreamedResponse.StreamedResponseIsFaithful | attestd/src/bedrock_mantle.rs:1063-1066 | end to end and for every chunking: nothing, or a prefix of the source with that one frame replaced and only its model changed, admitted in order, every complete message_start in it naming the canonical model |
| StreamedResponse.ResponseOpensIffIdentityShown | attestd/src/bedrock_mantle.rs:1306-1357 | nothing is released unless the source bytes show the identity, and then the response does open |
| StreamedResponse.RelayedHoweverChunkedIff | attestd/src/bedrock_mantle.rs:1063-1066 | a source opens and is relayed without an error item under every chunking if and only if it shows the identity, is acceptable with that frame replaced, and each frame behind it with all but the last byte of its separator fits the bound |
| StreamedResponse.ShownOnce | attestd/src/bedrock_mantle.rs:1306-1357 | the place and the replacement of the identity frame are determined by the source bytes |
| WrittenStreams.WrittenPassesIff | attestd/src/bedrock_mantle.rs:1362-1458 | a stream written event by event passes the guard in one chunk exactly if its names are quiet ones, message_start, quiet and inner ones, then message_stop or error, each within 4 MiB and 32 MiB together |
| WrittenStreams.WrittenPassesHoweverChunkedIff | attestd/src/bedrock_mantle.rs:1362-1458 | however it is chunked, exactly if there is also room for one byte beside each event |
| WrittenStreams.WrittenIsRelayed | attestd/src/bedrock_mantle.rs:1031-1095 | events in order, the start naming the bound raw model: the client of every chunking receives every event, the model of the start replaced and nothing else changed, and no error |
| WrittenStreams.StartDeltaStopIsRelayed | attestd/src/bedrock_mantle.rs:1031-1095 | in particular a start, a content delta and a stop |
| StreamEnds.MismatchIff | attestd/src/bedrock_mantle.rs:1606-1610 | an identity mismatch is reported exactly if the source bytes show the identity of another model |
| StreamEnds.TransportIff | attestd/src/bedrock_mantle.rs:1314-1318 | a broken transport is reported exactly if the upstream broke off while only quiet frames had come within the preamble |
| StreamEnds.AdmittedIff | attestd/src/bedrock_mantle.rs:1401-1421 | the automaton refuses a frame no earlier and no later than the grammar of a stream does |
| StreamEnds.CauseOfEnd | attestd/src/bedrock_mantle.rs:1362-1447 | each error item has one cause over the source bytes and that cause brings it about: interruption, body limit, data behind the closing event, an overlong frame or rest, a malformed or misplaced frame |
| StreamEnds.CauseAtTheEnd | attestd/src/bedrock_mantle.rs:1448-1453 | a source that ends is complete exactly if it is in order with nothing over, and lacks its terminal event otherwise |
| StreamEnds.OutputIs | attestd/src/bedrock_mantle.rs:1362-1447 | every guard that has not failed is in a state to which the two cause laws apply, and its next item is the one they speak of |
| BindingCache.BindingCache.Apply | attestd/src/bedrock_mantle.rs:137-179 | accepts exactly the permitted snapshots (AcceptedIff says which), updates both fields, leaves them untouched on a refusal, and gives each error only for a row or snapshot that is so |
| BindingCache.BindingCache.Find | attestd/src/bedrock_mantle.rs:181-200 | the early returns answer behind whatever the age of the snapshot, refresh when it is stale, lacks the model or has an older row, and ready with the row otherwise |
| BindingCacheLaws.AcceptedIff | attestd/src/bedrock_mantle.rs:137-179 | over every run an offer is accepted exactly if it is the first, or repeats the last accepted one, or is above it with every row above all rows accepted for its model or equal to the one in the last accepted snapshot |
| BindingCacheLaws.AnswerIs | attestd/src/bedrock_mantle.rs:181-200 | over every run each answer is given exactly in its case, from the last accepted offer alone: ready at the revision of its row within fifteen minutes, behind below it, and each reason to refresh |
| BindingCacheLaws.NothingToAnswerFrom | attestd/src/bedrock_mantle.rs:181-184 | before any snapshot every lookup asks for a refresh |
| BindingCache.SnapshotsNeverRollBack | attestd/src/bedrock_mantle.rs:137-179 | over every run accepted snapshot revisions never fall, and an equal revision is an equal snapshot |
| BindingCache.RowsNeverRollBack | attestd/src/bedrock_mantle.rs:137-179 | over every run a model's accepted row revision never falls, even across removals |
| BindingCache.SameRevisionSameRow | attestd/src/bedrock_mantle.rs:137-179 | equal model and row revision is an identical row, and no snapshot accepted in between lacked the model |
| BindingCache.ReadyAnswersAgree | attestd/src/bedrock_mantle.rs:181-200 | in any interleaving all ready answers for one model and revision return the same row |
| BindingCache.BehindIsFinal | attestd/src/bedrock_mantle.rs:181-200 | after a behind answer that revision is never answered ready |
| BindingCache.NoReadyAfterRaise | attestd/src/bedrock_mantle.rs:181-200 | no ready answer follows an accepted snapshot that raised the row above that revision |
| BindingCache.NoReadyAfterDrop | attestd/src/bedrock_mantle.rs:181-200 | no ready answer follows an accepted snapshot that dropped the model known at that revision or above |
| BindingCache.ReadyIsFresh | attestd/src/bedrock_mantle.rs:181-200 | a ready answer is a row of the last accepted snapshot, confirmed at most the TTL ago |
| RefreshProtocol.BaseSecondsTable | attestd/src/bedrock_mantle.rs:81-93 | despite the truncating shift the base delay is 3, 6, 12, 24 and then always 35 seconds |
| RefreshProtocol.RetryDelayBounds | attestd/src/bedrock_mantle.rs:81-93 | for every failure count and jitter the delay lies between 3 s and 43.75 s |
| RefreshProtocol.StepKeepsInv | attestd/src/bedrock_mantle.rs:346-555 | every step keeps the invariant on generations, nudges, timers, status and waiters: the server's start of the refresher, the refresher itself, any waiter (one whose request is dropped included) and the clock |
| RefreshProtocol.OneFetchAtATime | attestd/src/bedrock_mantle.rs:467-555 | in every run starts exceed completions by one exactly while fetching, and the generation is the number of completions |
| RefreshProtocol.NudgeIsNeverLost | attestd/src/bedrock_mantle.rs:467-555 | the nudge never exceeds the generation, and one for the current generation is being fetched for, pending or unseen, with no sleep past the gap or backoff |
| RefreshProtocol.SomethingIsAlwaysDue | attestd/src/bedrock_mantle.rs:504-520 | the "nothing due" branch of the loop is never taken |
| RefreshProtocol.StaleNudgesStartNothing | attestd/src/bedrock_mantle.rs:484-520 | before the periodic time a fetch starts only if somebody nudged for the current generation |
| RefreshProtocol.FetchesAreSpaced | attestd/src/bedrock_mantle.rs:484-548 | every fetch starts at least 3 s after every earlier completion and never inside the backoff of a failed one |
| RefreshProtocol.CompletionReleasesWaiters | attestd/src/bedrock_mantle.rs:346-401 | a published outcome overtakes every active waiter; none can sleep through it and each returns at its next look |
| RefreshProtocol.WaitersReturnInTime | attestd/src/bedrock_mantle.rs:346-401 | no waiter is kept longer than 18 s, and at its deadline it can return |
| RefreshLaws.WhyWaitersReturn | attestd/src/bedrock_mantle.rs:365-400 | in every run an active waiter returns only for a new generation, a running backoff or its deadline, unless its request is dropped |
| RefreshLaws.WaitersEnter | attestd/src/bedrock_mantle.rs:346-362 | a request is turned away exactly during a backoff, and otherwise waits until the running fetch's deadline or fifteen seconds from now or from the end of the gap |
| RefreshLaws.WhatALookDoes | attestd/src/bedrock_mantle.rs:366-397 | each look at the status returns, waits, naps or nudges exactly in its case |
| RefreshLaws.WaitsForTheOutcome | attestd/src/bedrock_mantle.rs:366-397 | a waiter of the generation in flight stays until the outcome is published or its deadline has come |
| RefreshLaws.WaitersWaitForSomething | attestd/src/bedrock_mantle.rs:366-397 | nobody waits in vain: a fetch of its generation is in flight or its nudge is in, and a nap ends with the present gap |
| RefreshLaws.NextAttemptIs | attestd/src/bedrock_mantle.rs:525-537 | after the n-th failure in a row the next attempt is 3, 6, 12, 24 or 35 seconds away and at most a quarter more; a success restarts the count and waits a minute |
| RefreshLaws.PublishedOutcome | attestd/src/bedrock_mantle.rs:538-549 | what is published is the gap of three seconds from completion, or the backoff up to the next attempt |
| RefreshLaws.FetchDeadline | attestd/src/bedrock_mantle.rs:519-523 | a fetch in flight is given fifteen seconds |
| BindingsPayload.ParseBindingsPayload | attestd/src/bedrock_mantle.rs:610-706 | accepts exactly the valid payloads and returns their rows by model |
| BindingsPayload.ParseBindings | cli/src/bedrock_bindings.rs:112-195 | accepts exactly the payloads of its own tests and returns their rows sorted by model |
| BindingsPayload.KeyTestsCoincide | cli/src/bedrock_bindings.rs:197-199 | "only these keys and all of them" and "as many keys and all of them" are the same test for distinct keys |
| BindingsPayload.ValidatorsAgree | cli/src/bedrock_bindings.rs:112-195 | both validators accept the same values for the same network, and the CLI lists the adapter's rows in the order of the adapter's map |
| BindingsPayload.OneListInOrder | cli/src/bedrock_bindings.rs:193-194 | that order is unique, so it fixes the list |
| BindingsPayload.SortOrders | cli/src/bedrock_bindings.rs:193-194 | sorting orders the rows and is a permutation of them |
| BindingsPayload.AcceptedRevisionsInRange | attestd/src/bedrock_mantle.rs:610-706 | every accepted row revision lies between 1 and the snapshot revision |
| BindingsPayloadLaws.AcceptsExactlyPayloads | attestd/src/bedrock_mantle.rs:610-738 | accepted are exactly the values that write out at most 1024 good bindings of different models, key by key, and what is read are those bindings |
| BindingsPayloadLaws.RowIff | attestd/src/bedrock_mantle.rs:641-690 | a row is read as a binding exactly if it is that binding written out and the binding is good: provider, names, selector and revision within their bounds |
| EventLogFormat.HeaderDecode | attestd/src/eventlog.rs:128-162 | reading undoes the encoding of a header, whatever follows it |
| EventLogFormat.HeaderEncode | attestd/src/eventlog.rs:128-162 | whatever is read as a header is the encoding of it |
| EventLogFormat.RecordDecode | attestd/src/eventlog.rs:164-205 | reading undoes the encoding of a record, whatever follows it |
| EventLogFormat.RecordEncode | attestd/src/eventlog.rs:164-205 | whatever is read as a record is the encoding of it, with the digests the header allows |
| EventLogParser.AcceptsExactlyLogs | attestd/src/eventlog.rs:89-113 | accepted are exactly a header, records within the count, then nothing or at least four 0xFF bytes; returned are the measured records in order |
| EventLogParser.ParseUndoesEncode | attestd/src/eventlog.rs:89-113 | parsing undoes an encoder of the crypto-agile format |
| EventLogParser.ParsedEventsAreMeasured | attestd/src/eventlog.rs:89-113 | every event names one of four registers and has a 48-byte digest, and their number is bounded |
| EventLogLaws.ParsedEventsAreRecords | attestd/src/eventlog.rs:164-205 | the events of an accepted log are its records of other type than 3, in order, each with the register below its index, its type, its one SHA-384 digest and its data |
| EventLogLaws.RecordRule | attestd/src/eventlog.rs:174-205 | which records are accepted, in their own fields and numbers |
| EventLogLaws.HeaderRule | attestd/src/eventlog.rs:128-162 | which headers are accepted, in their own fields and numbers |
| EventLogLaws.HeaderStarts | attestd/src/eventlog.rs:128-146 | how a log starts, byte for byte |
| EventLogLaws.RecordsGoOn | attestd/src/eventlog.rs:95-113 | records follow one another while fewer than 4096 events are listed, and padding is 0xFF to the end |
| EventLogLaws.SizeIsTheFirstListed | attestd/src/eventlog.rs:177-181 | the size of an algorithm is the one the header lists first for it |
| EventLogCursor.Cursor.Take | attestd/src/eventlog.rs:46-57 | returns the next bytes and moves past them, or leaves the cursor where it was |
| EventLogCursor.ParseHeader | attestd/src/eventlog.rs:128-162 | the cursor ends behind the header that the format defines, with its digest sizes |
| EventLogCursor.ParseEvent | attestd/src/eventlog.rs:164-205 | the cursor ends behind one record, and its measured event, if any, is returned |
| EventLogCursor.Parse | attestd/src/eventlog.rs:89-113 | the record loop terminates and computes the specified parse, errors included |
| EventLogCursor.Replay | attestd/src/eventlog.rs:117-126 | each of the four registers is the extension of zero by the digests of its own events alone |
| EventLogCursor.RegisterBindsItsDigests | attestd/src/eventlog.rs:117-126 | different digest sequences with equal registers yield a collision between an input hashed for the one and an input hashed for the other, or an input hashed for either whose value is the zero register |
| EventLogCursor.SameRegisterSameDigests | attestd/src/eventlog.rs:89-126 | two accepted logs with an equal register have equal digests for it, and exactly otherwise a break is exhibited among the inputs that their replays hashed for that register |
| AzureSweep.Audit.FetchPaged | azure-verify/src/arm.rs:425-461 | returns the items of every page read, in order, with the failure that stopped it; pages are the given answers, each but the first linked to by the one before, at most 100, and a refusal has its reason; without failure the last page was reached |
| AzureRequests.PagesAsked | azure-verify/src/arm.rs:425-461 | a paged read that was due adds only requests that are due: the next page, or a refusal for an empty link or after 100 pages |
| AzureSweep.Audit.AuditScope | azure-verify/src/lib.rs:517-563 | settings, then connections, then capability hosts, each when it is due; findings stand exactly for what was read that breaks a rule; without failure the scope was read to its end |
| AzureSweep.Audit.AuditSettings | azure-verify/src/lib.rs:525-535 | settings are asked for exactly if the account id starts with a slash, and otherwise refused definitively without a request |
| AzureSweep.Audit.AuditCollection | azure-verify/src/lib.rs:539-561 | what was read of a collection is judged before its failure is let through |
| AzureSweep.Audit.AuditProjects | azure-verify/src/lib.rs:486-510 | listed projects are swept in the order of their list up to the first that cannot be read; without failure all of them are, each once for each time it is listed |
| AzureSweep.Audit.AuditCaptureSurfaces | azure-verify/src/lib.rs:451-515 | project list, account, then the listed projects in the order of the list; when nothing but the project list failed, the account and every project that it named were still read; findings stand exactly for broken rules, and the project list's own failure comes last |
| AzureSweep.Audit.AuditDeployments | azure-verify/src/lib.rs:409-437 | every deployment read is held against its binding, and a misbound one is found; the timestamp is the instant after the last page exactly if the list is complete and every binding holds, and otherwise stays |
| AzureSweep.Audit.AuditStreaming | azure-verify/src/lib.rs:565-647 | a finding is added exactly for a governed deployment without policy or with a resolved non-streaming one; each named policy is asked for once, and all of them unless a policy read fails, truncated list or not; the earlier truncation is the failure reported |
| AzureSweep.Audit.ResolvePolicies | azure-verify/src/lib.rs:612-637 | the modes are exactly those answered; without failure every name is resolved, and the first failure leaves one out |
| AzureSweep.Audit.Sweep | azure-verify/src/lib.rs:381-449 | the log holds exactly the answers given, each request was due, and no read is given up that does not have to be (ReadsOn); findings exist exactly if something read breaks a rule; without failure a bound account was swept completely, findings or not |
| AzureSweep.ReadsToTheEnd | azure-verify/src/lib.rs:381-449 | past the capture surfaces the deployments are asked for, and the policies of the deployments listed, whether or not their list was read to its end |
| AzureSweep.Audit.VerifyTarget | azure-verify/src/lib.rs:183-194 | for every sequence of answers, with the log exactly those answers, each request due and none given up: whatever else fails, an unbound account, a capture setting or child, a catalogue deployment that does not serve exactly its model in its format, or a synchronous deployment makes the verdict definitive; otherwise it passes exactly if no read failed, and is transient if only transient reads did; a pass read everything to its last page, and its instant is the one after the last deployments page |
| AzureSweep.ViolatedMeans | azure-verify/src/lib.rs:381-647 | what the sweep reports is exactly what breaks one of the five rules, in the fields of the answers |
| AzureRules.BindingMeans | azure-verify/src/binding.rs:34-56 | a deployment is refused exactly if its name is in the catalogue and its format or model is not the expected one; outside the catalogue nothing is |
| AzureRules.BreaksMeans | azure-verify/src/lib.rs:381-563 | which answers break a rule by themselves |
| AzureRules.PolicyMeans | azure-verify/src/checks/streaming.rs:20-140 | which deployments the filter governs, which name no policy, and which modes stream |
| AzureRules.FailureKinds | azure-verify/src/error.rs:13-34 | a failed read has the kind it was given, an answer that does not decode is transient, a refusal is definitive |
| AzureRules.LeafNameIs | azure-verify/src/arm.rs:108-110 | the leaf of a name is what follows its last slash, or all of it |
| AzureRules.PageLimit | azure-verify/src/arm.rs:552-552 | a collection is followed for a hundred pages |
| AzureRules.TrimIs | azure-verify/src/checks/streaming.rs:55-60 | trimming cuts white space at both ends, all of it and nothing else |
| AzureSweep.Audit.VerifyDeploymentBindings | azure-verify/src/lib.rs:340-352 | the poll reads token, account and deployment pages up to the first that breaks a binding, and no more; an unbound account or a misbound deployment is definitive; it succeeds exactly if nothing read breaks a rule and no read failed, and otherwise the kind is that of a failed read |
| AzureStreaming.CheckIsExactIff | azure-verify/src/lib.rs:590-642 | the check fires exactly when the rule is broken, for all policy modes, if and only if some governed deployment names no policy or none names one with padding |
| AzureStreaming.PaddedNameIsNotJudged | azure-verify/src/checks/streaming.rs:49-84 | a padded name hides its policy's mode from the check |
| AzureStreaming.PaddedExample | azure-verify/src/checks/streaming.rs:49-115 | the policy named " p" in a synchronous mode breaks the rule and is not reported |
| AzurePeriodic.TargetState.RecordResult | azure-verify/src/periodic.rs:223-294 | updates only its own operation's counter and says whether the result is fatal |
| AzurePeriodic.CounterIsStreak | azure-verify/src/periodic.rs:223-294 | a counter reaches n exactly if the last n results of its own operation are transient |
| AzurePeriodic.FatalExactly | azure-verify/src/periodic.rs:223-294 | a result is fatal exactly if it is definitive or completes a run of the limit of consecutive transient failures of its operation |
| AzurePeriodic.DeploymentLoop.IsFresh | azure-verify/src/lib.rs:119-127 | readiness holds exactly until the loop's own deadline, and exactly while the boot refresh would not count the target as expired |
| AzurePeriodic.DeploymentLoop.Turn | azure-verify/src/periodic.rs:166-210 | a cycle is stale exactly if the deadline cuts it off, otherwise its result is recorded; the deadline stays two intervals after the last success and the cycle timeout is never the reason |
| AzurePeriodic.RunLoop | azure-verify/src/periodic.rs:145-211 | over every run the loop ends at the first cycle that is cut off or fatal and at no other, its deadline two intervals after the last success throughout |
| AzurePeriodic.RefreshExpired | azure-verify/src/lib.rs:267-289 | the verdict is determined by the timestamps and the verifications made: fresh when nothing is expired, timed out when something is and the window is or would be used up, failed with the kind of the failed verification; each target is verified at most once, only when expired, and stamped with the instant its verification ended |
| AttestedPool.Pool.Take | attestd/src/attested_pool.rs:106-113 | sweeps the whole pool of unusable connections and lends the last one left |
| AttestedPool.Pool.GiveBack | attestd/src/attested_pool.rs:115-130 | takes back a usable connection if there is room after a sweep, and says otherwise |
| AttestedPool.Lease.PollFrame | attestd/src/attested_pool.rs:178-198 | the connection leaves its lease once: back to the pool at the end of the body, dropped on an error |
| AttestedPool.BodyStepIsTheLease | attestd/src/attested_pool.rs:149-198 | what a body event does in the state machine is what the lease does with it |
| AttestedPool.StepKeepsInv | attestd/src/near_verify.rs:228-321 | every step of requests, peers and clocks keeps ownership, limits and the standing of each request |
| AttestedPool.EveryConnectionHasOnePlace | attestd/src/attested_pool.rs:53-198 | in every reachable state a connection is idle in one pool, held by one request or retired, exactly one of these, within the idle and request limits |
| AttestedPool.RetiredStaysRetired | attestd/src/attested_pool.rs:65-76 | no run brings a retired connection back |
| AttestedPool.OnlyReadBodiesReturn | attestd/src/attested_pool.rs:115-198 | a connection, old or new, enters a pool only when its holder's body was fully read |
| AttestedPool.ForwardedAtMostOnce | attestd/src/near_verify.rs:228-288 | at most two attempts and at most one serialised; the second only after an unsent first, on another connection that this request attested and nobody used |
| AttestedPool.SentAtMostOnce | attestd/src/near_verify.rs:645-667 | in the trace itself a request is put on a connection at most twice and all but one of those came back unsent |
| AttestedPool.EverySendIsVetted | attestd/src/near_verify.rs:303-321 | every send of every run is on a connection attested earlier for that target, then seen ready and usable by this request and held by it ever since |
| AttestedPoolLaws.EverySendIsInBounds | attestd/src/attested_pool.rs:53-64 | that connection was, when last seen ready, younger than the age limit counted from its attestation, not expired, not idle too long, with requests to spare and open |
| AttestedPoolLaws.ReadyIsUsed | attestd/src/near_verify.rs:303-321 | a connection within its bounds that becomes ready is used |
| AttestedPoolLaws.UnfitIsRetired | attestd/src/near_verify.rs:303-321 | one that is not ready or out of bounds is retired; a pooled one is followed by another, a fresh one ends the request |
| AttestedPoolLaws.UnsentIsRetried | attestd/src/near_verify.rs:247-288 | a first attempt that comes back unsent is tried again, and any other failure ends the request |
| AttestedPoolLaws.TakesIdleIfAny | attestd/src/attested_pool.rs:106-113 | a request takes an idle connection of its target that is within its bounds, and connects only if there is none |
| AttestedPoolLaws.ReadBodyReturns | attestd/src/attested_pool.rs:115-130 | a fully read body stamps its connection idle and returns it if it is within its bounds and there is room, and retires it if it is out of bounds |
| AttestedPoolLaws.RequestsAreCounted | attestd/src/near_verify.rs:245-245 | the request count of a connection is the number of requests put on it |
| EnvoyTemplate.Substitute | cli/src/envoy_render.rs:234-260 | the loop renders a division of the template that does not depend on the values, inserting them verbatim, or names the first unset variable |
| EnvoyTemplate.SubstituteOwnTokens | cli/src/envoy_render.rs:234-260 | when each name maps to its own token the template comes back unchanged |
| EnvoyTemplate.VariablesAreNames | cli/src/envoy_render.rs:234-260 | every variable is upper case, digits and underscores and starts with GM |
| EnvoyTemplate.TokenIsReadIff | cli/src/envoy_render.rs:234-260 | a token is read as its variable, between exactly the text before it and the pieces behind it, if and only if its name is valid, no mark ends it early and nothing before it looks like a token |
| EnvoyTemplate.UnderscoreExample | cli/src/envoy_render.rs:234-260 | `__GM_X___` is read as the variable GM_X and an underscore |
| EnvoyTemplate.SwallowedExample | cli/src/envoy_render.rs:234-260 | `__GM__GM_X__` is read as the variable GM and text |
| EnvoyTemplate.RenderIs | cli/src/envoy_render.rs:234-260 | with every variable set the values stand in order between the text; otherwise the first unset one is named |
| LuaQuoting.LuaString | cli/src/envoy_render.rs:377-391 | the loop writes the quoted form of every byte between quotes |
| LuaQuoting.LiteralLexesBack | cli/src/envoy_render.rs:377-391 | a Lua 5.1 lexer reads the output, whatever follows it, as one literal with the original value |
| LuaQuoting.PlainTextStays | cli/src/envoy_render.rs:377-391 | printable and non-ASCII text without quotes and backslashes is written as it is |
| JsonSanitizer.SanitizeControlChars | cli/src/btcli.rs:148-176 | the two-flag loop computes the three-mode transducer |
| JsonSanitizer.SanitizedIsClean | cli/src/btcli.rs:148-176 | for every input no control byte stands unescaped inside a string, except directly after a backslash |
| JsonSanitizer.EscapeIs | cli/src/btcli.rs:160-166 | the escape of a control byte is its four lower-case hexadecimal digits |
| JsonSanitizer.UnchangedIffClean | cli/src/btcli.rs:148-176 | text is changed exactly if it had such a byte |
| JsonSanitizer.OutsideIsKept | cli/src/btcli.rs:148-176 | the bytes outside strings are the same in the same order, none changed, added or dropped |
| JsonSanitizer.Idempotent | cli/src/btcli.rs:148-176 | sanitising twice is sanitising once |
| JsonSanitizer.MeaningKept | cli/src/btcli.rs:148-176 | the output reads as a lenient reader reads the input |

## Left out

- JSON text, its parser and printer: values are a datatype with unique keys, and the codec is any
  pair of functions for which parsing undoes printing and printed text is non-empty UTF-8 without
  leading white space or raw line breaks.
- HTTP, TLS, DNS, sockets, quote appraisal and certificates: their outcomes are arbitrary inputs
  of the steps that depend on them. The hash is any function with 48-byte results.
- Error texts, logging and status codes. Which of several bad rows `apply` reports depends on map
  order and is not modelled; that it refuses, and which snapshot-level error it gives, is.
- The order in which the streaming check resolves policies (that of an ordered set): the model
  resolves them in any order, and the results hold for every one.
- Endpoint parsing and the details of the account-binding check: an arbitrary predicate on the
  account. The catalogue of deployment names is an arbitrary set.
- Exact timer ties: a timeout fires at its deadline, and one instant serves all readings of the
  clock within one atomic step (a waiter entering, one return to the pool, one search for an
  expired target). The 64-bit generation counter is unbounded and jitter is a real number.
- The refresher, its waiters and the forwarding of requests run concurrently: they are state
  machines over values rather than loops in place. `Pool` and `Lease` are classes beside them.
- Preparing Bedrock requests, non-streamed responses, header rules, retries of attestation, and
  the surrounding server: each is settled by reading it.
- `slot_config_lua`, `splice` and `visit_sequences`: string assembly and a tree walk around the
  quoting and substitution proved here.
- The remaining command-line tools: input, output and prompts.
- BindingsPayload.ParseBindings: the sort is specified by an insertion sort, because with distinct models every
  sort yields the same list (`OneListInOrder`, `SortOrders`).
