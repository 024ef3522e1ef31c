# Verification of the run stream, context merge, exact JSON, rule import and packaging logic

This Dafny project models the parts of the repository whose correctness rests on invariants rather than on
single branches, and proves what those parts are for. Code that changes state step by step is written as
methods and classes, each proved equal to a function of its inputs and old state; the properties are then
proved about those functions, for all inputs and all runs.

| area | modules | sources |
|---|---|---|
| Run events | `SseParser`, `RunStream`, `RunStreamFollow`, `LiveText`, `TauriTransport`, `TauriProtocol` | `packages/api-client/src` |
| Context merge and JSON Pointer | `Json`, `JsonPointer`, `ContextMerge` | `crates/core/src` |
| Exact and canonical JSON | `NumberLexeme`, `CanonicalNumber`, `CanonicalJson`, `CanonicalReader`, `DuplicateKeys`, `UnicodeText` | both |
| SillyTavern rules | `RegexRules`, `RuleImport`, `RuleRoundTrip`, `TextTransforms` | `packages/sillytavern-compat/src` |
| Bounds | `RetryDelay`, `SchemaWalk`, `PluginPackage` | `crates/core/src`, `crates/plugin-host/src` |
| Shared helpers | `Wrappers`, `TextBasics` | |

The environment is nondeterministic. Connections, queries, notifications and aborts are steps chosen freely
within this contract. A connection for the events after a cursor returns events of the log in ascending order,
possibly cut short, possibly preceded by old ones. A query for the events after a cursor does the same, except
that only a page of 500 events may leave some out, as `crates/storage/src/runtime/views.rs:78-90` does; without
that a wake-up could be lost. An event is stored before it is announced. Enumeration orders of directories and
maps are arbitrary choices. Random numbers, hashes, regular expressions at one position, array index syntax and
the size limits of the JSON library in the SillyTavern importer are parameters.

Verify with `dafny verify dfyconfig.toml`.

## Where the code does less than one might expect

Each point has a lemma with a concrete input and a lemma with the exact condition.

- Pushing a text in pieces may fail although the whole text passes, because of the limit on a partial line:
  `SseParser.PiecesMayFail`, `SseParser.ChunkingRefines`.
- Canonical text need not be readable again: plain notation of a number may exceed the digit limit that is
  checked on what was written. `CanonicalNumber.CanonicalTextMayBeRefused`, `CanonicalNumber.NormalizeAgain`.
- With exponent limits near the end of `i64`, the checked additions refuse numbers within their limits:
  `CanonicalNumber.WidestLimitUnderflows`, `CanonicalNumber.OverflowDecides`.
- The replacement loop does not end on an empty match in front of a surrogate pair under the flags `g` and `u`,
  because `exec` takes a `lastIndex` inside a pair back to its start:
  `TextTransforms.EmptyPatternMayNotTerminate`, `TextTransforms.LoopTerminates`; `TextTransforms.UnblockedTerminates`
  gives a condition on single positions.
- Export and import lose a rule list when a scope has more than 256 rules, which several imports can build up:
  `RuleRoundTrip.ScopesCanOverflow`, `RuleRoundTrip.RoundTrip`.
- The schema walk does not descend into `additionalProperties`, which it allows:
  `SchemaWalk.AdditionalIsNotCounted`, `SchemaWalk.NodesCountTheStandard`.
- Package hashing writes backslashes as slashes, so two packages may have the same stream:
  `PluginPackage.BackslashCollides`. They do exactly when their lists of normalised paths and contents agree
  (`PluginPackage.StreamIsInjective`); packages without backslashes are identified
  (`PluginPackage.StreamIdentifiesPackage`), and so are some with them.
- The jitter's multiply-shift misses positions once the span reaches 2^63: `RetryDelay.WidestSpan`,
  `RetryDelay.EveryPositionReached`, and for the delays themselves `RetryDelay.DelaysAreTheInterval`.
- Clamping the backoff in every round differs from clamping it once when a shrinking ratio starts above the
  maximum: `RetryDelay.ClampingEarlyMayDiffer`, `RetryDelay.ClampedOnceExactly`. The graph validation rejects such
  ratios (`crates/core/src/graph/apply.rs:216-225`), so only a direct caller of the public function meets this.

## Model

| member | source | states |
|---|---|---|
| SseParser.SseParser.Push | packages/api-client/src/sse-parser.ts:20-36 | one call turns the old fields and the chunk into the frames, error and new fields of `PushChunk`, loop and both limits included |
| SseParser.SseParser.Finish | packages/api-client/src/sse-parser.ts:38-49 | the last unterminated line and the pending block are read as `FinishAll` says, and nothing else changes |
| SseParser.SseParser.ReadLine | packages/api-client/src/sse-parser.ts:51-69 | one line acts as its parsed command: dispatch, event, data, id or nothing, with the data limit |
| SseParser.SseParser.Dispatch | packages/api-client/src/sse-parser.ts:71-83 | returns the pending frame, if there is data, and leaves all fields reset |
| SseParser.SseParser.ResetFields | packages/api-client/src/sse-parser.ts:85-91 | the interpretation fields return to their initial values, the buffer stays |
| SseParser.PendingWellFormed | packages/api-client/src/sse-parser.ts:71-83 | a frame is emitted exactly when there is data; it has a name and the joined data lines, of length dataLength + lines - 1, with dataLength within the limit |
| SseParser.PushKeepsValid | packages/api-client/src/sse-parser.ts:20-36 | between calls the buffer is the unterminated rest of the input, dataLength is the length of the collected data, and every frame returned is well formed |
| SseParser.DrainMore | packages/api-client/src/sse-parser.ts:26-34 | text that arrives later never changes how the lines before it were read |
| SseParser.ChunkingRefines | packages/api-client/src/sse-parser.ts:20-36 | pushing pieces succeeds exactly when pushing their concatenation does and no partial line outgrows the limit on the way; then frames and final state are the same, wherever the cuts are |
| SseParser.PiecesMayFail | packages/api-client/src/sse-parser.ts:22-24 | the converse fails: pieces of a harmless text that exceed the line limit |
| SseParser.FinishIsTwoLineFeeds | packages/api-client/src/sse-parser.ts:38-49 | `finish` gives what two more line feeds would give |
| SseParser.ParsePrinted | packages/api-client/src/sse-parser.ts:20-91 | a stream written by section 9.2.5 of the WHATWG HTML standard, with fields in any order and any of their three spellings, comments, unknown fields, and LF or CRLF, gives in any accepted chunking exactly the events that section 9.2.6 assigns to its blocks, and nothing is left for `finish` |
| SseParser.WrittenIsRead | packages/api-client/src/sse-parser.ts:51-69 | with a space after the colon, without one, or without a colon, a field gives its value to its name; comments, unknown names and ids with a null character do nothing |
| SseParser.EveryEventCanBeWritten | packages/api-client/src/sse-parser.ts:71-83 | every event with a name and an id without null character is the event of some block |
| RunStream.DurableStep | packages/api-client/src/run-stream-reducer.ts:52-92 | accepting one more event extends the plain fold (cursor, terminal status, refresh count, last 500 events) by exactly that event |
| RunStream.LiveTrafficIsInvisible | packages/api-client/src/run-stream-reducer.ts:38-44 | ephemeral messages and disconnects never change the durable part |
| RunStreamFollow.StreamMessages | packages/api-client/src/run-stream-follow.ts:50-54 | messages are reduced and shown one by one until the reducer throws; every projection shown is the one of `Feed` |
| RunStreamFollow.Follow | packages/api-client/src/run-stream-follow.ts:30-77 | the reconnect loop with its connection states, error classes, aborts and outcome equals the fold of `Connect` over the connections |
| RunStreamFollow.ReduceTransparent | packages/api-client/src/run-stream-reducer.ts:26-36 | one message, old, new or ephemeral, keeps the projection equal to an uninterrupted reading of the log up to its cursor |
| RunStreamFollow.FollowTransparent | packages/api-client/src/run-stream-follow.ts:39-75 | every connection keeps that equality for all projections shown so far |
| RunStreamFollow.ReconnectTransparency | packages/api-client/src/run-stream-follow.ts:36-76 | for any strictly increasing log and any script of connections the durable part of every projection shown equals one plain fold of the log between the initial cursor and its own |
| RunStreamFollow.ReduceForward | packages/api-client/src/run-stream-reducer.ts:56-62 | the cursor of a projection never decreases |
| RunStreamFollow.FollowForward | packages/api-client/src/run-stream-follow.ts:38-54 | without any assumption on the network the cursors shown never decrease, and each connection asks for what follows the last projection shown before it |
| RunStreamFollow.AsksForward | packages/api-client/src/run-stream-follow.ts:45 | hence the cursors asked for never decrease |
| RunStreamFollow.TerminalReturns | packages/api-client/src/run-stream-follow.ts:39-76 | once any projection shown is terminal the run has returned with the connection closed, so no further connection is opened and the status is never lost |
| RunStreamFollow.RunOutcome | packages/api-client/src/run-stream-follow.ts:39-85 | over every script: a further connection is opened only if the one before was neither aborted nor terminal, delivered no message its projection refuses and did not break for good; the run is rejected with `incompatible` exactly when the last connection did one of the last two without being over, and returned with `closed` exactly when it was over; all connection states follow |
| RunStreamFollow.FeedMeans | packages/api-client/src/run-stream-follow.ts:50-66 | the handler throws exactly when some message is refused by the projection it meets, and a connection is terminal exactly when some projection on the way is |
| RunStreamFollow.FeedShows | packages/api-client/src/run-stream-follow.ts:50-54 | each projection shown is the fold of the messages up to it |
| RunStreamFollow.FeedShowsAll | packages/api-client/src/run-stream-follow.ts:50-54 | every message is shown, up to the first one refused |
| LiveText.TotalAfterWrite | packages/api-client/src/run-stream-reducer.ts:119-135 | writing an item changes the total live text by the change of that item |
| LiveText.WithinLimit | packages/api-client/src/run-stream-reducer.ts:119-137 | no message lifts the live text over 256 Ki UTF-16 units |
| LiveText.CutsExactly | packages/api-client/src/run-stream-reducer.ts:119-138 | an accepted piece fills the live text up to the limit, as much of its beginning is written as fits, and `liveTruncated` is set exactly when not all fits |
| LiveText.ActShows | packages/api-client/src/run-stream-reducer.ts:104-149 | each message or disconnect keeps the items equal to a journal of the accepted pieces, block by block |
| LiveText.SelectIsDisplayed | packages/api-client/src/run-stream-reducer.ts:46-50 | sorting the items by order and joining them reads the journal blocks in their order of appearance |
| LiveText.HeardInOrder | packages/api-client/src/run-stream-reducer.ts:110-115 | within a call, pieces are only accepted with increasing sequence numbers |
| LiveText.PassedInOrder | packages/api-client/src/run-stream-reducer.ts:56 | the events that move the cursor have strictly increasing sequence numbers, however they are delivered |
| LiveText.ActAllDurable | packages/api-client/src/run-stream-reducer.ts:52-92 | without any assumption on delivery the durable part is the plain fold of the events that moved the cursor |
| LiveText.RecentEvents | packages/api-client/src/run-stream-reducer.ts:63-76 | recentEvents is the list of the last 500 accepted events in strictly increasing order |
| LiveText.TraceKeeps | packages/api-client/src/run-stream-reducer.ts:64-75 | each keeps the data of its event and the node, edge and queue value that the payload names as texts |
| LiveText.LiveProjection | packages/api-client/src/run-stream-reducer.ts:104-149 | after every message sequence: total within the limit, item orders distinct and below nextLiveOrder, and while nothing was cut the display is the concatenation of the accepted pieces |
| LiveText.FailsExactly | packages/api-client/src/run-stream-reducer.ts:26-59 | a sequence of messages and disconnects fails exactly when some message is of another run, or an event after all before it that is critical and unknown; the error names the first such message |
| LiveText.EndsAreKnown | packages/api-client/src/run-stream-reducer.ts:151-175 | events that end the run or ask for a refresh by name are known, so they are never refused for their name |
| LiveText.LiveTextAfter | packages/api-client/src/run-stream-reducer.ts:78-87 | a new event takes away exactly the live text of the run or node it ends |
| LiveText.StatusIsOfTheLastEnd | packages/api-client/src/run-stream-reducer.ts:81-88 | after any messages and disconnects the status is that of the last event that ended the run |
| LiveText.RefreshAfter | packages/api-client/src/run-stream-reducer.ts:81-90 | a new event asks for a refresh exactly if it ends the run, concerns a wait, or belongs to the listed control, approval, outcome and proposal events |
| TauriTransport.Subscription.Drain | packages/api-client/src/transport.ts:56-62 | entering `drain` while it runs only sets pending; otherwise a query for the cursor starts and pending is cleared |
| TauriTransport.Subscription.HandleEvents | packages/api-client/src/transport.ts:65-72 | the loop delivers exactly the events that pass the cursor check, in order, and leaves the cursor at the last of them |
| TauriTransport.Subscription.OnPage | packages/api-client/src/transport.ts:65-75 | a page delivers its new events in order, moves the cursor, sets pending on 500 events, and either queries again or ends the drain |
| TauriTransport.Subscription.OnQueryError | packages/api-client/src/transport.ts:62-75 | a failed query ends the subscription with draining cleared |
| TauriTransport.Subscription.OnNotification | packages/api-client/src/transport.ts:78 | a notification sets pending and wakes a parked loop |
| TauriTransport.Subscription.OnAbort | packages/api-client/src/transport.ts:81-88 | an abort wakes a parked loop |
| TauriTransport.Subscription.Wait | packages/api-client/src/transport.ts:82-87 | the loop parks, and is woken at once when something is already pending |
| TauriTransport.Subscription.WakeUp | packages/api-client/src/transport.ts:88-90 | after waking the loop drains again unless aborted; then it closes |
| TauriProtocol.FreshOfPage | packages/api-client/src/transport.ts:65-72 | of a page with old events in front, cut anywhere, exactly the events after the cursor are delivered |
| TauriProtocol.StepInv | packages/api-client/src/transport.ts:51-92 | every step of the code and of its environment keeps the invariant of the protocol |
| TauriProtocol.RunInv | packages/api-client/src/transport.ts:51-92 | so does every run |
| TauriProtocol.NoLostWakeUp | packages/api-client/src/transport.ts:51-92 | in every interleaving the delivered events are exactly the log between start and cursor, once each and in order; when no query is in flight and nothing is pending, every announced event is among them |
| TauriProtocol.ParkedMeansIdle | packages/api-client/src/transport.ts:77-91 | a parked loop is woken exactly when something is pending or the signal has fired, any later notification or abort wakes it, and `drain` is never entered twice |
| TauriProtocol.QueriesAreCaused | packages/api-client/src/transport.ts:56-91 | in every run the queries beyond the first are no more than the notifications and full pages: the loop does not poll |
| TauriProtocol.AbortedStep | packages/api-client/src/transport.ts:74-91 | with the signal fired every step of the code goes towards the end, only the first `drain` after `listen` starts a query, and a drained or parked loop closes |
| TauriProtocol.AbortStops | packages/api-client/src/transport.ts:74-91 | in every run, once the signal has fired: at most that one query, at most the page in flight is still delivered, a drained or woken loop closes next, and at most four steps of the code are left |
| TauriProtocol.HowItEnds | packages/api-client/src/transport.ts:60-91 | a subscription closes only on an abort, and breaks exactly when a query fails or an event is not handled |
| JsonPointer.EscapeIsOnePass | crates/core/src/context_merge.rs:160-162 | the two sequential replacements equal one pass that maps each character by itself |
| JsonPointer.UnescapeIsOnePass | crates/core/src/selector.rs:20-23 | on well-formed tokens the order of section 4 of RFC 6901 is a single pass |
| JsonPointer.UnescapeEscape | crates/core/src/context_merge.rs:160-162 | unescaping undoes escaping |
| JsonPointer.EscapeUnescape | crates/core/src/context_merge.rs:160-162 | every well-formed token is the escaped form of its unescaping |
| JsonPointer.ParseRender | crates/core/src/context_merge.rs:146 | reading a built path gives back the key list |
| JsonPointer.RenderInjective | crates/core/src/context_merge.rs:146 | different key lists never share a path |
| JsonPointer.ValidatePointer | crates/core/src/selector.rs:42-58 | the loop accepts exactly the texts of `Accepts` |
| JsonPointer.AcceptsExactlyTheGrammar | crates/core/src/selector.rs:42-58 | accepted texts are exactly the pointers of section 3 of RFC 6901, and these are exactly the paths the merge can build |
| JsonPointer.WalkIsLookup | crates/core/src/selector.rs:20-23 | below objects a pointer selects the member at its keys |
| ContextMerge.ConflictLog.constructor | crates/core/src/context_merge.rs:94 | the conflict list starts empty |
| ContextMerge.MergeValue | crates/core/src/context_merge.rs:100-130 | returns the merged value and appends exactly the conflicts of this subtree, with their paths, to the shared list |
| ContextMerge.MergeObjects | crates/core/src/context_merge.rs:132-158 | the loop over the sorted union of keys merges each member and appends the conflicts in key order |
| ContextMerge.AnalyzeThreeWay | crates/core/src/context_merge.rs:93-98 | the merged document and the complete conflict list |
| ContextMerge.MergedMember | crates/core/src/context_merge.rs:132-158 | a member of merged objects is the merge of the three members |
| ContextMerge.RootIsPresent | crates/core/src/context_merge.rs:95-96 | the fallback to `null` is never taken |
| ContextMerge.SwapSymmetry | crates/core/src/context_merge.rs:93-158 | exchanging source and target lists the same paths in the same order with the two sides exchanged |
| ContextMerge.ResolvingForSourceIsMergingSwapped | crates/core/src/context_merge.rs:93-158 | putting the source, or nothing, at every conflict path of one merge gives exactly the other merge |
| ContextMerge.ConflictsExactly | crates/core/src/context_merge.rs:100-158 | a record is listed if and only if its path lies below objects only, the three values there pairwise differ and are not all objects, and it carries these values |
| ContextMerge.ListedInOrder | crates/core/src/context_merge.rs:139-156 | conflicts come in document order, no path equal to or an ancestor of another |
| ContextMerge.MergeMeaning | crates/core/src/context_merge.rs:100-130 | at every path: in or below a conflict the target is kept; otherwise an unchanged side gives way to the other, equal sides stand, and three pairwise different values merge to an object |
| ContextMerge.MergedKeys | crates/core/src/context_merge.rs:119-158 | three pairwise different objects away from conflicts merge to an object, possibly empty, whose keys are exactly those whose own members are kept |
| ContextMerge.MergeIsDetermined | crates/core/src/context_merge.rs:100-158 | a document that follows this rule at every path is the merged document |
| ContextMerge.EveryPathDecided | crates/core/src/context_merge.rs:107-129 | away from conflicts one of the three rules applies or all three values are objects |
| ContextMerge.ConflictPathsSelect | crates/core/src/context_merge.rs:123-128 | a reported path passes the repository's own validator and selects the record's three values in the three documents |
| ContextMerge.ReportedPathsDistinct | crates/core/src/context_merge.rs:123-128 | reported paths differ as texts |
| NumberLexeme.MatchesExactlyTheGrammar | packages/api-client/src/exact-json.ts:78-79 | the regular expression accepts exactly the numbers of section 6 of RFC 8259 and its groups are the only possible pieces |
| NumberLexeme.BoundedExponent | packages/api-client/src/exact-json.ts:101-110 | succeeds with the exponent exactly when its magnitude is at most 1024 |
| NumberLexeme.ValidateNumberLexeme | packages/api-client/src/exact-json.ts:77-99 | accepts exactly a number with at most 128 coefficient digits, an exponent and a normalised exponent within 1024, and reports the limit that fails |
| NumberLexeme.ExponentLocatesValue | packages/api-client/src/exact-json.ts:87-95 | for a non-zero number the computed exponent e satisfies 10^e <= |v| < 10^(e+1) |
| NumberLexeme.EqualValuesEqualExponents | packages/api-client/src/exact-json.ts:87-95 | lexemes of equal value get equal exponents |
| NumberLexeme.ExponentZerosIrrelevant | packages/api-client/src/exact-json.ts:103 | leading exponent zeros change neither value nor computed exponent |
| CanonicalNumber.AnalyzeNumber | crates/core/src/canonical/number.rs:45-95 | on every number the analysis gives its sign, significant digits and scientific exponent, or the error of the limit that fails first, an `i64` underflow included |
| CanonicalNumber.OverflowDecides | crates/core/src/canonical/number.rs:69-76 | the checked additions refuse a number within its limits exactly when the exponent of its last digit lies below `i64`, and never when digit and exponent limit together fit in `i64` |
| CanonicalNumber.WidestLimitUnderflows | crates/core/src/canonical/number.rs:69-76 | an example at the widest exponent limit |
| CanonicalNumber.SameVerdictAsClient | crates/core/src/canonical/number.rs:45-95 | server and client accept exactly the same number lexemes although they check the limits in a different order |
| CanonicalNumber.AnalysisKeepsValue | crates/core/src/canonical/number.rs:59-81 | the analysis is in normal form and denotes the same number |
| CanonicalNumber.NormalFormUnique | crates/core/src/canonical/number.rs:39-43 | sign and value determine the normal form |
| CanonicalNumber.NormalizeKeepsValue | crates/core/src/canonical/number.rs:5-33 | the printed number is a number of RFC 8259 without exponent and of the same value |
| CanonicalNumber.NormalizeIsCanonical | crates/core/src/canonical/number.rs:5-33 | two accepted numbers print alike exactly when they are equal as numbers |
| CanonicalNumber.NormalizeIsThePlainText | crates/core/src/canonical/number.rs:5-33 | the printed number is the one text of equal value that is an RFC 8259 number without exponent, zeros at the end of its fraction, or a sign on zero |
| CanonicalNumber.PlainUnique | crates/core/src/canonical/number.rs:5-33 | a number has only one such text |
| CanonicalNumber.NormalizeAgain | crates/core/src/canonical/number.rs:5-33 | a printed number can be read and prints the same exactly when its plain notation has at most 128 digits |
| CanonicalNumber.CanonicalTextMayBeRefused | crates/core/src/canonical/number.rs:5-57 | `1e200` has a canonical text that is itself refused |
| CanonicalJson.SortSorts | crates/core/src/canonical.rs:115 | sorting entries of distinct keys orders them and keeps them all |
| CanonicalJson.SortedIteration | crates/core/src/canonical.rs:114-116 | whatever order a map is iterated in, the sorted entries are the same list |
| CanonicalJson.WriteValue | crates/core/src/canonical.rs:93-131 | appends exactly the canonical text of the value, or fails exactly for a number beyond the limits |
| CanonicalJson.WriteItems | crates/core/src/canonical.rs:102-111 | the loop over items writes the text of the array |
| CanonicalJson.WriteMembers | crates/core/src/canonical.rs:112-128 | the loop over sorted entries writes the text of the object |
| CanonicalJson.WithinLimitsIsNormalizable | crates/core/src/canonical.rs:58-91 | once the limits hold, writing cannot fail |
| CanonicalJson.LimitsByPath | crates/core/src/canonical.rs:58-91 | the limits hold exactly when every value inside keeps its own limits and is at most 128 items or members away |
| CanonicalJson.ToVec | crates/core/src/canonical.rs:34-44 | returns the canonical text exactly when the limits hold and it is at most 16 MiB long; it is a text of the normal form whose members ascend by the UTF-8 bytes of their keys at every depth |
| CanonicalJson.TextIsTheText | crates/core/src/canonical.rs:102-128 | a text of a value with members in ascending order of their keys' bytes at every depth is the printed one, and the printed one is such a text |
| Json.BeforeIsByteOrder | crates/core/src/canonical.rs:115 | keys are ordered by their UTF-8 bytes: at the first difference the smaller byte, or a proper prefix, comes first |
| CanonicalReader.ReadText | crates/core/src/canonical.rs:93-131 | a reader inverts the printer on every value, whatever follows the text |
| CanonicalReader.NumbersAreTokens | crates/core/src/canonical.rs:97 | every number lexeme is a token that the reader takes in one run |
| CanonicalReader.NormalDecidesEquality | crates/core/src/canonical.rs:93-131 | normal values are the same exactly when the values are equal as JSON |
| CanonicalReader.TextDeterminesValue | crates/core/src/canonical.rs:93-131 | two values print to the same text exactly when they are equal as JSON: objects as maps, numbers by value |
| CanonicalReader.TextIsSelfDelimiting | crates/core/src/canonical.rs:93-131 | no printed value is a proper prefix of another followed by a terminator |
| DuplicateKeys.SkipString | packages/api-client/src/json-duplicate-keys.ts:9-12 | the inner loop stops at the closing quote, or past the end if there is none |
| DuplicateKeys.RejectDuplicateKeys | packages/api-client/src/json-duplicate-keys.ts:1-31 | the index loop with its frame stack gives the outcome of the recursive scan |
| DuplicateKeys.FirstIsDuplicate | packages/api-client/src/json-duplicate-keys.ts:17 | the first repeated name in reading order exists exactly when some object repeats a name |
| DuplicateKeys.EndOfString | packages/api-client/src/json-duplicate-keys.ts:9-12 | skipping one character after a backslash finds the end of every well-formed string |
| DuplicateKeys.DecodedIsSpelled | packages/api-client/src/json-duplicate-keys.ts:16 | a text between quotes is decoded to a name exactly when it spells its UTF-16 units, unescaped, with short escapes or with four hexadecimal digits of either case |
| DuplicateKeys.CanonicalPiece | crates/core/src/canonical.rs:98-101 | canonical text spells each character as itself, as shortly as possible and with small digits |
| DuplicateKeys.CanonicalKeyIsRead | crates/core/src/canonical.rs:120-123 | a canonical key is decoded to the UTF-16 units of the key |
| DuplicateKeys.ScanValue | packages/api-client/src/json-duplicate-keys.ts:4-30 | scanning a rendered value where no key is expected has no effect but its first duplicate; strings there never count as keys |
| DuplicateKeys.ScanMembers | packages/api-client/src/json-duplicate-keys.ts:13-28 | scanning the members of an object reports the first name already seen and otherwise leaves the outer frames as they were |
| DuplicateKeys.ScannerIsExact | packages/api-client/src/json-duplicate-keys.ts:1-31 | on every text of the grammar of RFC 8259 the scanner rejects exactly when some object has two members of equal decoded name |
| UnicodeText.ValidateUnicodeScalars | packages/api-client/src/exact-json.ts:155-166 | accepts exactly the UTF-16 texts that encode some Unicode scalar values |
| UnicodeText.PairedMeansEncoded | packages/api-client/src/exact-json.ts:155-166 | pairing of surrogates is the same as being an encoding, and of only one list of scalar values |
| UnicodeText.PairsAscend | packages/api-client/src/exact-json.ts:155-166 | pairs ascend with the characters they stand for, high unit first |
| RegexRules.TrimTrims | packages/sillytavern-compat/src/regex.ts:40 | trimming leaves no white space at the ends and changes nothing without it |
| RegexRules.TrimIsExact | packages/sillytavern-compat/src/regex.ts:40 | the trimmed text is the one text without white space at its ends that leaves only white space around it |
| RegexRules.ReplaceLeavesNoMatch | packages/sillytavern-compat/src/regex.ts:33-34 | one pass over `{{match}}` leaves none: `$0` never completes another |
| RegexRules.FirstMatchReplaced | packages/sillytavern-compat/src/regex.ts:33-34 | everything up to the first match macro stays, the macro becomes `$0`, and the rest is treated alike |
| RegexRules.Fixed | packages/sillytavern-compat/src/regex.ts:33-34 | a replacement is left unchanged exactly when it holds no `{{match}}` |
| RegexRules.SplitRegex | packages/sillytavern-compat/src/regex.ts:98-106 | the loops split at the last slash preceded by an even number of backslashes |
| RegexRules.SplitIsExact | packages/sillytavern-compat/src/regex.ts:98-106 | that split is the only one with an unescaped closing slash and none after it |
| RegexRules.FirstMacroFilled | packages/sillytavern-compat/src/regex.ts:88 | everything up to the first macro stays, the macro becomes one fixed word, and the rest is treated alike |
| RegexRules.MacroIsBracedWord | packages/sillytavern-compat/src/regex.ts:88 | a word in double braces is a macro, whatever follows |
| RegexRules.MacroHasWord | packages/sillytavern-compat/src/regex.ts:88 | and every macro is one |
| RegexRules.DistinctIsDistinct | packages/sillytavern-compat/src/regex.ts:74 | collecting into a set keeps each element once and changes nothing without repetitions |
| RegexRules.ParsedIsSettled | packages/sillytavern-compat/src/regex.ts:29-51 | every rule the importer makes has the settled shape: trimmed bounded id, compiled replacement, distinct targets, one of four surface lists, valid depths |
| RegexRules.PlacementsMean | packages/sillytavern-compat/src/regex.ts:53-75 | a lone 0 stands for 1, 2, 3, 5 and 6; a 4 that is alone but for zeros leaves the inactive 3; otherwise 0 and 4 are dropped, 1, 2, 5 and 6 become targets and all other numbers are inactive, each once and in order |
| RegexRules.ImportedPlacements | packages/sillytavern-compat/src/regex.ts:53-84 | so it is for every imported rule; it acts on display or prompt exactly when flagged so or a placement is 0, and on the canonical text exactly when on neither |
| RegexRules.ImportedFields | packages/sillytavern-compat/src/regex.ts:32-48 | a field counts exactly when it has the right type and range, and otherwise as if it were missing |
| RegexRules.PlacementsBack | packages/sillytavern-compat/src/export.ts:77 | exported placements read back as the same targets, none legacy and none inactive |
| RegexRules.SettledComesBack | packages/sillytavern-compat/src/export.ts:76-79 | importing an exported settled rule gives the rule again, at its new position |
| RegexRules.RuleRoundTrip | packages/sillytavern-compat/src/export.ts:76-79 | export and import restore a rule exactly when it has the settled shape |
| RuleImport.ImportParts.constructor | packages/sillytavern-compat/src/support.ts:28-34 | the views of the base spec, without warnings |
| RuleImport.ImportParts.TargetsAndInactive | packages/sillytavern-compat/src/regex.ts:53-75 | the targets and inactive placements after migration of legacy values, and exactly the warnings for them |
| RuleImport.ImportParts.Migrate | packages/sillytavern-compat/src/regex.ts:54-63 | legacy placements 0 and 4 are migrated as a lone value or dropped among others |
| RuleImport.ImportParts.Classify | packages/sillytavern-compat/src/regex.ts:64-73 | placements are sorted into targets and inactive ones in order, with a warning for each inactive one |
| RuleImport.WarnsExactly | packages/sillytavern-compat/src/regex.ts:38-75 | a warning is given exactly for a legacy 0 or 4, an inactive 3, any other inactive placement and an unknown substitution mode |
| RuleImport.ImportParts.ParseRule | packages/sillytavern-compat/src/regex.ts:29-51 | one entry gives its view or its error, and its warnings are appended |
| RuleImport.ImportParts.ParseAll | packages/sillytavern-compat/src/regex.ts:23-27 | an array of at most 256 entries gives all views in order or its first error |
| RuleImport.ImportParts.InstallRules | packages/sillytavern-compat/src/support.ts:56-61 | each rule replaces the view of its id or is appended, then the views are sorted |
| RuleImport.ImportRules | packages/sillytavern-compat/src/regex.ts:9-21 | the rules of a top-level array or of both embedded arrays, or the first error |
| RuleImport.PreviewImport | packages/sillytavern-compat/src/import.ts:10-32 | a fresh state is changed step by step into the views of `Preview`, or the first error in the order of the source: kind, cloning of the base spec, prompt order, rules, writing of the document; the last, empty installation changes nothing |
| RuleImport.SortSorts | packages/sillytavern-compat/src/support.ts:61 | the sort orders by priority, then order, and keeps all views |
| RuleImport.SortIsStable | packages/sillytavern-compat/src/support.ts:61 | views of equal key keep their order |
| RuleImport.SortBlock | packages/sillytavern-compat/src/support.ts:61 | appending a sorted block and sorting moves it as a whole in front of what belongs behind it |
| RuleImport.FirstErrorStays | packages/sillytavern-compat/src/regex.ts:26 | the first failing entry decides the error |
| RuleRoundTrip.LastImportWins | packages/sillytavern-compat/src/support.ts:57-60 | after an installation each id shows its last imported rule, or the one it had, and ids stay distinct |
| RuleRoundTrip.PreviewKeeps | packages/sillytavern-compat/src/import.ts:10-24 | an import keeps ids distinct, views sorted and every rule settled |
| RuleRoundTrip.RunInvariant | packages/sillytavern-compat/src/import.ts:10-24 | so does every run of imports that starts without a spec |
| RuleRoundTrip.PresetIsOpenAi | packages/sillytavern-compat/src/detect.ts:9 | the exported preset document is recognized and has a prompt order |
| RuleRoundTrip.PresetImport | packages/sillytavern-compat/src/export.ts:20-23 | it carries exactly the rules of the preset scope |
| RuleRoundTrip.GlobalImport | packages/sillytavern-compat/src/export.ts:24-25 | the global document is recognized as rules of the global scope |
| RuleRoundTrip.CharacterImport | packages/sillytavern-compat/src/export.ts:26-27 | the character document is recognized as rules of the character scope |
| RuleRoundTrip.TripOfGood | packages/sillytavern-compat/src/export.ts:20-28 | for settled rules with distinct ids and small scopes the trip fails exactly when a document or an intermediate spec exceeds the JSON limits, and otherwise gives the rules scope by scope, numbered from 0 |
| RuleRoundTrip.Overflow | packages/sillytavern-compat/src/regex.ts:25 | with more than 256 rules in a scope the trip fails |
| RuleRoundTrip.ScopeByScopeIsRenumbered | packages/sillytavern-compat/src/export.ts:75 | for ascending scopes that is the original list with orders renumbered |
| RuleRoundTrip.RoundTrip | packages/sillytavern-compat/src/export.ts:20-28 | for every rule list: exporting and importing gives it back up to renumbering exactly when all rules are settled, ids distinct, scopes ascending, no scope above 256 and nothing on the way beyond the JSON limits |
| RuleRoundTrip.ProducedRoundTrip | packages/sillytavern-compat/src/import.ts:10-32 | a spec from any run of imports survives the trip exactly when no scope has more than 256 rules and nothing on the way exceeds the JSON limits |
| RuleRoundTrip.ScopesCanOverflow | packages/sillytavern-compat/src/regex.ts:25 | two importable documents of 200 rules each leave a spec whose trip fails |
| TextTransforms.SearchFinds | packages/sillytavern-compat/src/execute.ts:45 | `exec` finds a match at or after an aligned lastIndex, inside the input; a sticky one only at lastIndex |
| TextTransforms.LoopTerminates | packages/sillytavern-compat/src/execute.ts:44-50 | the loop ends exactly when it replaces at most one match or visits no empty match in front of a surrogate pair under the flag `u` |
| TextTransforms.UnblockedTerminates | packages/sillytavern-compat/src/execute.ts:44-50 | it ends when no position has an empty match in front of a pair, in particular without the flag `u` and on inputs without pairs |
| TextTransforms.BlockedAtStart | packages/sillytavern-compat/src/execute.ts:44-50 | a global pattern with such a match at position 0 does not end |
| TextTransforms.EmptyPatternMayNotTerminate | packages/sillytavern-compat/src/execute.ts:48-49 | the empty pattern on one surrogate pair does not end with `gu` and ends with `u` |
| TextTransforms.ReplaceableGoRight | packages/sillytavern-compat/src/execute.ts:44-50 | the matches replaced run from left to right, disjoint and inside the input; non-global or sticky patterns have at most one |
| TextTransforms.NoMatchIsMissed | packages/sillytavern-compat/src/execute.ts:43-50 | every place where a global pattern matches belongs to a replaced match; otherwise the leftmost match is replaced, and with `y` only one at the start |
| TextTransforms.InputIsWoven | packages/sillytavern-compat/src/execute.ts:46-51 | gaps and matches together are the input |
| TextTransforms.OutputIsWoven | packages/sillytavern-compat/src/execute.ts:46-51 | the output has the same gaps verbatim with the replacements between them |
| TextTransforms.ReplacedByItself | packages/sillytavern-compat/src/execute.ts:46-51 | replacing each match by itself gives the input back |
| TextTransforms.TemplateMeans | packages/sillytavern-compat/src/execute.ts:54-64 | a replacement template means what its literal units, `$$`, `` $` ``, `$'` and trimmed `$&`, numbered and named references mean, each resolved once |
| TextTransforms.TemplateOf | packages/sillytavern-compat/src/execute.ts:54-62 | and every text is made of such parts, a dollar sign that begins no reference being one of them |
| TextTransforms.FirstIsReplaced | packages/sillytavern-compat/src/execute.ts:66-72 | `replaceAll` keeps everything up to the first occurrence, fills the occurrence in and goes on behind it |
| TextTransforms.NothingToReplace | packages/sillytavern-compat/src/execute.ts:66-72 | without an occurrence nothing changes |
| TextTransforms.FillMeans | packages/sillytavern-compat/src/execute.ts:70-72 | a value is filled in like a template at a match without groups, so a value without dollar signs stands as it is |
| TextTransforms.FillingOf | packages/sillytavern-compat/src/execute.ts:70-72 | and every value is made of the parts this knows |
| TextTransforms.MacrosInOrder | packages/sillytavern-compat/src/execute.ts:70-72 | macros are filled in from first to last, each in what the ones before it left |
| TextTransforms.TrimsInOrder | packages/sillytavern-compat/src/execute.ts:66-68 | trim strings are taken out from first to last, with their macros filled in |
| TextTransforms.ReplaceMatches | packages/sillytavern-compat/src/execute.ts:43-51 | the loop over `exec` with cursor and lastIndex returns the input with exactly the visited matches replaced |
| TextTransforms.ApplyTextTransforms | packages/sillytavern-compat/src/execute.ts:17-32 | the loop over rules returns the text and applied ids, or the first limit or pattern error |
| TextTransforms.ContextSelects | packages/sillytavern-compat/src/execute.ts:24-38 | the context does nothing but select rules: the list acts as its rules that are enabled, allowed on edits, aimed at target and surface and within their inclusive depth bounds, each tried in turn |
| TextTransforms.InertRulesDoNothing | packages/sillytavern-compat/src/execute.ts:24-38 | a list of other rules changes nothing and cannot fail |
| TextTransforms.InertRulesMayBeDropped | packages/sillytavern-compat/src/execute.ts:24-38 | lists with the same acting rules have the same text, applied ids and errors |
| TextTransforms.EncodedLengthIsUtf8 | packages/sillytavern-compat/src/execute.ts:22-29 | the measured length of a well-formed text is the number of its UTF-8 bytes |
| TextTransforms.PlacesDoNotMatter | packages/sillytavern-compat/src/execute.ts:24-31 | priority and order of rules in a list have no influence on its application |
| TextTransforms.TripKeepsMeaning | packages/sillytavern-compat/src/execute.ts:17-32 | when a produced spec survives the trip, neither text nor applied ids change, for any input, context and pattern engine |
| RetryDelay.NextBase | crates/core/src/scheduler.rs:423-424 | the product never saturates in 128 bits: the next base is the clamped floor step |
| RetryDelay.BaseIsTheShare | crates/core/src/scheduler.rs:422-425 | below the maximum the next base is the ratio's share of the one before, rounded down, bounded on both sides |
| RetryDelay.WholeRatio | crates/core/src/scheduler.rs:420-425 | for a whole ratio the base is the start times its power, cut at the maximum |
| RetryDelay.ClampedOnce | crates/core/src/scheduler.rs:421-425 | clamping in every round equals clamping the free iteration once, for ratios of at least one or a start within the maximum |
| RetryDelay.ClampedOnceExactly | crates/core/src/scheduler.rs:421-425 | clamping in every round and clamping once agree at all ordinals exactly when the ratio is at least one, the start within the maximum, the maximum zero, or the first steps from start and maximum the same |
| RetryDelay.ClampingEarlyMayDiffer | crates/core/src/scheduler.rs:421-425 | an example outside that condition, which the graph validation rejects |
| RetryDelay.BaseGrows | crates/core/src/scheduler.rs:421-425 | for ratios of at least one the base never decreases with the ordinal |
| RetryDelay.PositionInRange | crates/core/src/scheduler.rs:438-439 | the multiply-shift stays within 0 and twice the span and below 2^64 |
| RetryDelay.SpanIsTheShare | crates/core/src/scheduler.rs:426-427 | up to the 64-bit maximum the span is the jitter's share of the base, rounded down, bounded on both sides |
| RetryDelay.PositionIsTheShare | crates/core/src/scheduler.rs:438-439 | the position is the random number's share of all positions, rounded down, exactly while the product fits 128 bits |
| RetryDelay.Reached | crates/core/src/scheduler.rs:438-439 | below a span of 2^63 a given random number reaches a given position |
| RetryDelay.EveryPositionReached | crates/core/src/scheduler.rs:438-439 | every position is reached exactly when the span is below 2^63 |
| RetryDelay.WidestSpan | crates/core/src/scheduler.rs:426-439 | a valid policy whose span is beyond 2^63 and whose last position is not reached |
| RetryDelay.DelayInRange | crates/core/src/scheduler.rs:440-445 | the delay lies between base minus span and the lesser of base plus span and the maximum |
| RetryDelay.DelayIsThePosition | crates/core/src/scheduler.rs:440-445 | for a valid policy the delay is the position counted from the low end of the interval, cut at the maximum |
| RetryDelay.DelayGrows | crates/core/src/scheduler.rs:437-445 | a larger random number never gives a smaller delay |
| RetryDelay.DelaysAreTheInterval | crates/core/src/scheduler.rs:420-446 | for a valid policy the possible delays are exactly the interval around the base, cut at the maximum, if and only if the span is at most 2^63 |
| RetryDelay.ValidSpan | crates/core/src/graph/apply.rs:216-225 | for a policy that validation accepts the span is at most the base |
| RetryDelay.RetryDelayMs | crates/core/src/scheduler.rs:420-446 | the loop and the jitter compute the delay of `Delay`, in 64 bits |
| SchemaWalk.SchemaWalker.constructor | crates/core/src/schema.rs:116-117 | counters start at zero |
| SchemaWalk.SchemaWalker.Schema | crates/core/src/schema.rs:166-185 | one schema changes the shared counters and issues as `Walk` says |
| SchemaWalk.SchemaWalker.Members | crates/core/src/schema.rs:186-247 | members are walked in key order |
| SchemaWalk.SchemaWalker.Member | crates/core/src/schema.rs:187-245 | one keyword is checked or walked into |
| SchemaWalk.SchemaWalker.Subschemas | crates/core/src/schema.rs:197-229 | the subschemas of a keyword are walked one level deeper, in order |
| SchemaWalk.SchemaWalker.Ref | crates/core/src/schema.rs:249-267 | a reference is checked, recorded and counted |
| SchemaWalk.WalkAgrees | crates/core/src/schema.rs:166-247 | from any shared state a subtree adds no issue exactly when all its positions are acceptable and fit the remaining limits, and then adds exactly its positions and references |
| SchemaWalk.LookCounts | crates/core/src/schema.rs:192-229 | a position is counted once if it is reached from the root by the walked applicators, and otherwise not at all |
| SchemaWalk.LookShows | crates/core/src/schema.rs:186-267 | a reference or a fault is seen exactly when it occurs at a walked position, at that depth |
| SchemaWalk.ShapesCompared | crates/core/src/schema.rs:192-229 | the walked applicators are those of section 10 of JSON Schema Core 2020-12 and `$defs`, listed by their sections, all but `additionalProperties` |
| SchemaWalk.AllowedByVocabulary | crates/core/src/schema.rs:277-325 | the allowed keywords are those of the core, applicator, validation and annotation vocabularies named in the source |
| SchemaWalk.LocalReferences | crates/core/src/schema.rs:260 | exactly references within the document are local |
| SchemaWalk.WalkIsExact | crates/core/src/schema.rs:116-126 | a document has no issue exactly when every walked schema is acceptable at its depth and positions and distinct references are within limits; then `nodes` and `refs` are exact |
| SchemaWalk.WiderLimits | crates/core/src/schema.rs:55-70 | a document without issues under some limits has none, and the same counts, under limits they fit within |
| SchemaWalk.NodesCountTheStandard | crates/core/src/schema.rs:227-244 | `nodes` is the number of positions of section 10 of JSON Schema Core 2020-12 exactly when no walked schema has `additionalProperties` |
| SchemaWalk.AdditionalIsNotCounted | crates/core/src/schema.rs:227-244 | a document without issues that has one walked and two standard positions |
| PluginPackage.CollectFiles | crates/plugin-host/src/package.rs:67-110 | for every enumeration order the worklist ends, succeeds exactly for acceptable trees with the sorted list of all files, and otherwise reports a fault that the tree has |
| PluginPackage.TakeAny | crates/plugin-host/src/package.rs:72-106 | counts and sizes of a directory do not depend on the order of its entries |
| PluginPackage.CountsEachFile | crates/plugin-host/src/package.rs:98-100 | the files counted are the regular files of the tree, once each |
| PluginPackage.ListingIsUnique | crates/plugin-host/src/package.rs:108-109 | a tree has exactly one sorted listing |
| PluginPackage.SortAscends | crates/plugin-host/src/package.rs:108 | sorting distinct paths gives a strictly ascending list of the same paths |
| PluginPackage.NameIsByteOrder | crates/plugin-host/src/package.rs:108 | names are ordered by their bytes |
| PluginPackage.PathIsComponentOrder | crates/plugin-host/src/package.rs:108 | paths are ordered by their first differing component, and a path comes before what lies below it |
| PluginPackage.HashFiles | crates/plugin-host/src/package.rs:112-127 | the hashed stream is that of the normalised paths and contents, or an error exactly for a path that is not UTF-8 |
| PluginPackage.StreamReads | crates/plugin-host/src/package.rs:123-126 | a reader recovers the list of paths and contents from the stream |
| PluginPackage.StreamIsInjective | crates/plugin-host/src/package.rs:123-126 | equal streams mean equal lists |
| PluginPackage.StreamIdentifiesPackage | crates/plugin-host/src/package.rs:112-127 | without backslashes in names, streams are equal exactly when the packages have the same files with the same contents |
| PluginPackage.BackslashCollides | crates/plugin-host/src/package.rs:112-127 | two different packages, a file `a\b` and a file `b` in a directory `a`, have the same stream |
| PluginPackage.HexDigits | crates/plugin-host/src/package.rs:131-139 | digits 2i and 2i+1 are the high and the low half of byte i |
| PluginPackage.Hex | crates/plugin-host/src/package.rs:131-139 | the loop writes two digits a byte |

## Left out

- Characters: `TextTransforms`, `LiveText`, `UnicodeText` and the names of `DuplicateKeys` are in UTF-16 units; elsewhere a `string` holds Unicode scalar values, so the length limits of `SseParser` and `RegexRules` count a character outside the basic plane once where the source counts two units.
- Transport plumbing: HTTP requests, decoding of event frames, Tauri and Git calls, SQLite; their results enter as messages, pages and errors.
- Timing: only the order of steps is modelled, not the delay of the reconnect backoff or of waits.
- Concurrency inside one page: an abort between two events of a page is a cut of the page, since the handler runs synchronously.
- `parseBoundedNumber`, `validateJsonTree` and the byte limits of `parseJsonExact`: one branch each, over library parsers.
- Append-only arrays (`context_merge/append.rs`) and the scheduler's stores: not part of this model.
- SHA-256, `new RegExp`, the match of a pattern at one position and the FNV token of a generated rule id: parameters. Patterns with macros filled in are part of the compiler parameter.
- Array index syntax of JSON Pointers: a parameter of the selector; conflict paths never pass through arrays.
- Importing prompts, markers, generation settings and warnings outside the rule path; base specs whose rule entries are malformed.
- Fractional priorities, orders and depths in rule specs: the importer never produces them.
- I/O errors while a package is read, and files that change between listing and hashing; manifest and entrypoint checks.
- PluginPackage.CollectFiles: of several faults any one may be reported, because that depends on the enumeration order.
- PluginPackage.StreamIdentifiesPackage: paths and contents shorter than 2^64 bytes, which every real machine guarantees; names compare as bytes, as on Unix.
- SchemaWalk: issue paths are token lists, not rendered pointers; the schema compiler that runs after the walk and the byte limit of the whole spec are not modelled.
- TextTransforms.ReplaceMatches: requires that the loop ends (`Terminates`); inputs on which the source does not return are covered by `LoopTerminates`.
- TextTransforms.ApplyTextTransforms: requires the same of every rule it applies.
