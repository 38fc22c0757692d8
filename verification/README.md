# Kineticz: a verified model

Kineticz repairs a broken data pipeline by asking a language model for a diff,
pinning the diff to the source file, gating it, committing it and recording each
step in a hash-chained ledger. This project models the parts where correctness
is decided and proves what they guarantee.

- **Patches** (`Lines`, `Patch`, `PatchTheorems`, `PatchUndo`). The diff's line
  numbers are ignored: each hunk goes to the only line start where its old side
  occurs, and a strict line applier runs there. A patch has one meaning, succeeds
  under an exact condition on bytes, and can be undone.
- **Ledger** (`FixedWidth`, `Timestamps`, `Audit`, `Ledger`, `LedgerTheorems`,
  `HeadTheorems`). The canonical encoding can be read back; an accepted chain
  fixes its own order and, by its last hash, all its content; every run of appends
  builds a tree, and the exact conditions are given under which the full walk and
  the startup check accept it.
- **Correlation tokens** (`Corr`), the **signature gate** (`Signatures`), its
  **deduplication** (`Gate`), the **repair loop** (`Repair`, `RepairTheorems`), the
  **diagnose fan-out** (`Diagnose`), the **Phoenix session** (`Phoenix`), the
  **orchestrator and commit step** (`Pipeline`) and the **webhook receiver**
  (`Receiver`). Concurrent parts are state machines over their atomic steps, with
  theorems about every interleaving.
- **Everything together** (`EndToEnd`, `EndToEndProgress`). One state machine of deliveries, the shared
  ledger, one pipeline goroutine per started event and the one gate they all call. In
  every reachable state an event id has at most one commit, every commit's bytes are an
  approved patch that the local check allows, and a pipeline has left exactly one of
  PIPELINE_COMPLETE and PIPELINE_FAILED when it has finished. Every pipeline can finish,
  and over all runs exactly those patches can be committed.

SHA-256 (FIPS 180-4) and Ed25519 (section 5.1 of RFC 8032) are function parameters:
results hold for any functions with 32-byte digests and, where signatures matter,
with the law that a signature made with a key verifies. No theorem assumes that
collisions do not exist; a chain theorem says that its claim holds or that two
entries in hand have different encodings and the same hash. A database transaction
is one atomic step, as the store's interface comment promises. Clocks, network
answers, timers and the model's replies are inputs.

The code and its own comments disagree in five places. The model follows the code
and states exactly when the comment holds, as a condition that can be checked on the
input:

- `lineMatches` is said to be an exact line match; an old side whose last line lacks
  its newline can match the front of a longer line. It is one, in every file, exactly when
  that last line has its newline (`SearchMatchesLinesExactly`); the strict applier refuses
  such a match (`UnterminatedPrefixIsRefused`, `PatchSucceedsExactly`).
- Exported signatures are said to be compared. Results print one type per field, so a
  change in their number can go unseen exactly when there are any
  (`ResultCountIsSeenExactly`, `GateSeesResultCountsExactly`); type parameters are never
  compared. Between files that group no results the comparison is exact
  (`AllowedKeepsResults`).
- The chain walk and the startup check read entries by timestamp, and when truncated
  timestamps tie or the clock goes back they can refuse an intact ledger. The walk
  accepts it exactly when timestamps strictly increase (`EveryReadingAcceptedExactly`);
  the startup check exactly when the newest timestamp is shared or the two newest entries
  are single and were inserted in their order (`HeadAcceptedExactly`,
  `RefusedLedgerIsReachable`). By the same tie rule it notices that the newest entry's
  predecessor is missing exactly when the newest timestamp left is unshared
  (`DeletionIsRefusedExactly`).
- A Phoenix client is said to reconnect its own failed session; a reset closes whatever
  session is current. No session is closed under its query exactly when the query has the
  client to itself (`SessionsStayOpenExactly`, `ResetCanCloseAnotherQuerysSession`).
- An event id is said to identify a delivery; it does exactly when the colon between
  event name and sync id is the only one inside it (`EventIdSeparatesExactly`,
  `EventIdsCanClash`).

## Model

| member | source | states |
|---|---|---|
| Lines.BlockAtLine | internal/commit/coordinator.go:163-166 | at a line start, a block of lines occurs as bytes and ends on a line end if and only if those lines are the file's lines there |
| Patch.LineMatches | internal/commit/coordinator.go:167-183 | returns, strictly increasing, exactly the numbers of all line starts that carry the block |
| Patch.MatchesExact | internal/commit/coordinator.go:167-183 | the search's specification: increasing, sound and complete |
| PatchTheorems.WholeLineMatches | internal/commit/coordinator.go:163-183 | for newline-terminated lines the byte search equals matching on the split line sequence |
| PatchTheorems.SearchMatchesLinesExactly | internal/commit/coordinator.go:163-183 | for a block of lines: the byte search finds the places where the file has those lines, in every file, if and only if the last line has its newline |
| Patch.PinHunk | internal/commit/coordinator.go:141-156 | one hunk: its only match, or the first applicable of the three refusals |
| Patch.ReanchorFragments | internal/commit/coordinator.go:138-161 | positions become the pinned ones; on failure the error, with earlier hunks pinned and later ones untouched |
| Patch.ApplyDiff | internal/commit/coordinator.go:114-130 | result and error are a function of the source and the hunk lines alone; incoming positions never matter |
| PatchTheorems.OneMeaning | internal/commit/coordinator.go:114-183 | if the hunks can be pinned, the only positions the strict applier accepts are the pinned ones |
| PatchTheorems.PinFailsExactly | internal/commit/coordinator.go:147-158 | which refusal is reported, and when none is |
| PatchTheorems.PatchSucceedsExactly | internal/commit/coordinator.go:122-161 | success if and only if old sides are whole lines, non-empty, each at one line start only, disjoint in order and ending on line ends; the output is then that splice |
| PatchTheorems.TerminatedPatchSucceedsExactly | internal/commit/coordinator.go:122-161 | for newline-terminated old lines: unique and disjoint is exactly the condition |
| PatchUndo.OverlapIsRefused | internal/commit/coordinator.go:154-158 | increasing starts do not exclude overlap; the strict applier refuses it |
| PatchUndo.UnterminatedPrefixIsRefused | internal/commit/coordinator.go:163-183 | a concrete unterminated old line that is pinned and then refused |
| PatchUndo.UndoLines | internal/commit/coordinator.go:125-129 | on line sequences, swapped hunks at shifted positions restore the source, for all hunks and positions |
| PatchUndo.PatchCanBeUndone | internal/commit/coordinator.go:114-161 | the patched file patched with the swapped hunks is the original file, byte for byte, whenever the lines left are lines of a file, at its unterminated end too |
| PatchUndo.TerminatedHunksLeaveLines | internal/commit/coordinator.go:114-161 | hunks of newline-terminated lines always leave lines of a file |
| PatchUndo.LineCountChange | internal/commit/coordinator.go:114-161 | the line count changes by added minus removed, whenever the lines left are lines of a file |
| PatchUndo.EveryLineStandsWhereItShould | internal/commit/coordinator.go:138-161 | by its mark, every context or deleted line is the file's line at the pinned position plus the context and deleted lines before it, and every context or added line is the output's line at the shifted position plus the context and added lines before it |
| PatchUndo.OldSide | internal/commit/coordinator.go:141-146 | the old side is the context and deleted lines, in order and nothing else |
| Timestamps.ParseFormat | internal/audit/audit.go:53 | the timestamp text, with stripped fractional zeros, determines the instant |
| Timestamps.FormatText | internal/audit/audit.go:53 | the literal places of the separators and digits; the fraction has no trailing zero, and at most three digits for whole milliseconds |
| Timestamps.KeyIsChronological | internal/audit/mongodb/mongo_store.go:89-113 | the order the store sorts by is that of the instants |
| Audit.DecodeCanonical | internal/audit/audit.go:47-62 | a decoder undoes the length prefixes and the timestamp text |
| Audit.CanonicalInjective | internal/audit/audit.go:42-55 | different covered fields have different encodings |
| Audit.CanonicalLayout | internal/audit/audit.go:38-62 | where each of the five fields stands, behind its length in eight bytes, and that nothing else is there |
| FixedWidth.BigEndianBytes | internal/audit/audit.go:57-62 | the eight bytes of a length, the most significant first |
| Audit.Buffer.WriteLengthPrefixed | internal/audit/audit.go:57-62 | appends the 8-byte big-endian length and the bytes |
| Audit.EntryRef.CanonicalBytes | internal/audit/audit.go:47-55 | the buffer ends up holding the canonical encoding |
| Audit.EntryRef.Chain | internal/audit/audit.go:69-72 | sets hash and signature and nothing else |
| Audit.ChainedVerifies | internal/audit/audit.go:69-85 | a chained entry verifies against its own link, covered fields unchanged |
| Audit.VerifyChain | internal/audit/audit.go:101-115 | valid if and only if every entry passes; otherwise the first failure, its id and reason, after an accepted prefix |
| Audit.ChainAcceptedExactly | internal/audit/audit.go:74-115 | accepted if and only if every entry carries the hash before it, the hash of its own covered fields, and a signature over it that verifies |
| Audit.ForeignSignatureStopsWalk | internal/audit/audit.go:96-115 | an entry with a foreign signature, after sound ones, is reported at its index with that reason |
| Audit.HashesDistinct | internal/audit/audit.go:74-115 | all hashes of an accepted chain differ, or two of its entries collide |
| Audit.DrawnChainIsPrefix | internal/audit/audit.go:96-115 | a list drawn from an accepted chain (reordered, cut, repeated) is accepted if and only if it is a prefix, or two entries collide |
| Audit.HeadHashAnchors | internal/audit/audit.go:38-55 | accepted chains with the same last hash agree in length and all covered fields, or two entries collide |
| Audit.InteriorTamperingIsNoticed | internal/audit/audit.go:96-100 | altering an interior entry, even re-hashed and re-signed, is refused, or the two entries collide |
| Ledger.Store.Latest | internal/audit/mongodb/mongo_store.go:89-100 | some entry with the largest timestamp, ties resolved arbitrarily |
| Ledger.Store.Penultimate | internal/audit/mongodb/mongo_store.go:102-113 | some entry that is second in some order by descending timestamp |
| Ledger.Store.Insert | internal/audit/mongodb/mongo_store.go:115-123 | refuses a stored non-empty event id, else appends |
| Ledger.Store.HasEntry | internal/audit/mongodb/mongo_store.go:125-144 | true if and only if a FIVETRAN_RECEIVED entry carries the non-empty id; an error when the lookup fails |
| Ledger.Writer.AppendInternal | internal/audit/mongodb/writer.go:118-149 | the outcome for every fault; on error the ledger is unchanged, else one entry linked to a latest one is added |
| Ledger.AppendedExactly | internal/audit/mongodb/writer.go:118-149 | each field of the one entry an append adds, its truncated timestamp, hash, signature and link |
| Ledger.AppendFailsExactly | internal/audit/mongodb/writer.go:118-149 | when an append fails, and with which error when several faults are there |
| Ledger.Writer.LoadHead | internal/audit/mongodb/writer.go:57-86 | checks a latest entry against a penultimate one, or against itself on a tie |
| Ledger.HeadCheckedExactly | internal/audit/mongodb/writer.go:57-86 | accepted if and only if the link holds by the tie rule, and the hash and the signature hold; otherwise the first of the three that fails |
| LedgerTheorems.RunKeepsInv | internal/audit/mongodb/writer.go:118-149 | in every state of every run each entry verifies, links to an entry that was then a latest one, and event ids are unique |
| LedgerTheorems.LedgerIsATree | internal/audit/mongodb/writer.go:118-149 | one root, every other entry links to an earlier one, all verify, event ids unique, for any clock |
| LedgerTheorems.ReadBackVerifiesExactly | internal/audit/mongodb/writer.go:129-133 | a hash survives the database's millisecond timestamps if and only if the timestamp was truncated before hashing |
| LedgerTheorems.ReadingAcceptedExactly | internal/audit/mongodb/mongo_store.go:146-169 | a timestamp-sorted reading is accepted if and only if it is the insertion order and the links form a line |
| LedgerTheorems.EveryReadingAcceptedExactly | internal/audit/mongodb/mongo_store.go:146-169 | every reading is accepted if and only if timestamps strictly increase |
| HeadTheorems.WriterBuiltHeadIsAccepted | internal/audit/mongodb/writer.go:57-86 | a writer-built ledger with a tie at most between its last two entries passes |
| HeadTheorems.DeletionIsRefusedExactly | internal/audit/mongodb/writer.go:57-86 | with the entry that a newest entry links to deleted, on any clock: every answer is refused as a broken link if and only if the newest timestamp left is unshared, and every answer passes if it is shared; or two entries collide, or the deleted one has a twin |
| HeadTheorems.DeletionUnderHeadIsRefused | internal/audit/mongodb/writer.go:64-66 | on a strictly increasing clock, deleting the entry before the newest is always refused, or two entries collide |
| HeadTheorems.HeadAcceptedExactly | internal/audit/mongodb/writer.go:57-86 | every answer of the store passes if and only if there is at most one entry, or the newest timestamp is shared, or the newest and second newest entries are single and were inserted in that order; or two entries collide |
| HeadTheorems.RefusedLedgerIsReachable | internal/audit/mongodb/writer.go:57-86 | three appends, two of them in one millisecond, leave an intact ledger that is refused, or two entries collide |
| Corr.Source.New | internal/corr/corr.go:13-17 | bumps the wrapping counter and renders both numbers |
| Corr.TokenOrder | internal/corr/corr.go:13-28 | string order is the lexicographic order of time and counter, with times before 1970 reversed |
| Corr.TokenText | internal/corr/corr.go:13-17 | twenty places for the time, a dash, twenty digits for the count, and the numbers they spell |
| Corr.TokenOrderIsChronological | internal/corr/corr.go:13-28 | string order is chronological if and only if the times are not two distinct ones before 1970 |
| Corr.CallsAreRun | internal/corr/corr.go:11-17 | successive calls of New on one counter issue the tokens of a run |
| Corr.RunIsDistinct | internal/corr/corr.go:11-17 | tokens of any interleaving differ as long as they are less than 2^64 calls apart |
| Corr.RunIncreases | internal/corr/corr.go:13-28 | sequential tokens increase when the clock does not go back and the counter does not wrap |
| Signatures.RenderFuncSig | internal/evaluate/local.go:119-152 | parameters one by one, results field by field |
| Signatures.TextDecidesSignature | internal/evaluate/local.go:119-152 | equal text if and only if equal flattened parameters and equal per-field results, whatever the type parameters |
| Signatures.ResultCountIsSeenExactly | internal/evaluate/local.go:119-152 | among the signatures that Go's grammar has: the text settles the number of results if and only if there are none, and never the type parameters |
| Signatures.GateSeesResultCountsExactly | internal/evaluate/local.go:72-93 | for any old file with plain types: the check notices every change in the number of an exported function's results if and only if no exported function has any |
| Signatures.AllowedExactly | internal/evaluate/local.go:38-93 | for files with plain types: allowed if and only if every exported function keeps its flattened parameters and per-field results |
| Signatures.AllowedKeepsResults | internal/evaluate/local.go:38-93 | where neither file groups results: allowed if and only if every exported function keeps each parameter and each result |
| Signatures.GroupedResultsPrintAlike | internal/evaluate/local.go:141-148 | two signatures with different numbers of results and the same text |
| Signatures.ExtractExportedSigs | internal/evaluate/local.go:95-117 | the map of exported functions' texts, last declaration winning |
| Signatures.LastDeclarationCounts | internal/evaluate/local.go:95-117 | a later exported declaration of a key replaces an earlier one, an unexported one changes nothing |
| Signatures.PreservesSignature | internal/evaluate/local.go:72-93 | for every visiting order: no block if and only if all old signatures are kept; a block names a real violation |
| Signatures.RunLocal | internal/evaluate/local.go:38-62 | allowed if and only if the patch parses and keeps the signatures of a source that parses; flags and reason agree |
| Signatures.AllowedOnDeclarations | internal/evaluate/local.go:38-117 | on the two files' declarations: allowed if and only if the patched file parses and, if the old one did, still has every exported function with its receiver, name, parameters one by one and result fields |
| Signatures.AllowedSequence | internal/evaluate/local.go:38-93 | through any sequence of allowed patches every earlier parseable version's signatures are kept |
| Gate.Evaluator.Evaluate | internal/evaluate/gate.go:52-107 | the whole effect of one undisturbed call |
| Gate.AloneIsEvaluate | internal/evaluate/gate.go:52-107 | the interleaved steps of one call, undisturbed, do what the method does |
| Gate.OneBlockOneIndexPerDiff | internal/evaluate/gate.go:75-88 | under every interleaving a diff hash gets at most one block record and one index call, the record first |
| Gate.QuietGateRecordedEveryRejection | internal/evaluate/gate.go:75-88 | once all calls are done the rejected hashes are exactly those recorded, and exactly those indexed |
| Gate.LaterCallsAreBlocked | internal/evaluate/gate.go:63-68 | a call that looks up its hash after the block record returns a deduplicated BLOCK |
| Gate.AllowMeansAllowed | internal/evaluate/gate.go:70-96 | ALLOW is answered only for a patch the local check allows |
| Gate.BlockIsJustified | internal/evaluate/gate.go:63-90 | BLOCK is answered only when a call with the same diff hash carries a patch that the local check refuses, the call itself unless deduplicated |
| Repair.ExtractDiffFromResponse | internal/repair/coordinator.go:280-307 | the text between fences, with thought parts left out |
| Repair.FencedDiffIsExtracted | internal/repair/coordinator.go:294-299 | a fenced diff comes out exactly whatever surrounds it |
| Repair.PlainFenceIsExtracted | internal/repair/coordinator.go:300-305 | without a diff fence the first plain fence counts |
| Repair.ThoughtsAreLeftOut | internal/repair/coordinator.go:284-293 | thought parts leave no trace in the text, the others follow each other |
| Repair.CountAddRemove | internal/repair/coordinator.go:262-275 | the numbers of added and removed lines over all hunks |
| Repair.ValidateDiff | internal/repair/coordinator.go:244-260 | the first structural fault in the code's order |
| Repair.FaultsExactly | internal/repair/coordinator.go:244-260 | which structural fault is reported, on the files, the name and the marks of the lines |
| Repair.RunIteration | internal/repair/coordinator.go:115-212 | one iteration's records, feedback, counters and verdict |
| Repair.Repair | internal/repair/coordinator.go:86-239 | result and ledger trace of the whole loop |
| RepairTheorems.AttemptsAreBounded | internal/repair/coordinator.go:114-134 | at most the allowed number of attempts |
| RepairTheorems.IterationIsDecided | internal/repair/coordinator.go:115-212 | from what target, Gemini, parser, checks and applier answered: the records of an iteration, and whether and how it ends the run |
| RepairTheorems.FeedbackIsLastRejection | internal/repair/coordinator.go:128-198 | the next prompt is told the reason of the rejection just recorded, the first one nothing |
| RepairTheorems.ExhaustionIsRecorded | internal/repair/coordinator.go:232-238 | a run out of iterations records so once, last, with the last thought Gemini gave |
| RepairTheorems.SuccessExactly | internal/repair/coordinator.go:191-229 | success if and only if the last record is REPAIR_APPROVED, the only one; the result is the diff applied to the source read in that iteration |
| RepairTheorems.TwoEmptyExactly | internal/repair/coordinator.go:143-184 | ErrTwoConsecutiveEmpty if and only if in two adjacent iterations Gemini gave no answer, or one that does not parse, or one with no file |
| RepairTheorems.ExhaustedRunsAreMostlyAnswered | internal/repair/coordinator.go:232-238 | in a run out of iterations each one was empty (no answer, none that parses, no file) or had its diff refused, and at most half of them, rounded up, were empty |
| Diagnose.RunKeepsInv | internal/engine/diagnose/engine.go:146-316 | what every reachable state of the fan-out keeps |
| Diagnose.NoSendBlocks | internal/engine/diagnose/engine.go:165-213 | no goroutine about to send ever finds its channel full |
| Diagnose.OutcomeIsTheResults | internal/engine/diagnose/engine.go:214-286 | unless the deadline branch is taken: Elastic's failure whatever Dynatrace says, else Dynatrace's hard failure, else degraded or diagnosed |
| Diagnose.TimeoutsNeedTheirTimer | internal/engine/diagnose/engine.go:214-316 | the collector times out, and the watcher gives up, only after its deadline has fired or the caller has cancelled |
| Diagnose.FinishedTrace | internal/engine/diagnose/engine.go:225-286 | exactly one DIAGNOSIS record, last; before it one PHOENIX record exactly when the leg is wired and the stage did not fail |
| Diagnose.FinishesWithoutQuery | internal/engine/diagnose/engine.go:288-316 | once the timers have fired the collector and watcher alone finish the run, whatever never returns |
| Diagnose.ValidExactly | internal/engine/diagnose/engine.go:64-81 | a diagnosis is handed on and passes the boundary check if and only if the contract was found, there is a token, and telemetry was found or softly missing |
| Diagnose.FaultsExactly | internal/engine/diagnose/engine.go:64-81 | which of the three boundary faults is reported |
| Phoenix.StdioClient.QuerySpans | internal/phoenix/client.go:75-96 | the answer and the sessions left, with at most two dials and two calls |
| Phoenix.AloneIsQuerySpans | internal/phoenix/client.go:75-125 | the interleaved steps of one query, undisturbed, do what the method does: one reset, dial and call more exactly after a transport failure with a live context |
| Phoenix.SessionsAreConserved | internal/phoenix/client.go:98-139 | however queries and closes interleave every dialled session is current or closed exactly once, and no query dials or calls more than twice |
| Phoenix.CloseLeavesNothingOpen | internal/phoenix/client.go:127-139 | right after a close as many sessions have been closed as were dialled |
| Phoenix.SessionsStayOpenExactly | internal/phoenix/client.go:98-139 | no session is ever closed while a query calls it if and only if there is one caller at most or no query |
| Phoenix.ResetCanCloseAnotherQuerysSession | internal/phoenix/client.go:94-134 | an interleaving in which a reset closes the session another query has just redialled |
| Pipeline.ApplyAndOpenMR | internal/commit/coordinator.go:57-108 | one commit call, first; a merge request call right after COMMIT_OK and nowhere else; exactly one of COMMIT_FAILED, MR_FAILED and MR_CREATED, last, the last of them exactly when no error is returned |
| Pipeline.RunPipeline | cmd/kineticz/main.go:237-329 | one undisturbed run: the whole trace, with the gate's verdict tied to the local check |
| Pipeline.VerdictNamesTheStage | cmd/kineticz/main.go:226-328 | the verdict names the first stage that failed, on the name's characters, the diagnosis' parts, the repair's result, the gate's answer and GitLab's |
| Pipeline.AppliesExactly | internal/commit/coordinator.go:114-130 | a diff applies if and only if it parses to exactly one file whose hunks apply |
| Receiver.Handler.ServeHTTP | internal/fivetran/receiver.go:72-138 | status, ledger and started pipelines for every delivery and fault |
| Receiver.RefusedUnchanged | internal/fivetran/receiver.go:72-97 | an unreadable, unsigned or malformed delivery changes nothing and gets 400, 401 or 400 |
| Receiver.AnsweredExactly | internal/fivetran/receiver.go:111-138 | exactly when a signed delivery is answered 202, 200 or 500, and that a pipeline starts with 202 only |
| Receiver.ReceiptIsStored | internal/fivetran/receiver.go:111-125 | the receipt is stored exactly for a new event id and a working store, with its id, action, token and payload |
| Receiver.ServeIsStep | internal/fivetran/receiver.go:111-134 | a delivery is one step of a run and starts a pipeline exactly with the answer 202 of a receiver that has one |
| Receiver.OnePipelinePerEvent | internal/fivetran/receiver.go:111-134 | however deliveries interleave, at most one pipeline starts per event id |
| Receiver.EventIdSeparatesExactly | internal/fivetran/anomaly.go:48-53 | a valid delivery shares its id with no other event or sync if and only if the colon between the two is the only one inside the id |
| Receiver.EventIdsCanClash | internal/fivetran/anomaly.go:48-53 | with a colon in the event name or in the sync id two deliveries can share an id |
| EndToEnd.RunKeepsInv | cmd/kineticz/main.go:237-329 | what every reachable state of deliveries, pipelines, ledger and gate keeps |
| EndToEnd.EachPipelineFollowsItsTrace | cmd/kineticz/main.go:237-329 | whatever interleaves, a pipeline's calls and records are the beginning of its sequential trace, and all of it once it has finished |
| EndToEnd.OneCommitPerEvent | internal/fivetran/receiver.go:111-168 | over any interleaving of deliveries and pipelines at most one commit is made per event id |
| EndToEnd.CommitsAreVetted | cmd/kineticz/main.go:291-315 | every commit's bytes are the approved diff, of one file and changing a line, re-anchored on the source of the approving iteration; the local check allows them against it, the path is the connector's own file, and the event has its receipt |
| EndToEnd.MergeRequestsFollowCommits | internal/commit/coordinator.go:69-94 | a merge request is asked for only after the same pipeline's commit succeeded and was recorded |
| EndToEnd.FinishedLeftOneVerdict | cmd/kineticz/main.go:252-328 | a pipeline has left exactly one of PIPELINE_COMPLETE and PIPELINE_FAILED, as its last effect, if and only if it has finished |
| EndToEnd.CompletedExactly | cmd/kineticz/main.go:307-328 | a finished pipeline left PIPELINE_COMPLETE if and only if its merge request was opened |
| EndToEnd.LedgerStaysVerified | internal/audit/mongodb/writer.go:118-149 | the ledger all of them append to stays a verified tree with unique event ids |
| EndToEndProgress.PipelinesCanFinish | internal/fivetran/receiver.go:140-168 | from every reachable state a pipeline can be driven to its end, whatever never answers, within its iteration limit and 22 steps more |
| EndToEndProgress.CommittableExactly | cmd/kineticz/main.go:237-329 | over all runs a content can be committed for a connector if and only if the name is in the safe charset and the content is some source with a patch that changes a line and that the local check allows |

## Left out

- The unified-diff parser and applier library: a diff arrives parsed, and the strict applier is this project's own specification of it; its sorting of hunks, header-count checks, binary patches and whole-file creation or deletion are not part of this model.
- The Go parser and printer: a declaration arrives with its types printed, and whether a name is exported is an input.
- SHA-256, HMAC and Ed25519 internals; the webhook's HMAC check is an input.
- Calendar arithmetic: an instant is its UTC date and time fields, with years up to 9999.
- MongoDB sessions, retries of a transaction and index creation: a transaction is atomic and may fail.
- The HTTP clients and their retries, JSON payload shapes, prompt and merge request wording, OpenTelemetry spans, configuration and shutdown.
- Fields the hash does not cover (id, token, event id, signature bytes): chain theorems do not claim them.
- Ledger records of a stage are attempts: their own append errors are ignored by the code and not modelled in the traces.
- Gate.Evaluator.Evaluate: models a call that no other call overlaps; the overlapping calls are the state machine of the same module.
- Pipeline.RunPipeline: takes the diagnose stage's result as an input and calls the gate with nothing beside it; `EndToEnd` interleaves both.
- Panics of a pipeline, its five-minute timeout and the span flush are not part of this model.
- Phoenix.StdioClient.QuerySpans: does not model the decoding of span contents.
- The selection of prior repair spans for one contract: a filter without further consequence.
