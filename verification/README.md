# Laminar core: a verified model

This project models the parts of Laminar whose correctness is hardest to see
from the code, and proves what they are for. Everything is plain Dafny; run
`dafny verify dfyconfig.toml` to check it.

**PII redactor** (`pii-redactor`). `Json` and `JsonPointer` give JSON trees,
paths and sections 3 and 4 of RFC 6901. `JsonWalker` is the walk that expands stringified
JSON and renders the string leaves to one document with byte offsets, next to
a reference redactor of a dozen lines (`Redact`). `JsonRefinement` proves that
any admissible order of pointer edits equals the reference, `JsonRedactor`
that the program's own order is admissible, and `JsonGuarantees` what the
reference promises: shape, keys and order kept, bytes replaced exactly where
a span covers them, idempotence. `WalkMeaning` says the same of the input
alone: which strings are expanded, which lines the document has, and what is
found at each leaf's path in the result. `Utf8`, `Spans` and `Redaction` are the
byte-level parts; `Windows`, `Bioes`, `Detection` and `Batcher` the engine:
sliding windows, tag decoding, span merging and dynamic batching, with what the
session is shown and what each job gets back in `BatchRows`. `Pipeline`
joins engine and walker: which bytes are replaced, from the tokenizer's
offsets on.

**Replay cache** (`app-server/src/debugger`). `ReplaySelection` is the
selection over growing pages, `ReplayContents` which recorded columns an entry
carries, `ReplayKeys` the cache keys. `ReplayProtocol` is
the protocol of lookups, warmups, heartbeats and the lock (`LockTable`) of any
number of windows over one shared cache, in every interleaving;
`ReplayAnswers` says what lookups answer, `ReplayWaits` why they wait and give
up, and `ReplayWarmups` how many warmups run at a time.

**Agent versioning** (`app-server/src/checkpoints`). `Checkpoints` is the
double-checked critical section, run by any number of workers;
`CheckpointWrites` traces every version row back to the classifier's answer.

**Browser events and trace statistics.** `BrowserBatching` is the batching
queue worker with its handler and the books of what was received, flushed and
settled, `BrowserRows` how deliveries become rows and how the books are read.
`TraceStatistics` is the aggregation of spans, the merge into a trace's row and
the version column, `StatisticsMeaning` what each column of a row says.

**Redis connection and billing months.** `RedisSupervisor` is the reconnect
supervisor with its health check and callers; `BillingMonths` is the month
arithmetic behind usage limits, checked by `BillingCalendar` against an
independent count of days.

Conventions. Strings that the program addresses by byte are `string` with one
character per UTF-8 byte. `usize` and `u32` counters are unbounded except
where a bound is stated. Code that updates fields, tables or arrays is a class
or a method over arrays and is proved equal to a function or relation, about
which the properties are proved. A protocol is a step function; its theorems
range over all runs, which are sequences of actions of any length.

Where the code does not do what one would expect, a lemma says so:

- `Redaction.SpanInsideACharacterIsDropped`: a span that splits a character
  masks nothing; `Redaction.ExactIffAnchored` says exactly which spans are
  honoured, for any list of spans, and so when redaction is exact.
- `Spans.SameLabelOverlapCanRemain`: the comment promises to merge all adjacent
  and overlapping spans of one label, but merging looks at list neighbours
  only; `Spans.LabelsApartIffUninterrupted` says exactly when it suffices.
- `Redaction.OneEntityTwoPlaceholders`: likewise one entity that arrives in
  parts is said to collapse into one placeholder; it does exactly under the
  condition of `Redaction.LeafLabelsApartIffUninterrupted`.
- `ReplayAnswers.ForeignHit`: a lookup sends its input hash as it likes, and a
  hash with a colon can name an entry of another window, which is then a hit;
  `ReplayAnswers.AnswersAreOwnIffNotForeign` says for exactly which hashes.
  The other window's needle holds a colon and so matches no span; it has
  entries when its selection stopped at a ceiling.
- `ReplayWarmups.SingleWarmupIffTtlAtLeastTwo`: the heartbeat interval is
  clamped to one second, so a lock TTL below two seconds allows two warmups.
- `RedisSupervisor.StaleFailureCanClearTheFlag`: the comment of the health
  check says it must not overwrite the supervisor's `true`; between its
  pointer comparison and its swap it still can, exactly when a new handle is
  installed in between (`FailureIsOnCurrentHandleIff`). No wakeup is lost.
- `TraceStatistics.RowsGetTheirOwnSpansIff`: aggregation is by trace id alone
  while rows are kept per project and trace, so a trace id used by two
  projects in one flush is counted under the first one's row
  (`SharedTraceIdIsMisfiled` is such a flush).
- `BillingMonths.CompleteMonthsElapsed`: the documentation says it mimics
  Python's `relativedelta`, which counts negative months once an end lies a
  month or more before the start; here such an end counts 0.

## Model

| member | source | states |
|---|---|---|
| Utf8.ClampCharBoundary | pii-redactor/src/engine.rs:663-683 | the result is a boundary, no boundary lies between it and the position on the chosen side, and a position past the end becomes the end |
| Utf8.BoundaryIffAfterWholeScalars | pii-redactor/src/engine.rs:663-683 | in text encoded from any scalar values, the boundaries are exactly the offsets between whole characters |
| Json.ParseIndexDecimal | pii-redactor/src/json_walker.rs:166-167 | the decimal text of an array index is read back as that index by pointer evaluation |
| Json.FindChildByToken | pii-redactor/src/json_walker.rs:282-296 | in a node with distinct keys, a child's own token finds that child and no other |
| Json.IndexIffDecimal | pii-redactor/src/json_walker.rs:282-284 | pointer evaluation takes a token for an index if and only if it is the plain decimal of that index |
| Json.AssignedIsFound | pii-redactor/src/json_walker.rs:282-286 | what is written through a path is found at that path |
| Json.AssignLeavesTheRest | pii-redactor/src/json_walker.rs:282-286 | a write leaves every node that is not on its path as it was, where it was |
| JsonPointer.UnescapeEscape | pii-redactor/src/json_walker.rs:237-239 | undoing the RFC 6901 escapes, `~1` before `~0`, returns every token unchanged |
| JsonPointer.EscapedCharacterByCharacter | pii-redactor/src/json_walker.rs:237-239 | `~` is written `~0`, `/` is written `~1` and every other character as itself, wherever it stands |
| JsonPointer.EscapeDecimal | pii-redactor/src/json_walker.rs:167 | array indices need no escaping, so appending them raw builds the same pointer |
| JsonPointer.SlashesOfEncode | pii-redactor/src/json_walker.rs:190-193 | the number of `/` in a pointer is the length of its path, however its keys are spelt |
| JsonPointer.TokensOfEncode | pii-redactor/src/json_walker.rs:282-284 | every pointer the walk builds is evaluated to the path it stands for |
| JsonPointer.EncodeInjective | pii-redactor/src/json_walker.rs:152-167 | different paths have different pointers |
| JsonWalker.Walker.Walk | pii-redactor/src/json_walker.rs:136-233 | the tree becomes its expansion to depth 8; the text, leaf references and markers of the subtree are appended to what was there, offsets counted in the shared document; it terminates |
| JsonWalker.Walker.WalkMembers | pii-redactor/src/json_walker.rs:147-164 | objects: skipped keys untouched and silent, other members walked in order under their own key |
| JsonWalker.Walker.WalkItems | pii-redactor/src/json_walker.rs:165-181 | arrays: items walked in order under the inherited key |
| JsonWalker.Walker.WalkString | pii-redactor/src/json_walker.rs:182-228 | the string arm: below the depth cap strings that hold an object or array are expanded and marked, empty strings silent, others rendered with key prefix and separator; which strings those are is said of the input by `WalkMeaning.MarkedIffStringified` |
| JsonWalker.WalkAndRender | pii-redactor/src/json_walker.rs:104-132 | fails exactly on invalid JSON, else yields tree, leaves, document without trailing separator and markers of the root |
| WalkMeaning.MarkedIffStringified | pii-redactor/src/json_walker.rs:184-208 | a path is marked if and only if the walk comes, outside skipped members, to a string there that is inside fewer than eight strings and parses to an array or an object |
| WalkMeaning.WalkedTreeHolds | pii-redactor/src/json_walker.rs:136-233 | at every node the walk comes to, through strings that hold JSON, the tree holds the walk of exactly that node: in the place of stringified JSON the walk of what it parses to, all else unchanged |
| WalkMeaning.RenderedIsOneLinePerLeaf | pii-redactor/src/json_walker.rs:112-228 | the document is one line for each non-empty string the walk comes to that is no stringified JSON there, under its own or its array's key, separated by blank lines; the listed leaves are those lines in order, each pointing at its text |
| WalkMeaning.TextIsLines | pii-redactor/src/json_walker.rs:209-227 | text and leaves of any subtree are its lines, laid out from the byte where it starts |
| WalkMeaning.LinesAreLeaves | pii-redactor/src/json_walker.rs:182-228 | there is a line for every such string and for nothing else |
| JsonRefinement.EditsSplitByChild | pii-redactor/src/json_walker.rs:277-302 | edits below different children do not interfere: an arbitrary interleaving gives each child its own edits |
| JsonRefinement.EditsRefineRedact | pii-redactor/src/json_walker.rs:277-304 | any list of edits that holds exactly the owed leaf writes and one restringification per expanded node, each node after everything below it, turns the walked tree into the reference redaction; no pointer fails |
| JsonRedactor.MarkerIsListed | pii-redactor/src/json_walker.rs:186-208 | the marked paths are exactly those where stringified JSON was expanded |
| JsonRedactor.MarkersAreDistinct | pii-redactor/src/json_walker.rs:190-193 | no path is marked twice |
| JsonRedactor.LeafIsListed | pii-redactor/src/json_walker.rs:209-227 | the listed leaves are exactly the unskipped non-empty string leaves of the expanded tree, each with its own byte offset |
| JsonRedactor.LeafRanges | pii-redactor/src/json_walker.rs:212-227 | leaf ranges are ordered, disjoint, separated, inside the text, and read the leaf's original there |
| JsonRedactor.TrimKeepsLeaves | pii-redactor/src/json_walker.rs:123-125 | after the trailing separator is trimmed every leaf range is still inside the document and reads its original |
| JsonRedactor.SortedMarkersDescend | pii-redactor/src/json_walker.rs:291 | after the sort every marker comes strictly before the markers of its ancestors |
| JsonRedactor.ProgramFollowsPlan | pii-redactor/src/json_walker.rs:277-302 | leaf writes in render order followed by restringification by descending slash count is an admissible order of exactly the owed edits |
| JsonRedactor.ProgramRefinesRedact | pii-redactor/src/json_walker.rs:277-304 | hence the program's edits succeed on the walked tree and give the reference redaction |
| JsonRedactor.RouteSpans | pii-redactor/src/json_walker.rs:256-274 | each leaf receives exactly the non-empty parts of the spans inside its range, in order, relative to its start |
| JsonRedactor.WriteLeaf | pii-redactor/src/json_walker.rs:278-285 | one write through the leaf's pointer, an error exactly if the path is gone, nothing for a leaf without spans |
| JsonRedactor.WriteNext | pii-redactor/src/json_walker.rs:277-286 | each turn succeeds and leaves the rest of the plan with the same outcome |
| JsonRedactor.WriteLeaves | pii-redactor/src/json_walker.rs:277-286 | writing through pointers never fails and performs the leaf writes of the plan, leaving the rest of the plan applicable |
| JsonRedactor.RestringifyMarkers | pii-redactor/src/json_walker.rs:292-302 | serializing through the sorted markers never fails and performs the restringifications of the plan |
| JsonRedactor.ApplySpansAndSerialize | pii-redactor/src/json_walker.rs:243-305 | on a walked document it always succeeds, for any spans, with the serialization of the reference redaction; both pointer errors are unreachable |
| JsonRedactor.RedactText | pii-redactor/src/json_walker.rs:104-305 | end to end: invalid JSON is the only error, otherwise the reference redaction under whatever spans the detector returns for the rendered document |
| WalkMeaning.ListedLeafIsRewritten | pii-redactor/src/json_walker.rs:243-305 | every listed leaf is found at its own path in the tree the output serializes, through the serialization of every string expanded on the way, and holds its text with just the spans that reach it redacted |
| JsonGuarantees.RedactKeepsShape | pii-redactor/src/json_walker.rs:146-233 | keys, member order, item order, skipped subtrees and all non-strings are unchanged at every level, also inside expanded strings |
| JsonGuarantees.SpanOutsideLeavesIsDiscarded | pii-redactor/src/json_walker.rs:258-273 | a span over key prefixes and separators only can be removed from anywhere in the list without changing the result |
| JsonGuarantees.LeafByteReplacedIffCovered | pii-redactor/src/json_walker.rs:256-286 | for spans on character boundaries a byte of a leaf is replaced if and only if some span covers its byte of the document, under the label of a covering span; the others survive in order |
| JsonGuarantees.RedactDependsOnLeaves | pii-redactor/src/json_walker.rs:277-286 | two rewrites that agree on the leaves redact alike: nothing else of the spans matters |
| JsonGuarantees.ReserializeTwice | pii-redactor/src/json_walker.rs:186-208 | expanding and serializing the output again changes nothing, given that the trees put back for this document's expanded strings are parsed back as they were |
| JsonGuarantees.NoSpansIdempotent | pii-redactor/src/json_walker.rs:243-305 | with no spans the output is valid JSON and a fixed point of the pass, given that round trip for the trees this document's pass serializes |
| JsonGuarantees.NothingExpandedNothingChanged | pii-redactor/src/json_walker.rs:186-208 | without spans and without stringified JSON the very same tree comes back |
| Redaction.MergeForLeafLoop | pii-redactor/src/json_walker.rs:315-326 | the in-place merge equals the merge function on the stably sorted spans |
| Redaction.LeafLabelsApartIffUninterrupted | pii-redactor/src/json_walker.rs:307-326 | the touching parts of every label collapse into one range if and only if, in order of their starts, none that comes right after another label touches an earlier one of its own |
| Redaction.OneEntityTwoPlaceholders | pii-redactor/src/json_walker.rs:307-355 | three spans for which the touching parts of one entity render as two placeholders |
| Redaction.RedactStringLoop | pii-redactor/src/json_walker.rs:311-356 | the cursor loop renders exactly the pieces of the merged spans, for every input |
| Redaction.PieceIsRendered | pii-redactor/src/json_walker.rs:343-353 | the rendering is its pieces in order: a kept piece is its own bytes, a masked one a single placeholder of its label |
| Redaction.PartsAreTakenByStart | pii-redactor/src/json_walker.rs:315 | parts are taken by their starts, those that start together in the order they were detected |
| Redaction.MergedPartsAreApart | pii-redactor/src/json_walker.rs:316-326 | of two neighbouring merged parts with one label the first ends before the second starts |
| Redaction.RedactStringMasksExactlyCovered | pii-redactor/src/json_walker.rs:327-355 | for spans on boundaries a byte is masked if and only if a span covers it; pieces tile the text and each mask has a covering span's label |
| Redaction.RedactStringMasksOnlyCovered | pii-redactor/src/json_walker.rs:331-347 | with no assumption on boundaries, pieces tile the text and nothing outside the spans is masked |
| Redaction.ExactIffAnchored | pii-redactor/src/json_walker.rs:327-355 | for any spans: the masked bytes are those of the merged spans whose end is a boundary and whose start is one too or lies inside an earlier such span; redaction is exact if and only if these cover every covered byte |
| Redaction.SpanInsideACharacterIsDropped | pii-redactor/src/json_walker.rs:345-347 | a concrete span that splits a character masks nothing |
| Spans.MergeSpansLoop | pii-redactor/src/engine.rs:837-854 | the loop that extends the last output span in place equals the merge function |
| Spans.AbsorbCovers | pii-redactor/src/engine.rs:843-851 | taking in one more span, by extending the last or appending, adds exactly that span's bytes under its label |
| Spans.MergePreservesCoverage | pii-redactor/src/engine.rs:837-854 | per label exactly the bytes of the input are covered |
| Spans.MergeIsIdempotent | pii-redactor/src/engine.rs:837-854 | the result is sorted, no same-label neighbours touch, and merging again changes nothing |
| Spans.MergedSpansAreApart | pii-redactor/src/engine.rs:841-852 | merged spans come by start and then end, and of two neighbours with one label the first ends before the second starts |
| Spans.LabelsApartIffUninterrupted | pii-redactor/src/engine.rs:835-854 | no two spans of one label touch in the result, anywhere in the list, if and only if in the sorted input no span that comes right after another label touches an earlier span of its own |
| Spans.SameLabelOverlapCanRemain | pii-redactor/src/engine.rs:842-851 | a concrete input that fails the condition and whose output still has overlapping spans of one label |
| Windows.SplitIntoWindows | pii-redactor/src/engine.rs:391-451 | it terminates with the specified windows; with n tokens above the effective size C the loop runs 1 + ceil((n - C) / stride) times |
| Windows.RunInOneWindow | pii-redactor/src/engine.rs:417-449 | every run of at most overlap + 1 tokens, one of them not zero-width, lies whole in one emitted window |
| Windows.EveryTokenCovered | pii-redactor/src/engine.rs:417-449 | every token's bytes lie in some window |
| Windows.WindowIsItsTokens | pii-redactor/src/engine.rs:417-449 | every emitted window reaches from the start of its first token to the end of its last, apart from split characters no further: `size` consecutive tokens, or those left, from a multiple of the stride on |
| Windows.LongerRunIsSplit | pii-redactor/src/engine.rs:417-449 | the bound is tight: above the effective size some run of overlap + 2 tokens is in no window |
| Windows.SlicesAreWellFormed | pii-redactor/src/engine.rs:423-446 | windows are non-empty slices inside the text, cut on character boundaries |
| Bioes.BioesSpans | pii-redactor/src/engine.rs:708-778 | the one-pass loop with at most one open span equals the decoding of the labels, which `Bioes.NeighboursInOneSpanIffJoined` and `Bioes.SpanTokensHaveItsName` describe by the names alone |
| Bioes.PrefixedNameSplits | pii-redactor/src/engine.rs:780-797 | for every label, `B-`, `I-`, `E-` and `S-` in front of it are split off as that prefix and that label |
| Bioes.OtherNameSplits | pii-redactor/src/engine.rs:780-797 | of the other names exactly "O" is outside, and any other is a label by itself |
| Bioes.NeighboursInOneSpanIffJoined | pii-redactor/src/engine.rs:708-778 | two neighbouring tokens are in one span if and only if they name the same label, neither is "O", the first is no `E-` or `S-` and the second no `B-` or `S-` |
| Bioes.SpanTokensHaveItsName | pii-redactor/src/engine.rs:708-778 | every token of a span has a name in the label table, other than "O", and names the label the span is reported under |
| Bioes.Take | pii-redactor/src/engine.rs:714-772 | every arm of the decoder keeps finished spans plus open span equal to the decoding so far, with a span open exactly after B, I or an unprefixed label |
| Bioes.DecodeIsDecoding | pii-redactor/src/engine.rs:708-778 | spans are ordered, disjoint, non-empty and of one label, hold exactly the non-O tokens, and have a boundary between labelled neighbours exactly at a B, an S, after an E or S, or at a change of label |
| Bioes.DecodingIsUnique | pii-redactor/src/engine.rs:708-797 | those conditions leave no choice: any list of spans meeting them is the decoder's |
| Detection.MapToCharSpans | pii-redactor/src/engine.rs:802-833 | token spans become the byte hulls of their real tokens, merged; spans of special tokens only are dropped |
| Detection.HullIsFirstToLast | pii-redactor/src/engine.rs:810-833 | the bytes of a group run from the start of its first to the end of its last token that is neither special nor at (0, 0); a group without one has none |
| Detection.WindowSpansCover | pii-redactor/src/engine.rs:376-384 | one window's spans of a label cover exactly the bytes, shifted into the text, under the hulls of its groups of that label |
| Detection.DetectSpans | pii-redactor/src/engine.rs:369-386 | the windows' spans, shifted to the text and merged |
| Detection.DetectedIffInSomeWindow | pii-redactor/src/engine.rs:369-386 | a byte is in a final span of a label if and only if a group of that label covers it in some window |
| Detection.LabelledTokenIsDetected | pii-redactor/src/engine.rs:802-854 | if the label table gives a real token of any window a name other than "O", every byte of it ends up in a final span of the label named, without the prefix |
| Pipeline.DetectedSpansOnBoundaries | pii-redactor/src/engine.rs:369-386 | if real tokens start and end on characters of their window, every final span lies inside the text and starts and ends on its characters |
| Pipeline.CoveredIffLabelled | pii-redactor/src/engine.rs:369-386 | a byte is in a final span if and only if, in some window, a group of labelled tokens covers it |
| Pipeline.LeafByteReplacedIffDetected | pii-redactor/src/json_walker.rs:256-286 | end to end, with the spans the engine reports for the document: a byte of a leaf is replaced if and only if one of them covers it, no condition on spans left |
| Batcher.FillTensor | pii-redactor/src/engine.rs:573-587 | the in-place fill yields each row followed by zeros |
| Batcher.BuildRows | pii-redactor/src/engine.rs:573-587 | the three tensors together hold every job padded with zeros to the longest of the batch |
| BatchRows.PaddedRowsAreTensors | pii-redactor/src/engine.rs:573-587 | cell by cell: ids, masks and type ids of each job in their own tensors, zero beyond the job, as wide as the longest job |
| BatchRows.BatchIsSortedByLength | pii-redactor/src/engine.rs:503-509 | rows come longest first, jobs of equal length in order of arrival |
| Batcher.BatchWorker.SendCut | pii-redactor/src/engine.rs:616-627 | every row is cut to its job's length before anything is sent; a row too short panics and nothing is sent |
| Batcher.BatchWorker.SendLabels | pii-redactor/src/engine.rs:640-642 | the cut labels go to the jobs of the same rows, in order |
| Batcher.BatchWorker.SendAll | pii-redactor/src/engine.rs:652-656 | the same reply to every job of the batch, in order |
| Batcher.BatchWorker.FillQueue | pii-redactor/src/engine.rs:482-497 | whenever the delay runs out, the queue is a contiguous stretch of the arrivals with 1 to the maximum of jobs |
| Batcher.BatchWorker.TakeBatch | pii-redactor/src/engine.rs:499-501 | the front of the queue, in order; all of it if it fits, which leaves the queue empty |
| Batcher.BatchWorker.ServeBatch | pii-redactor/src/engine.rs:472-531 | one turn consumes at least one job and keeps queue, flushed batches and replies consistent with the arrivals so far |
| Batcher.BatchWorker.RunBatch | pii-redactor/src/engine.rs:548-658 | for every session, erring and panicking ones included: one reply per job in row order, its own row's labels cut to its length or the error, also for a wrong batch dimension; an all-empty batch never reaches the session; a panic leaves nothing sent |
| BatchRows.JobIsAnsweredFromItsRow | pii-redactor/src/engine.rs:548-658 | each job is answered label by label from its own row of the one pass, cut to its tokens; the message of a failed pass reaches every job, a panic or a short row drops the batch |
| Batcher.BatchWorker.RunCatching | pii-redactor/src/engine.rs:511-530 | with the panic caught, all replies of the batch are sent or all are dropped |
| Batcher.BatchWorker.BatcherLoop | pii-redactor/src/engine.rs:463-533 | however the delay cuts the stream, flushed batches concatenate to the arrival order, each has 1 to the maximum of jobs, the queue ends empty and exactly the batches' replies are sent |
| Batcher.EveryJobAnsweredOnce | pii-redactor/src/engine.rs:463-658 | over all batches each job's channel resolves exactly once, despite the sort by length |
| Batcher.NothingDroppedWithoutPanic | pii-redactor/src/engine.rs:511-530 | over all batches, without a panic every reply carries labels or an error |
| Batcher.BatchMatesDoNotMatter | pii-redactor/src/engine.rs:548-658 | for a session that treats rows independently a reply does not depend on the rest of its batch |
| Batcher.RepliesAreOwnLabels | pii-redactor/src/engine.rs:463-658 | every successful reply carries the labels its own job would get alone |
| ReplaySelection.AnyTailOfTheIdMatches | app-server/src/debugger/mod.rs:116-131 | a span id in any case and hyphenation, or any tail of it with a digit, selects that span |
| ReplayContents.NeedleCharacter | app-server/src/debugger/mod.rs:120-122 | a needle is normalized character by character: hyphens go, capitals become small, the rest stays |
| ReplaySelection.SelectEntries | app-server/src/debugger/mod.rs:241-293 | the scanning loop equals the specified selection, outcome included; what its entries carry is said by `ReplayContents.SelectionEnds` |
| ReplaySelection.Admit | app-server/src/debugger/mod.rs:257-284 | a candidate is a repeat, is admitted, claims its hash only, or ends the scan exactly at a ceiling |
| ReplaySelection.SelectionGuarantees | app-server/src/debugger/mod.rs:241-293 | at most `max_spans` entries, at most `max_bytes` bytes, distinct hashes; the entries are exactly the non-oversized first resolvable rows of their hash up to where the scan stopped, and the outcome says why it stopped |
| ReplayContents.ResolvedIsReplayed | app-server/src/debugger/mod.rs:135-172 | a response is the raw column, parsed, if that is not blank and parses, and only otherwise the parsed gen_ai output, or the plain output if that is blank; the model is the trimmed column or none; without a parseable output there is no response |
| ReplayContents.ReasonsResolved | app-server/src/debugger/mod.rs:176-199 | finish reasons are the strings of the listed array if it has any, else the one reason, unquoted if it is quoted, else none |
| ReplayContents.StringsInOrder | app-server/src/debugger/mod.rs:179-183 | the strings of a list are the texts of its string items, each once and in order |
| ReplayContents.CandidateIsEntryOf | app-server/src/debugger/mod.rs:252-266 | a row becomes an entry if and only if its input parses and it recorded a response, and the entry has the hash of that input, that response and its size |
| ReplayContents.SelectionEnds | app-server/src/debugger/mod.rs:241-293 | a selection ends at the first of the needle's row, covered, a row whose new hash leaves no room for one more entry or for its bytes, and the end; up to there it holds the recording of every row that comes first with its hash and fits, and nothing else |
| ReplayContents.TotalBytesAppend | app-server/src/debugger/mod.rs:276-284 | the bytes of a selection are the sum over its entries |
| ReplaySelection.OversizedBlocksItsHash | app-server/src/debugger/mod.rs:257-284 | an oversized first occurrence keeps all later rows of its hash out |
| ReplaySelection.TerminatedSelectionIsStable | app-server/src/debugger/mod.rs:241-293 | a selection that hit the needle or a ceiling is unchanged by any further rows |
| ReplaySelection.BuildEntries | app-server/src/debugger/mod.rs:309-347 | for every page size it terminates with the selection of the whole trace, or nothing when the needle is absent; an error only when a page query failed |
| ReplayContents.WindowHoldsItsRecording | app-server/src/debugger/mod.rs:309-347 | a window is warmed with nothing if its needle is no row's and nothing ran out of room, otherwise with the recording of every first row that fits, through the needle's row or up to the one without room |
| LockTable.InMemoryLocks.TryAcquire | app-server/src/cache/in_memory.rs:89-104 | succeeds exactly if nobody holds the key; expired entries are dropped, others keep their expiry |
| LockTable.InMemoryLocks.Renew | app-server/src/cache/in_memory.rs:106-118 | succeeds exactly on a live lock and extends it from now |
| LockTable.InMemoryLocks.Release | app-server/src/cache/in_memory.rs:120-124 | frees the key and nothing else |
| LockTable.HeldUntilExpiry | app-server/src/cache/in_memory.rs:89-118 | an acquired or renewed lock is held exactly until its TTL has run, a second acquire does not extend it, an expired one cannot be renewed and a released one is free |
| LockTable.KeysAreIndependent | app-server/src/cache/in_memory.rs:89-124 | no operation changes who holds another key, now or later |
| ReplayKeys.EntryKeysAreInjective | app-server/src/debugger/mod.rs:104-106 | windows never share the entry key of hashes without a colon, which stored entries have |
| ReplayKeys.KeyIsOwnIffNotForeign | app-server/src/debugger/mod.rs:104-106 | for any hash a lookup may send: its key is no key of another window's entries if and only if the hash has no colon, or what stands before its last colon is not in normalized form |
| ReplayKeys.ForeignKey | app-server/src/debugger/mod.rs:104-131 | a foreign hash has, from every window, the key of an entry of another window, which is named |
| ReplayKeys.WindowKeysAreInjective | app-server/src/debugger/mod.rs:108-114 | different windows have different ready markers and different locks |
| ReplayProtocol.RunConsistent | app-server/src/debugger/mod.rs:353-399 | in every interleaving over all windows, duplicate warmups and failing calls included, the shared cache holds chosen entries only and a window's marker is set only after all of its entries |
| ReplayAnswers.AnswersMatchSelection | app-server/src/debugger/mod.rs:390-496 | over one cache shared by all windows: a hit carries exactly the response selected for the hash in the lookup's own window, or for a foreign hash the one it names elsewhere; a miss occurs only on a warm window and an unselected hash |
| ReplayAnswers.HitReplaysTheRecording | app-server/src/debugger/mod.rs:390-496 | in every run a hit on a hash that is not foreign replays the recording of the first row of its trace with that input: the raw response if one parses, else the output |
| ReplayWaits.AnswerHasAReason | app-server/src/debugger/mod.rs:390-435 | every answer is a read of the lookup's own key from a warm cache, a hit if stored and a miss if not, or a failed read, or a poll past the deadline that saw no marker |
| ReplayWaits.LiveIsJustified | app-server/src/debugger/mod.rs:402-496 | over all runs a lookup goes live only after a failed read of a warm window, or after polling in vain until the timeout since it tried for the lock |
| ReplayAnswers.AnswersAreOwnIff | app-server/src/debugger/mod.rs:418-496 | for any entries of the windows: all runs answer a lookup from its own window if and only if its hash names no entry of a foreign window |
| ReplayAnswers.AnswersAreOwnIffNotForeign | app-server/src/api/v1/rollouts.rs:71-82 | over all traces and limits, answers are a window's own if and only if the hash sent is not foreign |
| ReplayAnswers.ForeignHit | app-server/src/debugger/mod.rs:418-496 | a run that answers from another window, whenever a foreign entry can be reached |
| ReplayWarmups.SingleWarmupIffTtlAtLeastTwo | app-server/src/debugger/mod.rs:437-488 | with on-time heartbeats at most one warmup of each window runs at any time, in every run over all windows, if and only if the lock TTL is at least two seconds |
| ReplayWarmups.ShortTtlDoubleWarmup | app-server/src/debugger/mod.rs:447-453 | below that a concrete on-time run has two warmups of one window at once |
| ReplayWaits.HeartbeatIsAThirdOfTheTtl | app-server/src/debugger/mod.rs:453 | three heartbeats fit in a TTL of three seconds or more and no fourth; below that they come every second |
| ReplayWaits.NoOrphanedWarmLock | app-server/src/debugger/mod.rs:437-488 | in every run whose releases go through, a window's lock in the table belongs to a warmup of it still at work |
| Checkpoints.RunInv | app-server/src/checkpoints/consumer.rs:124-333 | in every in-time interleaving: rows unique per shape, cache entries backed by rows, critical sections of a project exclusive, a section's recheck and listing current |
| Checkpoints.OneAgentPerShape | app-server/src/checkpoints/consumer.rs:183-261 | in every interleaving, in time or not: a (project, version hash) has at most one row, its agent never changes, and caches and finished workers agree with it |
| Checkpoints.RunTableInv | app-server/src/checkpoints/consumer.rs:296-333 | whatever the timing, rows are unique per shape, and every cache entry and every agent a worker holds is backed by a row |
| Checkpoints.RowsOnlyGrow | app-server/src/checkpoints/consumer.rs:226-253 | version rows are only appended; what is appended is said by `CheckpointWrites.NewRowIsTheAnswer` |
| CheckpointWrites.NewRowIsTheAnswer | app-server/src/checkpoints/consumer.rs:213-253 | over all runs a row appears only at a write and is the classifier's answer: the worker's own project and hash under the existing agent answered, which was listed and is the project's, or under an agent no row held before |
| CheckpointWrites.WriteRecordsAnswer | app-server/src/checkpoints/consumer.rs:226-253 | conversely a write that does not fail records the answer, unless the shape is already recorded |
| CheckpointWrites.AgentGainedIffNewAgentWritten | app-server/src/checkpoints/consumer.rs:226-253 | over all runs a project gains an agent exactly at the write of a `NewAgent` answer, one at a time, and never loses one |
| CheckpointWrites.AnswerWasGiven | app-server/src/checkpoints/consumer.rs:215-253 | the answer a worker writes is the one the classifier gave it, on the listing it was shown |
| CheckpointWrites.ListingWasRead | app-server/src/checkpoints/consumer.rs:213-214 | the listing shown holds exactly the agents the project had in the table when it was read |
| CheckpointWrites.RecordedShapeTakesNoLock | app-server/src/checkpoints/consumer.rs:125-133 | a shape found in the table takes no lock and hands on the agent recorded |
| CheckpointWrites.EntersIffLockFree | app-server/src/checkpoints/consumer.rs:142-157 | a worker enters its project's section if and only if nobody holds the lock, and then holds it for 60 seconds |
| Checkpoints.ListingIsCurrentAtWrite | app-server/src/checkpoints/consumer.rs:213-253 | when sections end in time and a worker writes, the listing its classifier saw is still the project's set of agents and the shape is still unrecorded, so the lock alone keeps inserts off the primary key |
| Checkpoints.NoOrphanedLock | app-server/src/checkpoints/consumer.rs:142-171 | in every run whose releases go through, a classify lock in the table belongs to a worker still in its critical section, so a failed classification does not freeze its project |
| Checkpoints.SectionEndsWithRelease | app-server/src/checkpoints/consumer.rs:159-171 | the critical section is left only through the release, on success and on error, and a release that goes through frees the lock |
| Checkpoints.SectionEnds | app-server/src/checkpoints/consumer.rs:183-262 | in every run a worker takes at most seven steps in its critical section before the release, whatever its calls return, and is never stuck there |
| BrowserBatching.BatchQueueWorker.FlushBatch | app-server/src/browser_events/mod.rs:43-57 | takes the whole buffer; all of it is to be acked if the rows were stored, requeued if not |
| BrowserBatching.BatchQueueWorker.FlushBatchInner | app-server/src/browser_events/mod.rs:59-144 | success means all rows of all deliveries are in the table; failure is transient, needs rows to store, and may have left any of them there, any number of times, but no others |
| BrowserRows.RowsAreEvents | app-server/src/browser_events/mod.rs:63-81 | the rows are those of the events, one each, with the event's kind, data and absolute time and the session, trace and project of its message; `size` counts the same events |
| BrowserBatching.BatchQueueWorker.HandleMessage | app-server/src/browser_events/mod.rs:158-184 | an empty message is acked at once; otherwise it is buffered and the buffer is flushed exactly when its events reach `size` |
| BrowserBatching.BatchQueueWorker.HandleInterval | app-server/src/browser_events/mod.rs:186-193 | a tick flushes exactly a non-empty buffer |
| BrowserBatching.BatchQueueWorker.SettleDeliveries | app-server/src/batch_worker/worker.rs:237-271 | the ackers of all given deliveries are removed first; those that had one are settled in any order, each at most once, all of them unless a call fails |
| BrowserBatching.BatchQueueWorker.DetachAckers | app-server/src/batch_worker/worker.rs:241-248 | all given tags lose their acker, and the calls are those that still had one, each once |
| BrowserBatching.BatchQueueWorker.HandleResult | app-server/src/batch_worker/worker.rs:199-234 | acks, then rejects, then requeues, each stage entered only when the one before went through |
| BrowserBatching.BatchQueueWorker.Deliver | app-server/src/batch_worker/worker.rs:100-127 | a delivery, malformed or not, keeps the books balanced, or breaks the connection with a history that is the beginning of a balanced one |
| BrowserBatching.BatchQueueWorker.OnTick | app-server/src/batch_worker/worker.rs:136-142 | a tick keeps the books balanced and empties the buffer, or breaks the connection likewise |
| BrowserBatching.BatchQueueWorker.RejectMalformed | app-server/src/batch_worker/worker.rs:109-115 | a malformed delivery is rejected without touching buffer, ackers or table, and the books still balance |
| BrowserBatching.BatchQueueWorker.Accept | app-server/src/batch_worker/worker.rs:117-126 | a well-formed delivery is acked, buffered or flushed with its batch, and the books still balance |
| BrowserBatching.BatchQueueWorker.ProcessInner | app-server/src/batch_worker/worker.rs:72-145 | for every sequence of deliveries, ticks and failures: at every loop head the ackers are the tags of the buffer, the buffer is empty or below `size` events, the books balance, and the table has gained all rows of acked batches and no row that was never flushed |
| BrowserBatching.DeliveriesAreConserved | app-server/src/batch_worker/worker.rs:72-145 | received tags are exactly the settled ones plus the buffered ones |
| BrowserRows.EveryMessageIsBuffered | app-server/src/batch_worker/worker.rs:100-127 | every message with events goes through the buffer once and at its place; a malformed one is rejected and an empty one acked on the spot, and nothing else is |
| BrowserRows.EffectIsRead | app-server/src/batch_worker/worker.rs:199-271 | the books are read one effect at a time: a flush counts its batch, a settlement its tag |
| BrowserBatching.SettledAtMostOnce | app-server/src/batch_worker/worker.rs:237-271 | with distinct tags nothing is settled twice and nothing buffered has been settled |
| BrowserBatching.AckedRowsWereStored | app-server/src/browser_events/mod.rs:43-57 | when a delivery is acked its rows have been stored by an earlier flush, or it had none |
| BrowserBatching.BrokenConnectionSettlesAtMostOnce | app-server/src/batch_worker/worker.rs:72-145 | also when a connection breaks in mid-settlement no delivery has been settled twice and every settlement was due |
| TraceStatistics.FromSpans | app-server/src/ch/traces.rs:159-293 | one aggregate per trace of the zipped input, each the aggregate of exactly that trace's spans in order |
| TraceStatistics.AbsorbDescribes | app-server/src/ch/traces.rs:199-289 | absorbing one more span field by field describes the spans before it and that span |
| TraceStatistics.StatsDescribe | app-server/src/ch/traces.rs:197-289 | an aggregate has the earliest start, latest end, summed counters, all tags and names, error if and only if some span failed, the last root, and the number of spans |
| StatisticsMeaning.AggregateHasFirstStatus | app-server/src/ch/traces.rs:236-242 | without a failed span the status of an aggregate is that of its first span with a status that is not empty |
| TraceStatistics.MergeDescribesBoth | app-server/src/db/trace.rs:296-326 | merging on conflict describes the spans of both sides, in that order |
| TraceStatistics.RowDescribesIngested | app-server/src/db/trace.rs:246-391 | after any interleaving of upserts and patches a row describes exactly the spans ingested under its key |
| StatisticsMeaning.RowReportsItsSpans | app-server/src/db/trace.rs:296-326 | over all interleavings, column by column: each of the six counters is the sum of that counter over the spans ingested, the top span is the last one without a parent, tags and names are those of some span |
| StatisticsMeaning.RowHasLatestStatus | app-server/src/db/trace.rs:316-319 | without a failed span the status of a row is that of the last flush of its trace that had one |
| StatisticsMeaning.SpanKeepsItsPlace | app-server/src/ch/traces.rs:159-170 | each span of a flush keeps its own usage and its place among its trace's spans |
| TraceStatistics.BatchSplitInvariance | app-server/src/db/trace.rs:296-326 | for every split of a trace's spans into flushes, in every order, times, counters, tags, names, error flag and span count agree with one single aggregation; in arrival order the top span is the last root |
| TraceStatistics.VersionCountsSpansAndPatches | app-server/src/db/trace.rs:441-487 | `num_spans` is the spans ingested plus the patches applied |
| TraceStatistics.VersionsStrictlyIncrease | app-server/src/db/trace.rs:296-448 | every returned row has a greater `num_spans` than all before it, and the last is the table's state |
| TraceStatistics.GreatestVersionIsCurrent | app-server/src/db/trace.rs:419-426 | among all rows ever returned only the current state has the greatest version |
| TraceStatistics.PatchesAloneCreateNoRow | app-server/src/db/trace.rs:428-430 | patches of an unknown trace create and return nothing |
| TraceStatistics.TraceStore.UpsertOne | app-server/src/db/trace.rs:266-327 | one statement merges into its key's row or creates it, returns the row as it now is, and touches no other |
| TraceStatistics.TraceStore.PatchOne | app-server/src/db/trace.rs:442-448 | an existing row gets the next version and is returned; a missing one stays missing |
| TraceStatistics.TraceStore.UpsertBatch | app-server/src/db/trace.rs:246-391 | among any statements of other workers the upserts take effect in order up to a failing one; returned rows are states of the table with rising versions, current unless another worker touched the trace |
| TraceStatistics.TraceStore.MergeMetadataBatch | app-server/src/db/trace.rs:432-490 | likewise for patches; those of existing traces return a row, which continues what the flush was handed before |
| TraceStatistics.KeepLatest | app-server/src/traces/processor.rs:474-491 | the index-map loop keeps exactly the last occurrence of each key |
| TraceStatistics.LatestUpToIsExact | app-server/src/traces/processor.rs:474-491 | what is kept are the last occurrences, each key once |
| TraceStatistics.TraceStore.TraceBranch | app-server/src/traces/processor.rs:422-521 | one flush among any statements of other workers: each trace is shipped once, with the newest row this flush was handed; it was a state of the table, is never ahead of it, and is current unless another worker, or a patch lost to an error, touched the trace; signals see upserted rows only |
| TraceStatistics.FlushIngestsItsSpans | app-server/src/traces/processor.rs:422-452 | a flush ingests, for each of its traces, exactly that trace's spans in arrival order |
| TraceStatistics.FlushIngestsItsSpansAmongOthers | app-server/src/traces/processor.rs:422-452 | with other workers' statements in between, a flush ingests for each of its traces exactly that trace's spans besides what they ingest |
| TraceStatistics.RowsGetTheirOwnSpansIff | app-server/src/ch/traces.rs:164-170 | every row receives exactly its own spans if and only if no trace of the flush mixes projects |
| TraceStatistics.SharedTraceIdIsMisfiled | app-server/src/ch/traces.rs:164-170 | a concrete flush of two projects' spans under one trace id, both counted under the first |
| RedisSupervisor.NoLostWakeup | app-server/src/cache/connection.rs:74-161 | in every interleaving a connection flagged down has a pending permit, a busy supervisor, or a health check about to notify |
| RedisSupervisor.RepairIsEnabled | app-server/src/cache/connection.rs:78-91 | so the supervisor can take a step at once, or right after the health check's notification |
| RedisSupervisor.RepairIsBounded | app-server/src/cache/connection.rs:78-129 | whatever callers and health check do, the flag stays down for at most three supervisor steps plus three per failed ping or dial |
| RedisSupervisor.HandleChangesByInstallOnly | app-server/src/cache/connection.rs:113-118 | the handle changes exactly when the supervisor installs a new one |
| RedisSupervisor.FailureIsOnCurrentHandleIff | app-server/src/cache/connection.rs:132-161 | when the health check clears the flag, the handle it pinged is the current one if and only if none was installed between its comparison and its swap; which ping led to it is said by `RedisSupervisor.ClearsIffPingFailed` |
| RedisSupervisor.ClearsIffPingFailed | app-server/src/cache/connection.rs:143-157 | in every round of every run the health check goes on to clear the flag if and only if its ping failed and no handle was installed since it took the one it pinged; a ping that succeeds changes nothing |
| RedisSupervisor.FailedPingIsFlagged | app-server/src/cache/connection.rs:143-161 | a failed ping on a handle not replaced before the comparison takes the flag down at the next step, and wakes the supervisor if the flag was up |
| RedisSupervisor.ClearingFollowsFailedPing | app-server/src/cache/connection.rs:143-157 | over all runs the check is about to clear for a handle only if its latest ping was on that handle and failed |
| RedisSupervisor.FlagGoesUpByProof | app-server/src/cache/connection.rs:78-118 | the flag goes up only at the supervisor, right after its own ping succeeded or a handle was installed |
| RedisSupervisor.InstalledHandleWasDialled | app-server/src/cache/connection.rs:96-118 | a handle is installed only right after it was dialled |
| RedisSupervisor.FlagGoesDownForAFailedPing | app-server/src/cache/connection.rs:78-161 | the flag goes down only for a failed ping, of the supervisor or of the health check |
| RedisSupervisor.NotificationIsKept | app-server/src/cache/connection.rs:70-84 | a notification stays until the supervisor takes it and pings |
| RedisSupervisor.StaleFailureCanClearTheFlag | app-server/src/cache/connection.rs:136-157 | a concrete run in which a stale failure clears the flag just restored |
| BillingMonths.AddMonthsStrictlyIncreasing | app-server/src/ch/limits.rs:22-23 | clamped month addition is strictly increasing, and representable dates are closed downwards |
| BillingMonths.ChainingAgreesIffDayFits | app-server/src/ch/limits.rs:22 | why months are always added to the original start: going through an intermediate date agrees if and only if the day fits its month or the last month is no longer |
| BillingMonths.ChainedAdditionDrifts | app-server/src/ch/limits.rs:22 | a concrete start for which adding month by month loses days |
| BillingMonths.CompleteMonthsElapsed | app-server/src/ch/limits.rs:19-33 | the loop returns the greatest number of months that fits, 0 for an end before the start, and its 32-bit counter cannot overflow |
| BillingMonths.PeriodsPartitionTime | app-server/src/ch/limits.rs:40-51 | an instant at or after the reset lies in exactly one period, the one counted |
| BillingMonths.LatestResetTime | app-server/src/ch/limits.rs:40-51 | it is the start of the period that holds the present; the next start is later or unrepresentable, and the fallback is never taken |
| BillingMonths.SamePeriodSameStart | app-server/src/ch/limits.rs:40-51 | period counts never decrease over time, and two instants share one if and only if no period starts between them |
| BillingCalendar.DaysInMonthAreCounted | app-server/src/ch/limits.rs:22 | a month has the days between its first day and the next month's in an independent count of days |
| BillingCalendar.BeforeIffEarlierDay | app-server/src/ch/limits.rs:19-51 | instants are ordered by their day in that count, and within a day by time |
| BillingCalendar.PeriodStartsOnTheResetDay | app-server/src/ch/limits.rs:22 | a period starts on the reset's day at the reset's time, or on the last day of a month too short for it |
| BillingCalendar.CheckedDates | app-server/src/ch/limits.rs:131-163 | month counts the repository's own checks give, up to the clamped ends of February |
| BillingCalendar.CheckedLeapDates | app-server/src/ch/limits.rs:165-198 | the others, over leap days and the turn of a year |

## Left out

- JsonGuarantees.NoSpansIdempotent: assumes that the trees this document's pass serializes are parsed back as they were; `serde_json` itself is an abstract pair of functions.
- JsonGuarantees.LeafByteReplacedIffCovered: assumes spans on character boundaries of the rendered document, which `Pipeline` proves of the engine's spans; for other spans `Redaction.ExactIffAnchored` gives the bytes of one leaf.
- Pipeline.DetectedSpansOnBoundaries: that the tokenizer's real tokens start and end on characters of the text it was given is an assumption about the library.
- JsonWalker.Walker.Walk: the tree is a value that is rebuilt, not updated through mutable references; text, leaves and markers are appended in place.
- JsonRedactor.WriteLeaves: writing through `pointer_mut` yields a new tree; aliasing of nodes is not represented.
- ReplayAnswers.AnswersMatchSelection: cached entries and the ready markers do not expire and are not evicted; a marker is written last, with the same TTL.
- ReplaySelection.BuildEntries: the trace does not change while it is paged, and rows with equal start time keep one order across pages.
- Checkpoints.ListingIsCurrentAtWrite: assumes every critical section ends within the lock's TTL of 60 seconds.
- BrowserBatching.BatchQueueWorker.HandleMessage: event timestamps are unbounded, so the overflow of `abs` on the least 64-bit value is not represented; usage limits are not updated.
- TraceStatistics.BatchSplitInvariance: session and user id, non-error status, trace type, top span name, root input and output, browser flag and metadata depend on the split by design, and costs are floating point; none is claimed.
- TraceStatistics.FromSpans: `num_spans` and the token counters are unbounded integers.
- RedisSupervisor.RepairIsBounded: counts steps, not seconds; timeouts and backoff delays are not represented.
- BillingMonths.CompleteMonthsElapsed: leap seconds and time zones other than UTC do not occur; the calendar library's clamping and year range are modelled from its documentation.
- The tokenizer is an offset table with nondecreasing starts and ends, the model an uninterpreted function; logits and argmax are left out.
- The upper-casing of labels and the placeholder format are an arbitrary function of the label.
- Lower-casing and suffix matching of span ids are over ASCII.
- The content of stable prompts, version hashes and the classifier's prompt and parsing: the classifier is an arbitrary choice among the listed agents or a new one.
- gRPC, HTTP, RabbitMQ, ClickHouse, Postgres and Redis transport, logging, authentication and configuration.
- The React frontend and its small caches: only easy members.
