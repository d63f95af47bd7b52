# Verified models of a cloud emulator's core

A Dafny 4.11 project that models the parts of a cloud emulator on which its users rely without
looking, and proves what its comments and documents promise of them. Where a promise does not hold of
the code, the model keeps the code, a lemma names an input that shows it, and another says exactly
when the promise holds. Check everything with `dafny verify dfyconfig.toml`.

## What is modelled

**Listings in pages** (`Cursors`, `CursorPlaces`, `Pages`, `Recovery`, `Walks`, `FixedWalks`). A cursor
packs a millisecond and a place modulo `2^k - 1` into the 53 significand bits of a binary64 number; the
page recovers the unbounded sequence number from that residue and the listing alone. Rounding is any
function that gives back what the format holds. Proved: the cursor is exact and reads back; a deleted
item's cursor still cuts where the item was if and only if it is near enough, and half the places is
always near enough and the best bound of its kind; a walk under arbitrary inserts and deletes serves
everything that was there throughout, once; a walk of a fixed listing is exactly the listing, in the
expected number of pages; and past the ceiling the walk still ends, in order and without repeats, and
misses exactly what was skipped at the end of a page.

**Queues** (`Statecharts`, `LazyTimers`, `Queues`, `Custody`, `Sendings`, `Surveys`, `Dispatch`, `Messages`,
`Selections`, `GroupRanks`, `Receives`, `Idempotency`). A record, the engine's store and the idempotency table are
classes that are changed in place; each method is proved against a function of the state it found, and
the laws are about those functions. Guards, filters, member expressions and the clock are parameters;
`Messages` gives them for the SQS bundle's queue. Proved: settling leaves nothing due, and exactly when it
depends on who looked before; over any run each message that has not ended has one row, and each of its
handles resolves to it; draining groups is first in, first out under any arrangement of the groups, and
exactly when there is only one; a FIFO receive settles its queue, sends what it drains in order and none of
it twice, and makes up for what is redriven;
executions of one idempotency key are a window apart, and calls in between get the first one's answer.

**Text forms** (`TagExprs`, `TagExprLaws`, `TagExprKeys`; `Chunks`, `ChunkLaws`; `Cassettes`,
`CassetteLaws`, `CassetteFiles`; `Literals`, `LiteralLaws`, `Documents`, `DocumentLaws`, `Scanners`,
`Noises`, `OperationLaws`). Tag conditions, aws-chunked bodies, cassette files and GraphQL documents, each
with a printer written for the proof. Parsers that move a position are classes or methods with loops,
proved equal to recursive readers. Proved: printing and reading are inverse on exactly the values that can
be written; the scanner that lists a condition's keys agrees with the reader; of all ways to cut a chunked
body only one goes unnoticed; a document answers the field its operation selects whatever fragments,
comments, strings and variable definitions stand before it, and through inline fragments.

**Recordings** (`Answers`, `Unifiers`, `Recordings`, `RecordingPaths`). Proved: a comparison of two runs
reports nothing if and only if one injective renaming of generated identifiers makes their outcomes equal;
linking a recording's inputs to earlier answers is undone by resolving them; and through nested keys,
exactly when.

`Options`, `Texts` and `Decimals` hold what the others share. A `char` stands for a byte.

## Where the code and its promises differ

Each with an input that shows it, and with the exact condition under which the promise holds.

- A cursor names a place there is: not a tiny negative one (`CursorPlaces.TinyNegativeIsPastTheLastPlace`);
  an accepted one does if and only if its fraction does not round up to 1 (`CursorPlaces.PlaceInRange`).
- "Did not settle" means a cycle: two timers on one state raise it without one
  (`LazyTimers.TwoTimersRaiseAFalseAlarm`); it is raised if and only if more deadlines fire one after
  another than the chart has states, never when no more have passed than that, and never for a cycle, since
  each firing spends a deadline (`LazyTimers.AlarmExactly`).
- What a look finds is a function of the clock: two timers on one state remember an early look
  (`LazyTimers.TwoTimersRememberAnEarlyLook`); two looks fire in turn what the later one alone would if and only
  if, along the early look, the timer a late look would fire is due already (`LazyTimers.LooksAgreeExactly`), and
  in one state they do whenever one looks if and only if the armed timer declared first has the least armed
  deadline (`LazyTimers.DueStaysExactly`).
- A replaced handle still acts on its message: a message received twice is not deleted through its first
  handle (`Messages.FirstHandleDeletesNothing`); a replaced handle does what the current one does if and only
  if the event leaves the message where it is under its key (`Dispatch.StaleHandleExactly`).
- Groups are drained in an order: three groups whose comparison goes round in a circle are in
  `GroupRanks.TangledQueue`; the comparison is an order if and only if no three groups are tangled
  (`GroupRanks.OrdersExactly`). The drain laws hold for any arrangement.
- Identifiers correspond one to one: two recorded ones can be answered by one
  (`Unifiers.TwoIdentifiersCollapse`); in a run that reports nothing they do if and only if none that meets
  itself also meets another, on either side (`Unifiers.OneToOneExactly`).
- A linked recording resolves to what was recorded: an empty key at the top of an answer resolves to another
  value (`RecordingPaths.EmptyTopKeyMisleads`); through a chain of keys it comes back if and only if no key has
  a dot and the first two are not both empty, or all are (`RecordingPaths.ChainRecordingExactly`).
- Every tag a condition reads is listed: one named by the bare word `or` is not (`TagExprKeys.BareOrIsMissed`);
  all are if and only if each spelled like an operator is also quoted (`TagExprKeys.EveryKeyIsListedExactly`).
- A body cut short is refused: one cut right after its final chunk's header is accepted, without trailers,
  and no other (`ChunkLaws.CutExactly`).
- A cassette comes back: headers that are skipped or have no value do not, and
  `CassetteLaws.RoundTripExactly` says which cassettes do.

## Model

| member | source | states |
|---|---|---|
| Cursors.WrapIsModulo | internal/engine/cursor.go:79-86 | `((a%n)+n)%n` over a truncating remainder is the mathematical residue, for negative numbers too |
| Cursors.SlotIsResidue | internal/engine/cursor.go:75-86 | a slot is 1 plus the sequence modulo the slot count, never 0 where there are slots, and 0 where there are none |
| Cursors.SlotCountIsOdd | internal/engine/cursor.go:66-75 | the slot count is odd wherever it is not zero |
| Cursors.NumeratorFits | internal/engine/cursor.go:23-35 | the packed numerator fits 53 bits, before 1970 as after it |
| Cursors.PageCursorIsExact | internal/engine/cursor.go:88-94 | however its operations round, a cursor is exactly ms + slot/2^k and a binary64 number |
| Cursors.CursorRoundTrip | internal/engine/cursor.go:88-158 | a cursor floors to its millisecond and reads back as that millisecond and slot |
| CursorPlaces.PlaceInRange | internal/engine/cursor.go:143-158 | an accepted cursor names one of the millisecond's slots if and only if its fraction does not round up to 1, for every rounding that maps into binary64 and keeps order |
| CursorPlaces.AcceptedHasPlaces | internal/engine/cursor.go:143-158 | an accepted binary64 cursor names a slot only in a millisecond that has slots |
| CursorPlaces.TinyNegativeIsPastTheLastPlace | internal/engine/cursor.go:143-158 | the input that does: a tiny negative number names slot slotCount + 1 |
| Pages.RunReaches | internal/engine/page.go:51-60 | the run of a millisecond is bounded by listed items and contains all of them |
| Pages.FindBound | internal/engine/page.go:51-72 | the loop over the listing computes the bound a cursor makes in it |
| Pages.Cut | internal/engine/page.go:109-120 | the items kept are those newer than every `since` bound and older than every `until` bound, in the listing's order |
| Pages.AnswerPage | internal/engine/page.go:99-149 | the page is the first `limit` kept items in order, with `next` only when more are left |
| Pages.SortOrders | internal/engine/page.go:121-130 | the sort puts each of distinct items strictly before the next and keeps all of them |
| Pages.OrderIsUnique | internal/engine/page.go:121-130 | a listing has only one order |
| Recovery.RecoverExactly | internal/engine/page.go:51-72 | a number within a slot count of the run is recovered exactly when near enough, else it lands beyond the opposite end |
| Recovery.DeletedItemExactly | internal/engine/page.go:36-72 | a deleted item's cursor cuts every listing as the item would, if and only if it is near enough to what is left of its run |
| Recovery.HalfCeiling | internal/engine/page.go:43-50 | a run that spans at most half the slots, the named item included, is always cut right whatever was deleted |
| Recovery.HalfCeilingIsTight | internal/engine/page.go:43-50 | one sequence number past the half, a single survivor is taken for the wrong side |
| Recovery.DeletedBetweenSurvivors | internal/engine/page.go:43-50 | with survivors on both sides a span below the slot count is enough |
| Recovery.ListedItemIsNamed | internal/engine/cursor.go:36-44 | below the ceiling the cursor of a listed item names exactly that item |
| Recovery.PastTheCeiling | internal/engine/cursor.go:44-48 | past the ceiling the number read is not above the named one, a multiple of the slot count away, and the oldest such of the run |
| Recovery.RecoveryFitsInt64 | internal/engine/page.go:51-72 | no intermediate result wraps 64 bits for sequence numbers up to 2^62 |
| Walks.AskReadsItsCursor | internal/engine/page.go:99-149 | the cursor a page answered is read by the next request as the item it was made from |
| Walks.AcceptedIsReadable | internal/engine/page.go:51-72 | every cursor accepted from a binary64 number can be read in any listing, with no division by zero, and its request is answered exactly when it is accepted |
| Walks.PageAfter | internal/engine/page.go:74-149 | the page after an item with a faithful cursor is cut from exactly the items that sort after it |
| Walks.WalkUnderChange | internal/engine/page.go:36-149 | over every interleaving of requests, inserts and deletes within half the slots, what is served is strictly newest first, and a finished walk has served every item there throughout |
| Walks.ServedOnce | internal/engine/page.go:36-50 | an item served in a strictly ordered serving is served exactly once |
| FixedWalks.WalkOfFixedListing | internal/engine/page.go:99-149 | below the ceiling the pages of a walk, either way, concatenate to the sorted listing in max(1, ceil(N/limit)) pages, all but the last full |
| FixedWalks.PagePastCeiling | internal/engine/cursor.go:44-48 | past the ceiling a page holds exactly the older items that are not skipped |
| FixedWalks.WalkPastTheCeiling | internal/engine/cursor.go:44-48 | with no bound on the run a newest-first walk ends, in strict order and with no item twice, and an item is missing if and only if it was skipped after some page's last item |
| FixedWalks.NothingLostExactly | internal/engine/page.go:36-42 | a cut loses nothing if and only if no item lies between the named one and the one read |
| Statecharts.LiveRecord.FireFirst | internal/engine/statechart.go:91-106 | fires the first declared timer whose deadline passed, or nothing, or reports an unknown target with the record unchanged |
| Statecharts.LiveRecord.Settle | internal/engine/statechart.go:77-112 | the loop with its hop limit leaves the record, flag and error that the recursive settling defines |
| LazyTimers.NothingLeftDue | internal/engine/statechart.go:77-112 | settling without error leaves no due timer in a defined state and touches only the state and deadlines that had passed |
| LazyTimers.ChangedExactly | internal/engine/statechart.go:60-62 | settling reports a change exactly when the record changed |
| LazyTimers.SettlingIsIdempotent | internal/engine/statechart.go:63-75 | settling again at the same instant changes nothing |
| LazyTimers.AlarmExactly | internal/engine/statechart.go:72-112 | "did not settle" is reported if and only if more deadlines fire in turn than there are states, never when no more than that have passed, and never with a hop more than there are deadlines |
| LazyTimers.OneTimerAlwaysSettles | internal/engine/statechart.go:72-112 | with one timer to a state and defined targets no error can occur, "did not settle" included |
| LazyTimers.TwoTimersRaiseAFalseAlarm | internal/engine/statechart.go:72-112 | with two timers "did not settle" is reported for a record with no deadline left |
| LazyTimers.DueStaysExactly | internal/engine/statechart.go:91-106 | the timer due at an instant stays the one due if and only if no armed deadline of the state comes before that of the armed timer declared first |
| LazyTimers.LooksAgreeExactly | internal/engine/statechart.go:63-106 | settling early and then late fires, in turn, the timers that settling late fires if and only if at every record the early one comes by the timer a late look would fire is due already |
| LazyTimers.SettlingComposes | internal/engine/statechart.go:63-70 | under that condition and with no alarm to come, settling early and then late gives the record of settling late once |
| LazyTimers.OrderIsUndisturbed | internal/engine/statechart.go:91-106 | it holds wherever timers are declared in the order of their deadlines |
| LazyTimers.OneTimerComposes | internal/engine/statechart.go:63-70 | so it is with one timer to a state |
| LazyTimers.TwoTimersRememberAnEarlyLook | internal/engine/statechart.go:91-106 | with two timers an early look changes which state a late look finds |
| Queues.Engine.RunAction | internal/engine/statechart.go:204-292 | one action's effect on the record, the rows and the key counter |
| Queues.Engine.SendEvent | internal/engine/statechart.go:121-176 | settle, then the first transition whose guard holds: record, rows, whether it changed and whether it moved |
| Queues.Engine.SettleWrite | internal/engine/effects.go:287-326 | the store after one event: nothing, the row deleted, rekeyed with an alias, or rewritten |
| Queues.Engine.ResolveKeyAlias | internal/engine/statechart.go:345-367 | follows an alias table to its end, and ends on every table, a cyclic one included |
| Custody.HandlesResolve | internal/engine/statechart.go:323-367 | every handle a message has had in its queue resolves to its row |
| Custody.DeliveryKeeps | internal/engine/effects.go:213-225 | an event to a stored message keeps one row a message and every handle live, and does not touch the others |
| Custody.OneRowPerMessage | internal/engine/effects.go:174-326 | over every run of creations, events and looks, a message that has not ended has exactly one row, one that has has none, and all its handles resolve to it |
| Custody.MoveKeepsTheRowExactly | internal/engine/statechart.go:245-292 | after a move the message has a row if and only if the move took it to another place |
| Dispatch.SendToOne | internal/engine/effects.go:235-281 | the single-record path: resolve the handle, settle, send, and write back over the handle the caller gave; whether a record was found, and the error of settling or sending it |
| Dispatch.CurrentHandleKeeps | internal/engine/effects.go:266-281 | through the current handle everything the store promises is kept |
| Dispatch.StaleHandleExactly | internal/engine/effects.go:266-281 | a replaced handle does to the rows what the current one would if and only if the event leaves the message where it is under its key; otherwise a row is left behind |
| Messages.StaleDeleteKeeps | internal/engine/effects.go:266-281 | a queue's message is never deleted through a replaced handle, and always through its current one |
| Messages.FirstHandleDeletesNothing | behavior/aws/sqs/service.yaml:186-258 | the input: made, received, received again and deleted through its first handle, a message keeps its row |
| Surveys.RunSelect | internal/engine/select.go:39-77 | unless a row cannot be settled the store is the old one with every row of the collection settled, by one run of looks that stops at the first error, and the selection is made of those rows |
| Dispatch.SendForEach | internal/engine/effects.go:174-233 | the run of sends and looks it takes: the selection is sent the event first and in order, then what fresh looks at a settled queue choose, no key twice and no more than wanted; kept is what the event left of each less those redriven; it stops at the first error, when enough are kept, or when every key there is to choose was sent it |
| Messages.ReceiveFits | behavior/aws/sqs/service.yaml:186-258 | what that requires holds of a queue's receive whatever its context, a redrive policy included |
| Dispatch.RedrivenLeaves | internal/engine/effects.go:189-233 | a redriven message leaves fewer rows not yet seen, so the refill ends |
| Receives.DrainChooses | internal/engine/select.go:39-77 | what a drained selection takes of the settled rows is keys of rows, none twice |
| Receives.ReceiveFifo | internal/engine/effects.go:174-233 | a FIFO receive end to end: the queue settled, each group's leading run sent the event in the order drained, and exactly that when none is redriven; redrives made up for by draining until all was sent; no message twice, one row a message and every handle live |
| Selections.SelectItems | internal/engine/select.go:79-172 | a receive takes what the specification of the three modes takes, and counts the candidates |
| Selections.DrainGroups | internal/engine/select.go:177-259 | the drain loop takes the groups' leading runs one after another, cut at the limit |
| Selections.DrainIsFifo | internal/engine/select.go:177-259 | for any arrangement of groups, what is taken of a group is a selectable prefix of it in order, at most the limit in all, and everything when the limit is not reached |
| Selections.DrainTakesOnce | internal/engine/select.go:177-259 | no message is taken twice |
| Selections.OnlyTheLastIsCut | internal/engine/select.go:246-258 | only the last group drained can be cut short |
| Selections.OneOfEachOpenGroup | internal/engine/select.go:150-168 | not draining, a group with a message in flight gives nothing and any other its first candidate, up to the limit |
| GroupRanks.ThreeGroups | internal/engine/select.go:230-244 | three groups of a queue go round in a circle if and only if one without a candidate lies between the other two, whose candidates come the other way round |
| GroupRanks.OrdersExactly | internal/engine/select.go:205-244 | the comparison is an order of a queue's groups if and only if no three of them are tangled |
| GroupRanks.OpenGroupsAreOrdered | internal/engine/select.go:205-244 | it is one when every group has a candidate |
| GroupRanks.TangledQueue | internal/engine/select.go:230-244 | the input: a queue of three messages whose groups go round in a circle |
| GroupRanks.UntangledDrain | internal/engine/select.go:205-258 | with no tangle there is one sorted arrangement, so what the drain takes is determined |
| Idempotency.Table.RunDedup | internal/engine/effects.go:27-99 | a lookup hits inside the window, else remembers the key before its effects run |
| Idempotency.Table.CompleteDedup | internal/engine/effects.go:104-124 | the answer is recorded under the window the execution opened |
| Idempotency.TableIsLastExecution | internal/engine/effects.go:27-124 | after any run the table holds for a key its last execution's window and answer, and nothing if there was none |
| Idempotency.HitExactlyInsideTheWindow | internal/engine/effects.go:27-99 | a call is a hit if and only if it falls inside the last execution's window, with exactly that execution's answer |
| Idempotency.WindowHolds | internal/engine/effects.go:27-124 | on a clock that does not run back, two executions of a key are a window apart and calls in between are answered as the first |
| Decimals.ItoaReads | internal/proxy/proxy.go:198-203 | a printed whole number is read back, negative or not |
| Unifiers.Unifier.Unify | internal/equivalence/equivalence.go:390-402 | a substitution is recorded unless it contradicts one in either direction; the two maps stay inverse and no entry changes |
| Unifiers.Unifier.Compare | internal/equivalence/equivalence.go:311-402 | the places reported are exactly those at which the answers differ under the bindings it leaves; a comparison some renaming allows reports none and binds no more than that; the identifiers met are those at one place of both answers |
| Unifiers.DifferencesStay | internal/equivalence/equivalence.go:390-402 | what a comparison has decided stays so under every larger injective renaming: no later binding makes a difference vanish or appear |
| Unifiers.Excuse | internal/equivalence/equivalence.go:204-264 | what is reported is where the differences and the exemptions disagree: differences not exempted, and exemptions that excuse none |
| Unifiers.CompareRun | internal/equivalence/equivalence.go:151-264 | a run reports nothing if and only if under its bindings every step differs at exactly the places exempted, refusals by code, status and class; with none exempted that is if and only if one injective renaming makes every outcome the candidate's, and the bindings are the least such renaming |
| Unifiers.OneToOneExactly | internal/equivalence/equivalence.go:311-402 | in a run that some renaming relates, identifiers correspond one to one if and only if none that meets itself also meets another, on either side |
| Unifiers.TwoIdentifiersCollapse | internal/equivalence/equivalence.go:311-402 | the input: two recorded identifiers are answered by one, and an injective renaming relates the run |
| Recordings.WalkPath | internal/equivalence/trace.go:475-498 | the loop follows a dotted path through members and list items |
| Recordings.IndexOutput | internal/equivalence/trace.go:322-345 | every identifier of an answer gets an origin where it stands, earlier ones are kept, and where keys can be named each origin leads back to its string |
| Recordings.LinkInputs | internal/equivalence/trace.go:283-314 | inputs are rewritten in place, step by step, with what earlier answers issued and no step up to it supplied |
| Recordings.LinkThenResolve | internal/equivalence/trace.go:347-402 | resolving a linked value against answers its origins lead into gives the value back |
| Recordings.LinkedRecordingResolves | internal/equivalence/trace.go:283-402 | every linked input of a recording resolves to the input recorded |
| RecordingPaths.WalkLeadsExactly | internal/equivalence/trace.go:475-498 | the path of nested keys leads along them if and only if none has a dot and the first is not empty, or is the only one |
| RecordingPaths.LookupLeadsExactly | internal/equivalence/trace.go:434-470 | a lookup, which may cross one wrapper, does if and only if none has a dot and the first two are not both empty |
| RecordingPaths.ChainRecordingExactly | internal/equivalence/trace.go:283-470 | a recording of one identifier inside nested keys, linked and resolved, comes back if and only if the lookup leads back or all keys are empty |
| RecordingPaths.EmptyTopKeyMisleads | internal/equivalence/trace.go:322-345 | the input: with an empty key at the top the recording is replayed with another value |
| TagExprs.TagExprParser.ParseOr | internal/bir/tagexpr.go:67-81 | the loop reads a left-leaning chain of `or`, ending where the recursive reader ends |
| TagExprs.TagExprParser.ParseUnary | internal/bir/tagexpr.go:99-122 | `not`, a group or a comparison, as the recursive reader has it |
| TagExprs.TagExprParser.ParseLiteral | internal/bir/tagexpr.go:150-168 | the loop reads a literal up to its closing quote, two quotes for one |
| TagExprs.ParseTagExpr | internal/bir/tagexpr.go:29-40 | the whole text is read, or it is refused |
| TagExprLaws.PrintedIsRead | internal/bir/tagexpr.go:29-228 | every condition whose names can be written is read back from its least-parenthesized text: precedence, left association, doubled quotes |
| TagExprLaws.ReadExactlyTheWritable | internal/bir/tagexpr.go:29-228 | the conditions some text reads as are exactly those, and every accepted text means what its printed form means |
| TagExprKeys.ListKeys | internal/bir/tagexpr.go:232-290 | the scanning loop lists what the recursive scan lists |
| TagExprKeys.TwoScannersAgree | internal/bir/tagexpr.go:197-290 | for every accepted text the scanner lists the distinct keys read, first occurrence first, but for bare words spelled like an operator |
| TagExprKeys.EveryKeyIsListedExactly | internal/bir/tagexpr.go:230-290 | every tag read is listed if and only if each spelled like an operator is also written in double quotes |
| TagExprKeys.BareOrIsMissed | internal/bir/tagexpr.go:270-273 | `or='x'` is read as a comparison of the tag `or`, and lists nothing |
| TagExprKeys.ListedTagsDecide | internal/bir/tagexpr.go:230-232 | under that condition, tag sets that agree on the listed keys satisfy the same conditions |
| TagExprKeys.ComparisonsOfOneTag | internal/bir/tagexpr.go:169-194 | a missing tag fails all six comparisons; a present one passes exactly one of <, = and >, and the others deny one each |
| Chunks.ReadSignature | internal/edge/chunked.go:36-49 | the loop over extensions finds the one signature, or refuses two |
| Chunks.ReadTrailers | internal/edge/chunked.go:82-106 | the loop reads trailers under canonical names up to the blank line with nothing after it |
| Chunks.ParseChunked | internal/edge/chunked.go:19-80 | the loop answers the frame the recursive reader has, and its body is the chunks' concatenation |
| ChunkLaws.PrintedIsRead | internal/edge/chunked.go:12-106 | every well-formed frame is read back from its printed form, signatures and trailers included |
| ChunkLaws.ReadExactlyTheWellFramed | internal/edge/chunked.go:19-106 | the frames that bodies read as are exactly the well-formed: a signature a chunk, one empty chunk, the last |
| ChunkLaws.CutExactly | internal/edge/chunked.go:28-79 | a proper prefix of an accepted body is accepted if and only if it ends right after the final chunk's header line, and then only the trailers are lost |
| CassetteFiles.FileCassette.Append | internal/proxy/proxy.go:94-106 | an interaction replaces the one under its key, or is put under the key derived from its request |
| CassetteFiles.FileCassette.Flush | internal/proxy/proxy.go:109-132 | the loop writes the heading and every interaction in ascending order of key |
| CassetteFiles.FileCassette.Load | internal/proxy/proxy.go:68-83 | takes on exactly what a file holds, every interaction under its own key, or changes nothing |
| CassetteFiles.WriteInteraction | internal/proxy/proxy.go:189-206 | appends one record's text to the buffer |
| CassetteFiles.WriteHeaders | internal/proxy/proxy.go:208-225 | appends a line a value for every header not skipped, names ascending |
| CassetteFiles.ParseCassette | internal/proxy/proxy.go:235-304 | the loop over lines and blocks answers what the recursive reader does |
| CassetteLaws.WrittenIsRead | internal/proxy/proxy.go:109-347 | what is flushed is parsed to the same interactions, bodies of any bytes included, without the headers that are not written |
| CassetteLaws.ReadFits | internal/proxy/proxy.go:235-347 | whatever is parsed stands under its own non-empty key, with fields that keep to their line and canonical names |
| CassetteLaws.RoundTripExactly | internal/proxy/proxy.go:109-347 | a cassette comes back as it was if and only if its fields keep to their lines, its names are canonical and colon-free, and each header is one that is written |
| LiteralLaws.PairReads | internal/proto/graphql/value.go:91-98 | a surrogate pair decodes to the character it was made from |
| LiteralLaws.StringReads | internal/proto/graphql/value.go:17-100 | a string in any mixture of plain characters, escapes and surrogate pairs is read as what its pieces stand for |
| LiteralLaws.Utf8Reads | internal/proto/graphql/value.go:58-58 | a character is found again from the bytes written for it |
| LiteralLaws.NumberReads | internal/proto/graphql/value.go:161-190 | every whole number of 64 bits is read back as itself |
| Scanners.Scanner.StringValue | internal/proto/graphql/value.go:17-72 | the string loops read what the recursive readers do |
| Scanners.Scanner.UnicodeEscape | internal/proto/graphql/value.go:77-100 | one escape or a surrogate pair, and the position after it |
| Scanners.Scanner.NumberValue | internal/proto/graphql/value.go:161-196 | the number loop, whole numbers apart from floating ones |
| Scanners.Scanner.ParseValue | internal/proto/graphql/scan.go:326-409 | the recursive value reader, with its depth bound |
| Scanners.Scanner.ParseArguments | internal/proto/graphql/scan.go:289-319 | all of a field's arguments, or none |
| Scanners.Scanner.FindSelectionSet | internal/proto/graphql/scan.go:101-125 | the loop finds the first brace outside strings, comments and parentheses |
| Scanners.Scanner.FindFragment | internal/proto/graphql/scan.go:157-180 | finds a fragment's body, and leaves the position alone when there is none |
| Scanners.Scanner.ParseSelection | internal/proto/graphql/scan.go:239-284 | the first field of a selection set through aliases and spreads, at most eight of them |
| Scanners.FindRootField | internal/proto/graphql/scan.go:206-232 | ends on every document, indexes nothing outside it, and answers what the recursive reader does |
| DocumentLaws.ValueReads | internal/proto/graphql/scan.go:326-409 | a value of any shape is read back exactly when it nests no deeper than the bound, and is refused otherwise |
| DocumentLaws.ArgumentsRead | internal/proto/graphql/scan.go:289-319 | arguments are read back, or refused whole when one of them nests too deep |
| Noises.PiecesPassed | internal/proto/graphql/scan.go:67-87 | skipping a string and reading it come to the same closing quote |
| Noises.AllPassed | internal/proto/graphql/scan.go:98-125 | no comment, string or parenthesized group before a selection set opens it |
| Noises.AllInBlock | internal/proto/graphql/scan.go:127-155 | no comment, string or balanced braces in a block end it |
| OperationLaws.InsideReads | internal/proto/graphql/scan.go:239-284 | inside inline fragments, with a type condition or not, the field is selected through up to eight, and none through more |
| OperationLaws.DefinitionPassed | internal/proto/graphql/scan.go:206-232 | a fragment's definition before the operation changes nothing |
| OperationLaws.DocumentReads | internal/proto/graphql/scan.go:206-319 | a document answers the field its operation selects, keyword or not, under an alias or not, whatever fragments, names and text stand before it, with all of its arguments or none |
| OperationLaws.SpreadReads | internal/proto/graphql/scan.go:150-284 | one whose operation spreads a named fragment answers the field of the first definition of that name, wherever it stands, through up to eight spreads in all |
| OperationLaws.CircleSelectsNothing | internal/proto/graphql/scan.go:234-266 | spreads that lead in a circle select no field |

## Left out

- Recovery.RecoveryFitsInt64: sequence numbers beyond 2^62, where the 64-bit code could wrap, are only modelled as unbounded.
- Pages.AnswerPage: what `entriesOf` reads of a record (a missing or mistyped member) is not modelled; a listing is a sequence of records with their two numbers.
- Dispatch.SendForEach: requires that "redriven" is a final state, and that the event moves no record to the row it is in and redrives none into the collection it is sent in; without that the refill loop of the code need not end. `Messages.ReceiveFits` shows it met by a queue's receive.
- Surveys.RunSelect: settles rows in any order where the code goes by key, which shows only in how many are settled before one that cannot be.
- Messages.ReceiveFits: the model of the bundle's chart leaves out MOVE, PURGE and CHANGE_VISIBILITY, and the members that no guard reads.
- Selections.SelectItems: takes any arrangement of the groups, since the comparison they are sorted by need not be an order; where it is, `GroupRanks.UntangledDrain` determines what is taken.
- Unifiers.CompareRun: members are visited in any order where the code sorts them, and a diff's path is its parts where the code joins them to a text; with exemptions the bindings are those of the run, since an exempted member that can be bound is.
- Custody.OneRowPerMessage: generated keys are fresh and resources have a keying member and an alias table; without them a rekey cannot happen.
- Queues.Engine.RunAction: an expression that fails to evaluate stops the operation in the code; expressions here always evaluate, and the members a move sets are set by actions before it.
- Recordings.LinkInputs: deletion and fault entries are not part of the laws, and the name a member has in the model is a parameter.
- TagExprs.ParseTagExpr: letters beyond ASCII that fold to an ASCII one are not folded (none folds to a letter of and, or, not), and error messages are not modelled.
- Chunks.ParseChunked: trims ASCII spaces only and folds ASCII letters only, and trailers stay pairs in order where the code groups them by name.
- CassetteFiles.FileCassette.Append: scrubbing of secrets and the derivation of a key from a request are parameters or left out; so are the file system and locking.
- CassetteFiles.ParseCassette: a decimal length or status beyond 64 bits is read as the number it is.
- Scanners.FindRootField: a floating-point text is accepted or not by a parameter, and how a block string's lines are trimmed is one too; that `seekFragment` may find the word in a comment or a string is modelled and nothing is claimed of it.
- Expression compilation and evaluation, bundle loading and validation: guards, filters, order keys and durations are parameters.
- `runWait`, bus subscriptions and goroutines: an operation here runs alone, as it does under the engine's lock.
- `cursorGrammar` and the text of numbers: a cursor starts as a number.
- HTTP serving, demultiplexing, certificates, signatures, hashing and process supervision.
- JSON text, and deadlines stored as floating-point nanoseconds: deadlines are whole numbers.
- OperationLaws.SpreadReads: one spread that names a fragment, inside inline ones and with inline ones inside it; of spreads that name fragments in turn, only that circles end.
