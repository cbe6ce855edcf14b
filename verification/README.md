# Verified models of the TaskFlow core

This project models the parts of the repository whose correctness is an argument rather than a lookup, and
proves what each is for. `dafny verify dfyconfig.toml` checks everything.

**Ranks** (`RankIntegers`, `Ranks`, `RankChoice`, `RankGeneration`, `CardOrder`). A rank is a base-62 integer whose first
character announces its length and sign, followed by a fraction. String order is proved to be numeric order;
`between` to land strictly inside its gap and to grow a rank by at most one character; the carry and borrow
loops, over the real `digits` array, to be plus and minus one; and single-row drags to refine editing a plain
list, on every run that starts with an integer's room per drop above the encoding's floor. One gap has no room:
`between(null, smallest)` answers with a rank *above* its neighbour, so the main theorem is an equivalence whose
right-hand side is "not that gap". Which rank of a gap is taken is settled too: the least integer in it, and without
one a shortest rank, with the middle last digit. (A comment in the source calls the integer the shortest; far below
zero, where integers are long, it need not be.) A drag is refused as not found exactly when it names
a card that is gone.

**Filters** (`FilterAst`, `FilterFields`, `FilterLike`, `FilterCompile`, `FilterEvaluate`, `FilterParity`,
`FilterText`, `FilterEmitter`, `FilterReader`). The compiler is modelled three times: as a function to an SQL
expression tree with a three-valued meaning, as the text that tree spells, and as the emitter that pushes onto a
shared `params` sequence while building strings. The text is proved to split back into exactly the placeholders it
was spelled from. Over columns whose texts can be told apart, a reader that knows only SQL's words and signs is proved
to read back from it the expression that was compiled; and expression and text to select exactly the rows the
in-memory evaluator matches.
The repository's documentation says the two backends always agree. They agree on a comparison, over all rows, if
and only if Postgres can read what it binds (a number must be whole and fit an `integer` column, text must hold no
NUL, a date must be one Postgres reads), it lists no null against a scalar column that may hold one, it spells every id
the way the database stores it, both backends place its date between the same two rows, and both fold its needle's
case alike.
Each condition has its failing input. A value Postgres cannot read refuses the whole statement, whatever the rows.
A rule's evaluator reads its own copy of the card; what holds on a board holds in a rule when that copy has every field
the filter asks about. The worker's copy leaves out `label`, so a filter on labels can show a card that no rule with
that filter matches.

**Outbox and relay** (`Outbox`, `OutboxProtocol`, `Relay`). Any number of relay instances and consumers claim
under row locks, dispatch, mark, fail and crash. A claim locks rows as they are but may pick them from tables as
they were before a concurrent commit. Every dispatch that returned is at all times exactly one of the mark, in
flight, rolled back by a crash, or a repeat committed for an event already marked; when no claim reads behind a
commit there are no repeats. The drain loop is a class over the two tables. Two places where the source's
comments and its code part ways are settled by the code: row locks are on the outbox row, so different consumers
*do* skip each other's rows, and `attempts` is never consulted, so an event is ever dispatched exactly when fewer
than a batch of permanently failing events is ahead of it.

**Collaborative documents** (`WriteAheadLog`, `CollabProtocol`, `Collab`). A document is the set of updates it
has integrated. Log rows and snapshots are dated by one strictly increasing clock; compaction is four steps with a
crash allowed between any two. Loading is proved to rebuild every logged update on every run in which nothing
overlaps a snapshot, and compaction's exact safety condition is given. Without that condition two short runs lose
an edit, one of them while its row is still in the log.

**Content guard** (`RichText`, `ContentGuard`, `ContentTree`). The whitelist, the guard as a function on trees,
and the guard as it runs: a backward walk that edits a heap of shared elements in place, proved equal to the
function. A second pass never changes the tree, but still reports a change for every element whose type needs
attributes and lost them.

**Limiter, quota, rooms** (`RateLimit`, `TokenQuota`, `Revocations`, `Rooms`, `RoomProtocol`). The fixed-window
limiter allows at most 2 * limit - 1 hits in any window's length, and that bound is reached. The quota's counters
are the grants of the stored day, and every run that visits days in a given order keeps both ceilings if and only
if no day is visited twice; days need not ascend. Sockets, joins and revocation sweeps are classes and a protocol.
With joins taken as one step, every room held was granted no earlier than the last revocation that concerns it.
With a join's decision and its effect apart, a room held is stale exactly when its last admission was late and no
revocation that concerns it has been processed since; and no room is lost without a cause that concerns it.

`Wrappers`, `Sequences` and `Lexicographic` hold the result types, positions in sequences and the order on strings.

What comes from outside is a parameter: ids and clocks; the viewer, symbolic dates, both backends' reading and which columns may hold NULL
and which timestamp columns only ever hold whole milliseconds; of case, and id spelling (`FilterFields.Env`), and which timestamp columns only ever hold whole
milliseconds; whether a dispatch returns or throws; the id shapes, URL
parsing and trimming of the whitelist (`RichText.Env`); and the join decision, which may grant, refuse or throw.

## Model

| member | source | states |
|---|---|---|
| RankIntegers.AlphabetLookup | packages/contracts/src/rank.ts:67-88 | digit lookup and its inverse are indexing into the ascending 62-character alphabet |
| RankIntegers.NotInTheAlphabet | packages/contracts/src/rank.ts:73-76 | a character has no digit value exactly when the alphabet lacks it |
| RankIntegers.IntegerOrderIff | packages/contracts/src/rank.ts:126-145 | string order on integer parts is the order of the signed integers they denote, across lengths and the sign change, so equal values mean equal strings |
| RankIntegers.IntegersArePrefixFree | packages/contracts/src/rank.ts:118-145 | the head fixes the length, so no integer part is a proper prefix of another |
| RankIntegers.IncrementIsPlusOne | packages/contracts/src/rank.ts:155-186 | increment adds exactly one to the denoted integer and is null exactly at the largest |
| RankIntegers.DecrementIsMinusOne | packages/contracts/src/rank.ts:189-214 | decrement subtracts exactly one and is null exactly at the smallest |
| RankIntegers.StepsAreInverse | packages/contracts/src/rank.ts:155-214 | each step undoes the other wherever both are defined |
| RankIntegers.WithinLimits | packages/contracts/src/rank.ts:90-94 | every integer lies within the encoding's symmetric limits, reached only by the two extremes |
| Ranks.OrderIsNumeric | packages/contracts/src/rank.ts:229-243 | on valid ranks string order is exactly the order of integer plus fraction, and two ranks of one value are one string |
| Ranks.MidpointIsInside | packages/contracts/src/rank.ts:352-392 | a midpoint is strictly inside its gap, never ends in the zero digit, and is at most one digit longer than the longer end |
| Ranks.BetweenIsInside | packages/contracts/src/rank.ts:268-336 | for all valid, ordered neighbours `between` succeeds with a valid rank, strictly inside the gap if and only if the gap is not the one below the smallest integer; other inputs are refused, and neither exhaustion error is reachable |
| Ranks.AtTheFloor | packages/contracts/src/rank.ts:309-316 | the failing input: asked for room below the smallest integer, the answer sorts above it |
| Ranks.BetweenGrowsByOne | packages/contracts/src/rank.ts:268-336 | one insertion lengthens a rank by at most one character, except the first rank of all and the one asked for below the floor, which take exactly two |
| Ranks.BetweenDescendsByOne | packages/contracts/src/rank.ts:268-336 | off the floor, one insertion counts from at most one integer below its neighbours |
| RankChoice.TakesLeastInteger | packages/contracts/src/rank.ts:296-303 | when integers lie strictly between two ranks, the answer is the least of them |
| RankChoice.TakesNextInteger | packages/contracts/src/rank.ts:330-336 | above the last rank the answer is the least integer above it, if there is one |
| RankChoice.TakesPreviousInteger | packages/contracts/src/rank.ts:307-325 | below the first rank the answer is the greatest integer below it, unless that rank counts from the smallest |
| RankChoice.KeepsTheInteger | packages/contracts/src/rank.ts:284-303 | in a gap without an integer, and below a rank that counts from the smallest, the answer keeps the integer and moves in the fraction |
| RankChoice.ShortestWithoutInteger | packages/contracts/src/rank.ts:284-303 | in a gap without an integer no shorter rank fits than the answer |
| RankChoice.MidpointIsShortest | packages/contracts/src/rank.ts:338-392 | no fraction that fits the gap is shorter than the midpoint |
| RankChoice.MidpointIsCentral | packages/contracts/src/rank.ts:371-376 | of the digits that could stand last in the midpoint it has the middle one, within rounding |
| RankChoice.LeastIntegerMayBeLonger | packages/contracts/src/rank.ts:296-303 | where the source calls the integer the shortest rank in the gap: far below zero a shorter one fits |
| RankGeneration.CarryLoop | packages/contracts/src/rank.ts:157-172 | the in-place loop leaves the array holding the successor's digits and says whether all wrapped |
| RankGeneration.IncrementInteger | packages/contracts/src/rank.ts:155-186 | the array algorithm computes the specified increment, heads and lengths included |
| RankGeneration.BorrowLoop | packages/contracts/src/rank.ts:191-203 | the in-place loop leaves the predecessor's digits and says whether all wrapped |
| RankGeneration.DecrementInteger | packages/contracts/src/rank.ts:189-214 | the array algorithm computes the specified decrement |
| RankGeneration.ComputeMidpoint | packages/contracts/src/rank.ts:352-392 | the scan over shared digits and the recursion terminate with the specified midpoint |
| RankGeneration.GenerateRankSequence | packages/contracts/src/rank.ts:409-422 | the loop refuses a negative count and otherwise yields the specified sequence |
| RankGeneration.SequenceAscends | packages/contracts/src/rank.ts:409-422 | seeded ranks ascend strictly, for every count |
| RankGeneration.SequenceCounts | packages/contracts/src/rank.ts:409-422 | up to the encoding's limit the i-th seeded rank is the bare integer i |
| RankGeneration.SequenceIsShort | packages/contracts/src/rank.ts:409-422 | the first 62 + ... + 62^k seeded ranks fit in k + 1 characters |
| CardOrder.PrecedesIsTotal | packages/contracts/src/rank.ts:444-453 | the comparator is a strict total order on rows |
| CardOrder.ComparesByRankThenId | packages/contracts/src/rank.ts:444-453 | lower rank first, lower id first among equal ranks, level only with itself, and the sign turns when the rows are exchanged |
| CardOrder.MoveIsNotFoundIff | apps/api/src/work/card.service.ts:968-974 | a request is refused as not found if and only if it names a neighbour that is not a live card of the list other than the moved one, before or after any rebalance |
| CardOrder.MoveOutcome | apps/api/src/work/card.service.ts:840-880 | any other request, adjacent neighbours or not, succeeds if and only if the neighbours stand in the order named; the card is then ranked strictly between them off the floor, and the other cards keep their ranks unless the neighbours' tie had the column rebalanced |
| CardOrder.MoveRefinesInsertion | apps/api/src/work/card.service.ts:840-880 | a drop always succeeds; the board then shows the list with the card inserted there if and only if the slot is not below the floor; every other rank is kept when the neighbours' ranks differ |
| CardOrder.RebalanceKeepsOrder | apps/api/src/work/rebalance.ts:45-64 | rewriting all ranks leaves the order of any shown subset as it was |
| CardOrder.RebalanceSeparates | apps/api/src/work/rebalance.ts:45-64 | rebalancing keeps every pair in order and pulls equal ranks apart |
| CardOrder.RebalanceNumbersTheRows | apps/api/src/work/rebalance.ts:45-64 | rebalancing gives the i-th row the bare integer i, up to the encoding's limit |
| CardOrder.ClampIsNearest | apps/web/src/features/work/neighbours.ts:47-51 | an index outside the list counts as its nearest slot |
| CardOrder.DropsRefineEdits | apps/web/src/features/work/neighbours.ts:43-57 | over any run of drops the board shows what the same edits make of a plain list |
| CardOrder.RoomAvoidsFloor | apps/api/src/work/card.service.ts:840-880 | a column whose ranks all count from more than one integer per drop above the floor never meets the floor, rebalances included |
| CardOrder.DropsWithRoomRefineEdits | apps/web/src/features/work/neighbours.ts:43-57 | so every run of drops from such a column shows what the same edits make of a plain list |
| FilterAst.Measure | packages/filter/src/ast.ts:234-258 | the early-exit stack loop accepts exactly the trees within both limits by the recursive definitions, and then reports true sizes |
| FilterFields.OperatorsMakeSense | packages/filter/src/fields.ts:75-84 | which types each operator is for |
| FilterFields.ValuesLetThrough | packages/filter/src/validate.ts:86-140 | which values a field may be compared with: null anywhere, `@me` where it is accepted, otherwise a value its type can hold |
| FilterFields.ValidIffComparisonsAre | packages/filter/src/validate.ts:33-76 | a filter is valid if and only if each of its comparisons is, however they are nested |
| FilterCompile.CompilesIff | packages/filter/src/compile.ts:79-119 | a filter compiles if and only if the field set has a table, the filter is valid, its fields have SQL, and the viewer is known where it says `@me`; the first two refusals are told apart |
| FilterEvaluate.OrdersAsNamed | packages/filter/src/evaluate.ts:145-218 | numbers compare as numbers and timestamps by the millisecond they fall in, for each ordering operator |
| FilterEvaluate.EqualAsStored | packages/filter/src/evaluate.ts:145-218 | texts, ids, options and flags are equal or they are not, and no value compares with a missing one |
| FilterEvaluate.ContainsLooksForTheText | packages/filter/src/evaluate.ts:129-135 | `contains` searches lower-cased text, for the word "null" when the value is null |
| FilterEvaluate.NothingMatchesTheUnknown | packages/filter/src/evaluate.ts:90-95 | an unknown field matches nothing, and a field the row lacks is in no list |
| FilterLike.EscapeIsPerCharacter | packages/filter/src/compile.ts:315-317 | three global replaces in this order equal one escape per character |
| FilterLike.EscapingIsExact | packages/filter/src/compile.ts:220-226 | `%` + escaped + `%` matches a text exactly when it contains the value, whatever the value holds |
| FilterParity.EmitExtends | packages/filter/src/compile.ts:106-112 | parameters already pushed never move while the rest of the tree is emitted |
| FilterParity.ContainsAgrees | packages/filter/src/compile.ts:220-226 | for a needle both backends fold alike, the escaped pattern finds it in exactly the texts the lower-cased search does |
| FilterParity.UnlikeFoldDisagrees | packages/filter/src/evaluate.ts:129-135 | a needle they fold otherwise parts them on the text that differs from it in that one character |
| FilterParity.AlikeSplitsAgree | packages/filter/src/evaluate.ts:193-203 | a bound read alike splits microsecond timestamps as the evaluator splits them rounded to milliseconds |
| FilterParity.UnlikeSplitsDisagree | packages/filter/src/evaluate.ts:193-203 | a bound read otherwise has a timestamp on which the two differ, for each ordering operator and column |
| FilterParity.BindsIffBindable | packages/filter/src/compile.ts:159-253 | a comparison binds only values its column's type reads exactly when its own values are such |
| FilterParity.AgreesExactlyWhenSafe | packages/filter/src/compile.ts:159-253 | a comparison runs and selects the same rows in SQL as in memory, over all rows, if and only if its values can be bound, no null is listed against a scalar column that may hold one, ids are spelled as stored, its date is read alike and its needle folded alike |
| FilterParity.NullListDisagrees | packages/filter/src/compile.ts:186-218 | with a null listed against a scalar, a row holding NULL is matched in memory and not in SQL, for both list operators |
| FilterParity.RespelledIdDisagrees | packages/filter/src/evaluate.ts:115-127 | an id listed only in another spelling matches in SQL and not in memory |
| FilterParity.CompiledMeansEvaluated | packages/filter/src/compile.ts:79-157 | every safe tree runs, and on every admitted row is kept exactly when the evaluator matches, through groups, empty groups and nested NOT |
| FilterParity.CompiledRunsIffBindable | packages/filter/src/compile.ts:79-119 | a compiled filter runs exactly when Postgres can read every value its comparisons bind, and is otherwise refused whatever the row |
| FilterParity.FractionalBoundIsRefused | packages/filter/src/validate.ts:115-116 | `number > 1.5` is valid and compiles; the evaluator matches a card numbered 2 and Postgres refuses the statement |
| FilterParity.MicrosecondEqualityIsUnsafe | packages/filter/src/evaluate.ts:220-227 | equality with a date is never safe on a column that keeps microseconds |
| FilterParity.EvaluateReadsWhatIsAsked | packages/filter/src/evaluate.ts:57-96 | the evaluator's answer depends on the fields the filter asks about and no others |
| FilterParity.RulesMatchTheBoard | apps/worker/src/automation/engine.ts:242-277 | a safe filter matches the worker's copy of a card exactly when the board shows the card, if the copy holds every field the filter asks about |
| FilterParity.UnreadLabelNeverMatches | apps/worker/src/automation/engine.ts:242-262 | the failing input: the copy has no `label`, so a label filter shows the card and matches it in no rule |
| FilterText.DecimalRoundTrip | packages/db/src/expressions.ts:232 | reading a spelled placeholder number gives the number back |
| FilterText.SpelledHoles | packages/filter/src/compile.ts:135-157 | the text holds the expression's placeholders in the expression's order |
| FilterText.PlaceholdersAreConsecutive | packages/filter/src/compile.ts:106-112 | left to right the placeholders are consecutive numbers from the start index, one per parameter |
| FilterText.SplitRecoversPieces | packages/db/src/expressions.ts:218 | splitting a text free of stray dollars recovers the literals and numbers it was spelled from |
| FilterText.SplitIsLossless | packages/db/src/expressions.ts:218 | splitting any text at all, stray dollars included, loses nothing and takes every number whole |
| FilterText.CompiledPredicate | packages/db/src/expressions.ts:217-240 | the loop over the split parts is the specified binding, error cases included |
| FilterText.PredicateRoundTrip | packages/db/src/expressions.ts:217-240 | handing over a filter compiled from index one never throws, binds every parameter once, in order, where it was emitted |
| FilterReader.NumberReads | packages/filter/src/compile.ts:106-112 | a placeholder no digit runs into is read back as its number and the text after it |
| FilterReader.NumbersRead | packages/filter/src/compile.ts:197-206 | a list of placeholders is read back up to its closing bracket |
| FilterReader.SingleReads | packages/filter/src/compile.ts:159-253 | every single predicate's text, with its column, words, sign, placeholders and cast, is read back as that predicate |
| FilterReader.ReadsBack | packages/filter/src/compile.ts:121-157 | the text of any expression is read back as that expression, its groups joined by the word for their connective throughout; only the connective of a one-part group, which shows nowhere, is not told |
| FilterReader.CompiledTextReadsBack | packages/filter/src/compile.ts:79-157 | the whole text a filter compiles to is read back, as an expression with the same truth value on every row and the same values bound |
| FilterReader.TextMeansEvaluated | packages/filter/src/compile.ts:79-157 | the text a safe filter compiles to, read by SQL's own words and run with its parameters, keeps a row exactly when the evaluator matches it: all parts for AND, some part for OR, the negation for NOT |
| FilterReader.TextReadsOneWay | packages/filter/src/compile.ts:121-147 | two expressions that begin one text are the same as read, and leave the same rest |
| FilterReader.TextDeterminesMeaning | packages/filter/src/compile.ts:135-147 | over columns whose texts can be told apart (`IsReadable`, a check on the field set) two compiled filters with one text are one filter on every row: no regrouping by precedence, no column and no placeholder is mistaken for another |
| FilterReader.CardColumnsAreReadable | packages/filter/src/fields.ts:102-172 | any field set made of three of the cards' columns, the two that open a bracket of their own among them, meets that check |
| FilterReader.SharedColumnHidesTheFilter | packages/filter/src/fields.ts:102-172 | the failing input: two fields over one column text give filters spelled alike that select different rows |
| FilterEmitter.Emitter.PushParameter | packages/filter/src/compile.ts:109-112 | pushing appends one value and answers with its own number |
| FilterEmitter.Emitter.EmitComparisonText | packages/filter/src/compile.ts:159-253 | the string built over the shared parameters is the specified expression's text |
| FilterEmitter.Emitter.EmitListText | packages/filter/src/compile.ts:186-218 | list texts, empty lists included, with one parameter per value |
| FilterEmitter.Emitter.EmitText | packages/filter/src/compile.ts:121-157 | the recursive string builder spells the specified tree and pushes its parameters |
| FilterEmitter.CompileFilter | packages/filter/src/compile.ts:79-119 | refusals, text and parameters are the specification's |
| Outbox.InsertKeepsOrder | packages/db/src/outbox.ts:36-62 | appending keeps the claim order and adds exactly the one event |
| Outbox.PendingMembers | packages/db/src/outbox.ts:186-193 | an event is claimable exactly when it is in the outbox, unmarked for this consumer, and not locked |
| Outbox.PendingHasNoRepeats | packages/db/src/outbox.ts:186-193 | a claim never names an event twice |
| Outbox.ClaimsOldestFirst | packages/db/src/outbox.ts:186-190 | events are claimed oldest first, ids settling ties |
| Outbox.RecordAllRows | packages/db/src/outbox.ts:251-275 | recording failures adds one attempt to each named row of this consumer, and changes no mark and no other row |
| Outbox.MarkAllRows | packages/db/src/outbox.ts:225-239 | marking sets exactly the named marks of this consumer and changes no count |
| OutboxProtocol.ClaimIsFresh | packages/db/src/outbox.ts:171-193 | a claim takes distinct rows held by no open transaction, each owed to the consumer in the tables it reads |
| OutboxProtocol.StepKeepsInv | apps/realtime/src/relay.ts:100-131 | every append, claim, delivery, failure, commit and crash keeps claims disjoint and dispatches accounted for |
| OutboxProtocol.AppendedIsOwed | packages/db/src/outbox.ts:171-193 | an append adds exactly its events, each claimable by every consumer, and touches no mark or open batch |
| OutboxProtocol.EveryRunIsSafe | apps/realtime/src/relay.ts:100-131 | on every run open claims are disjoint, each mark had its dispatch return, and every return is the mark, in flight, rolled back, or a repeat of a marked event |
| OutboxProtocol.CurrentClaimsNeverRepeat | apps/realtime/src/relay.ts:100-131 | when no claim reads behind a commit, returns beyond the first are exactly those a crash rolled back |
| OutboxProtocol.MarksComeFromCommits | apps/realtime/src/relay.ts:100-131 | a mark appears only by a commit of that consumer's batch that dispatched the event, and never disappears |
| OutboxProtocol.ConsumersAreIndependent | packages/db/src/outbox.ts:217-275 | one consumer's marks and failures never change another's rows |
| OutboxProtocol.UnmarkedStaysClaimable | packages/db/src/outbox.ts:171-193 | an event unlocked, and unmarked in the tables a claim reads, is taken exactly when fewer than the limit are ahead of it there |
| OutboxProtocol.CrashFreesItsRows | apps/realtime/src/relay.ts:100-131 | a crash leaves both tables as they were and frees exactly its batch's rows |
| Relay.Relay.DispatchAll | apps/realtime/src/relay.ts:105-127 | the batch loop delivers in order and counts each failure without abandoning the rest |
| Relay.Relay.DrainOnce | apps/realtime/src/relay.ts:100-131 | one transaction claims the head of the queue, marks its deliveries and leaves its failures in front of the rest |
| Relay.Relay.DrainFully | apps/realtime/src/relay.ts:134-141 | the loop ends, returns the number of deliverable events, and leaves exactly the failing ones pending in order |
| Relay.QueueAfterBatch | apps/realtime/src/relay.ts:100-131 | what the next claim sees after a batch commits, read off the tables |
| Relay.DrainRows | apps/realtime/src/relay.ts:134-141 | row by row a drain marks the deliverable events and raises each failing one's attempts by the number of batches that claimed it |
| Relay.EachEventIsClaimed | apps/realtime/src/relay.ts:134-141 | a deliverable event is claimed once; a failing one at least once, and by every batch when the first holds it |
| Relay.DrainEndsIffFewFail | apps/realtime/src/relay.ts:134-141 | the drain loop ends if and only if fewer than a batch of pending events keep failing |
| Relay.ReachedIffFewFailAhead | packages/db/src/outbox.ts:186-193 | an event is ever claimed if and only if fewer than a batch of failing events is ahead of it |
| Relay.DrainOnceIsARun | apps/realtime/src/relay.ts:100-131 | the relay's batch is a claim-to-commit run of the protocol |
| WriteAheadLog.RoundingIsHarmlessIffCovered | apps/collab/src/persist.ts:99-142 | the millisecond cutoff never loses a row, and agrees with the in-database one if and only if the rows it re-reads change nothing |
| WriteAheadLog.RoundingCanReadmit | packages/db/src/docs-materialize.ts:4-26 | a snapshot that leaves out a row of its own millisecond makes the two cutoffs differ |
| WriteAheadLog.ReadsInLogOrder | apps/collab/src/persist.ts:121-142 | the log tail is read in the order it was logged |
| WriteAheadLog.PrunesInLogOrder | apps/collab/src/persist.ts:156-166 | pruning keeps the order of what it keeps |
| CollabProtocol.StepKeepsInv | apps/collab/src/compaction.ts:57-84 | every step of append, apply, compaction, crash and load keeps every logged update recoverable, dating a snapshot only when it misses nothing that overlapped it (`CompactionIsSafeIff` is the exact condition) |
| CollabProtocol.EveryLoggedUpdateIsRebuilt | apps/collab/src/replay.ts:24-36 | after any careful run, wherever cut off, loading gives every logged update and invents none, and both cutoffs agree |
| CollabProtocol.QuietRunsAreCareful | apps/collab/src/gateway.ts:135-142 | encoding with nothing pending and logging nothing until the snapshot is dated is careful enough |
| CollabProtocol.RunKeepsGrounded | apps/collab/src/compaction.ts:57-84 | on every run, careful or not, nothing stored or live comes from anywhere but the log or the guard |
| CollabProtocol.CompactionIsSafeIff | apps/collab/src/compaction.ts:57-84 | a compaction that prunes loses nothing if and only if each overlapping update was encoded or kept a row in the snapshot's own millisecond |
| CollabProtocol.CompactionIsARun | apps/collab/src/compaction.ts:57-84 | the whole compaction is the four steps run one after another |
| CollabProtocol.StartsIffSomethingToRead | apps/collab/src/compaction.ts:57-84 | a compaction starts exactly when a row follows the snapshot, and remembers every row it read |
| CollabProtocol.CompactionRoundTrips | apps/collab/src/compaction.ts:57-84 | after an uninterrupted compaction loading gives the encoded document, nothing is left to read, and nothing is lost if and only if every pending update was in it |
| CollabProtocol.OverlappedApplyIsLost | apps/collab/src/gateway.ts:135-142 | a reachable run whose edit, logged but not yet applied, is pruned and gone |
| CollabProtocol.EditBehindTheSnapshotIsLost | apps/collab/src/versions.ts:52-70 | a reachable run whose edit is still in the log but dated before the snapshot, read by no load and triggering no compaction |
| Collab.ReplayPage | apps/collab/src/replay.ts:24-36 | the loop leaves the document with the snapshot and every row since |
| Collab.LoadPage | apps/collab/src/gateway.ts:154-156 | opening a page replays it into a new document, which is the protocol's load |
| Collab.HandleMessage | apps/collab/src/gateway.ts:135-142 | a message is logged exactly when it is applied; a read-only or contentless one does neither |
| Collab.CompactPage | apps/collab/src/compaction.ts:57-84 | the method's effect on document, snapshots and log is the protocol's uninterrupted compaction |
| Collab.ReloadAfterCompaction | apps/collab/src/compaction.ts:57-84 | with nothing pending a reload keeps every logged update, and compacting again does nothing |
| RichText.EmptyAttributesAreValidIff | apps/api/src/work/richtext.ts:52-112 | a node type allows having no attributes exactly when it is not one of the four that require some |
| RichText.SchemasAdmitExactly | apps/api/src/work/richtext.ts:52-112 | the elements a document may hold, type by type and attribute by attribute, and no others |
| RichText.MarksAdmitExactly | apps/api/src/work/richtext.ts:125-176 | five marks that say nothing more, and links with a web or mail address and one of three targets |
| RichText.SuffixedMarkKeepsItsName | apps/collab/src/content-guard.ts:62-66 | taking the hash suffix off a suffixed name gives its last line, so the name exactly when it has no line break |
| RichText.UnsuffixedMarkIsItsName | apps/collab/src/content-guard.ts:62-66 | a key without a hash suffix is left as it is |
| ContentGuard.SuffixedMarksAreJudgedByName | apps/collab/src/content-guard.ts:89-110 | a suffixed mark is valid exactly when the mark it names is |
| ContentGuard.CharacterStands | apps/collab/src/content-guard.ts:77-86 | a run's characters are every character of every segment in its place, and no others |
| ContentGuard.PlainTextIsTheRun | apps/collab/src/content-guard.ts:82-86 | the text the guard takes from a run is all of its characters |
| ContentGuard.GuardStrips | apps/collab/src/content-guard.ts:118-176 | only known elements with valid or no attributes and allowed marks remain, whatever came in |
| ContentGuard.GuardKeepsText | apps/collab/src/content-guard.ts:118-176 | characters and surviving elements stay in order and nothing is added |
| ContentGuard.UncountedIffAllowed | apps/collab/src/content-guard.ts:118-176 | both counts are zero exactly for a document on the whitelist, which is left as it was |
| ContentGuard.SecondPass | apps/collab/src/content-guard.ts:118-176 | a second pass changes nothing, and still counts exactly the elements left without required attributes |
| ContentGuard.EmptiedHeadingIsReportedForever | apps/collab/src/content-guard.ts:133-137 | a document every later pass reports as changed |
| ContentTree.GuardChild | apps/collab/src/content-guard.ts:124-162 | one visit replaces one node of the parent's forest by what the guard makes of it |
| ContentTree.GuardElement | apps/collab/src/content-guard.ts:126-142 | clearing an element and walking below it touches nothing outside it |
| ContentTree.Walk | apps/collab/src/content-guard.ts:122-163 | the backward loop with deletions visits each original child once and leaves the guarded forest |
| ContentTree.EnforceContentWhitelist | apps/collab/src/content-guard.ts:118-176 | the whole pass: stripped tree, same characters, true counts, and "changed" false exactly for a whitelisted document |
| RateLimit.FixedWindowLimiter.Hit | apps/realtime/src/rate-limit.ts:67-78 | counts refused attempts too; opens a window when none is live |
| RateLimit.FixedWindowLimiter.Sweep | apps/realtime/src/rate-limit.ts:88-92 | drops exactly the expired windows |
| RateLimit.AttemptsAreCounted | apps/realtime/src/rate-limit.ts:67-78 | every attempt within a window is counted, refused ones too, and no other key's count changes |
| RateLimit.SweepLeavesTheLive | apps/realtime/src/rate-limit.ts:88-92 | after a sweep exactly the running windows are left, as they were |
| RateLimit.BurstIsBounded | apps/realtime/src/rate-limit.ts:52-92 | on every run with a nondecreasing clock one key gets at most 2 * limit - 1 allowed hits in any interval one window long |
| RateLimit.BurstIsReached | apps/realtime/src/rate-limit.ts:44-51 | and that many can be had |
| RateLimit.SweepsNeverChangeAnswers | apps/realtime/src/rate-limit.ts:80-92 | sweeps inserted anywhere change no answer |
| TokenQuota.QuotaStore.Consume | packages/db/src/api-token-quota.ts:69-119 | one upsert decides, counts and rolls over; a refusal writes nothing |
| TokenQuota.LastUseIsRecent | packages/db/src/api-token-quota.ts:110-119 | after a granted call the last use is at most a minute out of date, and is not rewritten within the minute |
| TokenQuota.CountersAreGrants | packages/db/src/api-token-quota.ts:77-94 | unless a day left comes back, the stored counters are the numbers of granted and of granted expensive calls on the stored day |
| TokenQuota.GrantedIffRoomIsLeft | packages/db/src/api-token-quota.ts:95-98 | then a call is granted exactly when its day's grants are below every ceiling that applies to it |
| TokenQuota.NoDayExceedsItsQuota | packages/db/src/api-token-quota.ts:51-55 | then no day grants more than either ceiling |
| TokenQuota.ExpensiveNeverBlocksNormal | packages/db/src/api-token-quota.ts:22-29 | with the expensive class used up a normal call the total allows is granted |
| TokenQuota.RefusedCallsVanish | packages/db/src/api-token-quota.ts:57-66 | a run goes as if its refused calls had not been made |
| TokenQuota.VisitedOnceNeverReturns | packages/db/src/api-token-quota.ts:77-94 | visiting no day twice is the same as no day coming back, in whatever order the days are visited |
| TokenQuota.QuotaHoldsIffNoDayReturns | packages/db/src/api-token-quota.ts:77-98 | every run visiting days in a given order keeps both ceilings on every day if and only if no day is visited twice |
| Rooms.Gateway.HandleJoin | apps/realtime/src/gateway.ts:290-341 | throttled, invalid, denied, failing and granted joins; only a granted one touches the rooms |
| Rooms.Gateway.CountRefusal | apps/realtime/src/gateway.ts:777-785 | a refusal is counted, and over the limit the socket is disconnected |
| Rooms.RemoveMember | apps/realtime/src/revocation.ts:145-152 | leaves exactly the rooms of the org |
| Rooms.Recheck | apps/realtime/src/revocation.ts:177-211 | keeps exactly the rooms of the org that still pass; a throwing check does not pass |
| Rooms.ApplyRevocation | apps/realtime/src/revocation.ts:120-166 | every socket of the namespace ends as the sweep of its own state |
| RoomProtocol.StepKeepsInv | apps/realtime/src/gateway.ts:290-371 | every step keeps the rooms map equal to actual membership and every room traced to a granted decision |
| RoomProtocol.EveryRoomHeldIsFresh | apps/realtime/src/revocation.ts:120-227 | with joins taken as one step every room held was granted no earlier than the last revocation that concerns it |
| RoomProtocol.StaleExactlyWhenLate | apps/realtime/src/gateway.ts:310-334 | on every run, late admissions and all, a room held is stale if and only if its last admission was late and no revocation that concerns it has been processed since |
| RoomProtocol.RoomsAreEnteredByAdmission | apps/realtime/src/gateway.ts:310-334 | a socket enters a room only by a decided join taking effect, which does put it in |
| RoomProtocol.SocketsLeaveAndClose | apps/realtime/src/gateway.ts:343-371 | leaving leaves that room, closing all of them, a new socket holds none, and nobody else is touched |
| RoomProtocol.OnlyGrantsAreGranted | apps/realtime/src/gateway.ts:310-334 | only a decision that came out as granted is recorded or left to take effect; a refusal or a failure is not |
| RoomProtocol.EveryRoomHeldWasGranted | apps/realtime/src/gateway.ts:290-341 | on every run each room held goes back to a join decision, or a sweep's check, that came out as granted |
| RoomProtocol.ProcessedRevocationsRestoreFreshness | apps/realtime/src/revocation.ts:120-211 | on every run, once a revocation is processed every room it concerns that is still held is fresh, however it was admitted |
| RoomProtocol.RowsReachTheirSubjects | apps/realtime/src/revocation.ts:60-166 | on every run a row that is not about a session reaches exactly its subjects: of their rooms in its org those stay that pass, none on a removal, and everyone else's sockets are as they were |
| RoomProtocol.RowsEndTheirSession | apps/realtime/src/revocation.ts:71-81 | on every run a row about a session closes all of that session's sockets and leaves every other socket as it was |
| RoomProtocol.IllegibleRowsDoNothing | apps/realtime/src/revocation.ts:60-111 | a row changes something only if it is of a known kind and, but for grants, says whom it is about |
| RoomProtocol.HeldUntilTaken | apps/realtime/src/revocation.ts:120-227 | after any run, whatever follows: a room is lost only to its socket's own leaving or closing, the end of its session, or a revocation that concerns its user and that it fails |
| Revocations.AsksIffLegible | apps/realtime/src/revocation.ts:60-111 | a row yields a message if and only if it is a revoked grant, or a session or membership row with a legible id |
| Revocations.AsksForExactly | apps/realtime/src/revocation.ts:69-108 | for each message, the rows that yield it and no others, sessions and their reasons included |
| Revocations.RevocationConcernsItsSubject | apps/realtime/src/revocation.ts:60-111 | a revoked grant concerns its subject, or everyone in the org when that is a team or illegible; a membership row exactly the member it names; no other row anyone's rooms |
| RoomProtocol.LateAdmissionOutlivesRemoval | apps/realtime/src/gateway.ts:314-332 | a run that leaves a removed member in a room of the org |
| RoomProtocol.StepKeepsGrantsParse | apps/realtime/src/revocation.ts:188-192 | rooms are only ever granted for ids that parse, so the sweep's refusal of unparseable ones drops nothing |

## Left out

- FilterParity.CompiledMeansEvaluated: a sufficient condition for whole trees; it is exact for a single comparison (`AgreesExactlyWhenSafe`) and for running at all (`CompiledRunsIffBindable`), but a comparison that runs and disagrees does no harm under `FALSE AND ...`.
- FilterParity.ContainsAgrees: each backend folds case one character at a time; foldings that change a text's length or depend on neighbouring characters are not modelled.
- FilterReader.TextDeterminesMeaning: `IsReadable` is enough but not necessary (a column may not begin with another bracketed one's own text), and is shown for three of the cards' columns; what the database makes of one predicate's text, column expression included, is not derived from its characters.
- CardOrder.DropsRefineEdits: moves of archived cards, authorization, and moves between lists; a drop is within one list.
- CardOrder.MoveRefinesInsertion: `ORDER BY` and locking are a mathematical sort of one list's rows; two concurrent moves are not interleaved.
- RankGeneration.GenerateRankSequence: a count that is not an integer.
- Relay.Relay.DrainFully: asks for the exact condition under which the loop ends, and takes one verdict per event and a fixed set of rows locked by others for the whole drain.
- ContentTree.EnforceContentWhitelist: text runs are immutable values that are replaced whole; transactions and the updates an edit broadcasts are not modelled.
- Strings are sequences of characters, not UTF-16 code units; ids and ranks are compared as such.
- Symbolic date resolution, each backend's date parsing and character folding, and UUID spelling are parameters of a filter's environment; a symbolic date out of range, which throws, is not modelled. The wire schema's pairing of operators and operands is assumed; validation is modelled.
- Arrays of ids with NULL elements in the database.
- Postgres snapshot rules beyond row locks, commit, rollback and a claim reading tables older than a concurrent commit.
- The relay's timer, its skip flag while a tick runs, its stop handle, and the notification listener.
- Event payload columns, error texts and the narrowing of raw rows.
- Yjs integration beyond idempotent union (causal gaps between updates), Hocuspocus message decoding and scheduling, manual versions and restore.
- More than one compaction of a page at a time, and more than one process holding a page.
- Rooms.Recheck: a sweep is one step with one verdict per room, where the source awaits each check; joins, leaves and other sweeps that run while one is under way are not interleaved with its checks.
- Rooms.ApplyRevocation: concurrent sweeps, for the same reason; the source starts one per message without waiting for the last.
- A socket that disconnects between the decision and the effect of a join, presence broadcasts, and the chat namespace, whose call ids share a map with channel ids.
- Handshakes, token verification, the policy engine, and membership reads: the join decision is an arbitrary function that may throw.
- The per-address connection limiter's wiring and the limiter's diagnostics.
- The automation budget, a smaller copy of the quota step.
- The optimistic client cache, provider adapters, feature flags, event-room tables and user interfaces.
