# A verified model of the edge agent's decisions

The edge agent drives cellular modules at a customer's site and answers to a cloud service. Most of
it is plumbing; the parts below are where a wrong step loses a message, sends it twice, hands a card
half a request or stops managing a working module. This project models those parts in Dafny and
proves what they promise, for every input, every interleaving, every card and every clock.

| part | files | what it is |
|---|---|---|
| Module arbiter | `Arbiter` | the two-priority lock in front of one module, as the interleaving of its critical sections, and the class that carries it |
| Message reassembly | `Sorting`, `Concat`, `Assembler`, `Reassembly`, `Deliveries`, `Settle`, `Texts`, `Leftovers`, `MessageOrder` | fragments paired into messages, what is left over and for how long, and which slots may be cleared |
| Command ledger | `Ledger`, `LedgerRuns`, `Answers`, `Executor` | at-least-once deliveries, a journal that survives crashes, an executor that acts at most once, and what it answers |
| Card data | `Tlv`, `StoreData`, `BoundProfile`, `Chunked` | BER-TLV, the `STORE DATA` chain, cutting a Bound Profile Package, and the transfer coding packages arrive in |
| Short messages | `Bits`, `Septets`, `Gsm7`, `Utf16`, `Address`, `Calendar`, `Pdu`, `Submit` | packing, alphabets, addresses, timestamps and whole PDUs, there and back |
| Authentication gate | `Aka`, `UsimGate` | STATUS, perhaps SELECT, then AUTHENTICATE, against a card that may answer anything |
| Decisions over runs | `Retro`, `Alert` | quarantine before a module is let go, and the alert throttle |

How the outside is modelled:

- Threads are an arbitrary sequence of enabled steps of any number of callers; a release is two steps,
  clearing `held` and notifying, because the code drops the mutex in between.
- Crashes, failed writes and failed actions are a fate carried by each interaction. A journal write may
  be refused and yet be on disk. Memory and the outbox are lost in a crash, the journal and what the
  modem was made to do are not. Reading the journal back may lose a stored result, a row, or all rows;
  what may not happen to a row for each promise is stated with it.
- A card is an arbitrary function of everything sent and answered so far.
- Clocks are parameters, and nothing is assumed about them.
- Where the code loops or updates fields, so does the model: a method with the same loop, or a class with
  those fields, is proved equal to a specification function, and the theorems are about that function.
  Machine integers are subset types and saturation, truncation and division towards zero are written out.

Where the code and its comments disagree, or a promise has a limit, the model follows the code and says
exactly where the promise ends:

- `deliver` promises to execute at most once. That holds of exactly the commands that write `executing`
  first (`LedgerRuns.NeverTwiceExactlyWhenMarkedFirst`); a matrix update and a self update do not, and
  are repeated after a crash between the action and its result.
- The promise also rests on the journal: after a touch, a restart rules out a second one exactly if it
  reads the command's row (`LedgerRuns.SettledExactlyWhenRead`), and a journal that cannot be loaded
  leads to one (`LedgerRuns.LostJournalTouchesTwice`).
- A result that reached the outbox but could not be written down stays there: what the outbox sends is what
  the next delivery answers exactly if the command was new to the outbox or both happen to say the same
  (`Answers.SentIsAnsweredExactlyWhenNew`, `Answers.SentOtherwiseThanAnswered`).
- Pairing fragments oldest first "keeps the fragments of one delivery together" exactly when the oldest
  deliveries arrived complete (`Deliveries.AssembledArePureExactlyWhenOldestAreComplete`).
- A group released early gives up every slot it holds, but reads only the first fragment of each number:
  no text is lost exactly if no released group has two of one number
  (`Texts.UsedTextsAreKeptExactlyWhenNumbersDiffer`, `Texts.ATextIsLost`).
- A written length is cut to three octets: the TLV writer is right exactly below 2^24
  (`Tlv.EncodeRoundTripsBelow16M`).
- The package splitter says it walks a fixed order; it accepts the elements in any order
  (`BoundProfile.OrderNeverMatters`).
- A timestamp whose day the month does not have is accepted and read as a date in the next month; it is
  read in its own month exactly when the date exists (`Calendar.ImpossibleStampRollsOver`,
  `Calendar.ThirtiethOfFebruary`, `Calendar.ReadInItsMonthExactlyWhenReal`).
- A header is promised never to show in the text; it does in seven-bit text exactly when it is cut off
  (`Pdu.HeaderReachesTextExactlyWhenCut`).
- The chunked coding is taken off without looking at what ends a chunk, and a sum stops the program at exactly
  the two largest sizes (`Chunked.AcceptsExactlyChunks`, `Chunked.OverflowsExactlyAtTheLargestSizes`).
- The grace before a module is let go is kept whatever is read and whatever marks are not written; the
  module passed in none of it exactly if no clearing failed in it, and a pass whose clearing fails is
  forgotten (`Retro.NothingPassedInTheGrace`, `Retro.UnnotedPassIsForgotten`).

## Model

| member | source | states |
|---|---|---|
| Arbiter.MutualExclusion | edge-modem/src/at.rs:1364-1413 | in every interleaving of any number of callers at most one holds the module, `held` says whether one does, and both counters equal the callers really waiting |
| Arbiter.NoLostWakeup | edge-modem/src/at.rs:1364-1402 | whenever the module is free and somebody waits, a notification is outstanding or some awake waiter would be granted it on its next test, although `notify_all` runs after the mutex is dropped |
| Arbiter.AkaIsNeverOvertaken | edge-modem/src/at.rs:1357-1386 | no normal caller is granted the module at any step between an AKA caller registering and being granted |
| Arbiter.Drains | edge-modem/src/at.rs:1364-1402 | once arrivals and spurious wakeups stop, every schedule is finite and one that cannot go on has served everybody |
| Arbiter.StuckMeansEmpty | edge-modem/src/at.rs:1364-1402 | no step is possible exactly when nobody is using the arbiter |
| Arbiter.ServedBeforeLeaving | edge-modem/src/at.rs:1364-1402 | a waiter that is gone held the module at some moment in between |
| Arbiter.RunKeepsInvariant | edge-modem/src/at.rs:1364-1402 | bookkeeping and the absence of forgotten sleepers survive every run |
| Arbiter.ModemArbiter.Arrive | edge-modem/src/at.rs:1364-1386 | registering and the first guard test are one step of the state machine; the module is granted exactly if it is free and, to a normal caller, no AKA caller waits, and otherwise the caller is counted and asleep |
| Arbiter.ModemArbiter.TestGuard | edge-modem/src/at.rs:1366-1384 | one pass of either wait loop: take the module and leave the count, or sleep, under the same condition |
| Arbiter.ModemArbiter.ClearHeld | edge-modem/src/at.rs:1396-1399 | the first half of release |
| Arbiter.ModemArbiter.NotifyAll | edge-modem/src/at.rs:1400-1401 | the second half: every sleeper is awake, nobody else moves, no protected field changed |
| Arbiter.ModemArbiter.Waiting | edge-modem/src/at.rs:1387-1394 | in every reachable state the report equals the callers' real places |
| Assembler.Assemble | edge-core/src/concat.rs:81-180 | the loops compute the assembly the specification defines, messages and waiting rows, in order |
| Assembler.GroupUp | edge-core/src/concat.rs:86-108 | the first loop passes rows through that are no fragments and groups all others by sender, reference and total |
| Assembler.VisitAll | edge-core/src/concat.rs:110-177 | groups are settled one after another in key order |
| Assembler.QueueUp | edge-core/src/concat.rs:114-117 | one queue per sequence number, in arrival order |
| Assembler.SortQueues | edge-core/src/concat.rs:118-120 | each queue sorted by stamp, unstamped first, then by position |
| Assembler.CountWhole | edge-core/src/concat.rs:122-125 | as many whole messages as the shortest queue, counting absent queues as empty |
| Assembler.TakeRound | edge-core/src/concat.rs:126-135 | one message from the same place in every queue, bodies joined in fragment order |
| Assembler.Remainder | edge-core/src/concat.rs:137-144 | everything behind the paired places, by position |
| Assembler.NewestStamp | edge-core/src/concat.rs:146-149 | the latest stamp among the leftovers that have one |
| Assembler.Release | edge-core/src/concat.rs:159-176 | the early message: text, a marker per gap, all leftovers as sources |
| Assembler.SettleQueues | edge-core/src/concat.rs:122-177 | pairing, waiting or releasing for one group |
| Assembler.LeastKey | edge-core/src/concat.rs:86-110 | the key an ordered map yields next is below every other |
| Reassembly.EveryRowIsAccountedForOnce | edge-core/src/concat.rs:81-180 | conservation: every input position occurs exactly once across all source lists and the waiting list, and nothing else occurs |
| Reassembly.EveryMessageIsAccounted | edge-core/src/concat.rs:36-56 | every message is a row passed through, a whole message with every number once in order and no gaps, or a group released after the grace with a true list of missing numbers |
| Reassembly.LeftoversHaveAGap | edge-core/src/concat.rs:122-144 | leftovers of a group always lack some number entirely |
| Reassembly.GapsAreAbsences | edge-core/src/concat.rs:161-169 | a number is reported missing exactly when no leftover carries it |
| Reassembly.NewestIsLatest | edge-core/src/concat.rs:146-150 | the stamp the grace is measured from is carried by a leftover and none is later |
| Deliveries.AssembledArePureExactlyWhenOldestAreComplete | edge-core/src/concat.rs:67-75 | every whole message of a group that the pass returns consists of one delivery's fragments if and only if the oldest deliveries, as many as the group has whole messages, all arrived complete |
| Deliveries.MessagesArePureExactlyWhenOldestAreComplete | edge-core/src/concat.rs:67-75 | the same of the rounds taken from the queues of any rows of one group |
| Deliveries.CompleteDeliveriesComeOutWhole | edge-core/src/concat.rs:67-75 | complete deliveries come out one message each, oldest first, and leave nothing waiting |
| Deliveries.AnIncompleteDeliveryIsCrossed | edge-core/src/concat.rs:111-135 | three rows for which the assembler returns, as whole, the first half of one message joined to the second half of the next |
| Deliveries.LookingAgainChangesNothing | edge-core/src/concat.rs:58-61 | a second pass over just the waiting rows completes nothing, releases nothing and leaves each of them waiting |
| Texts.UsedTextsAreKeptExactlyWhenNumbersDiffer | edge-core/src/concat.rs:156-176 | the text of every fragment whose slot is given up as used is in a ready message if and only if no released group has two leftovers of one number |
| Texts.TextsAreReadExactlyWhenNumbersDiffer | edge-core/src/concat.rs:156-176 | over a pass every source's text is read if and only if the numbers in each message with a gap differ; in messages without one they always do |
| Texts.BodyIsItsPieces | edge-core/src/concat.rs:126-189 | the body of every assembled message is, number by number, the text of the first source that carries it or a note of which part of how many is missing |
| Texts.BodyIsFilled | edge-core/src/concat.rs:126-169 | every assembled body is the texts of the first source of each number, in order, with a marker where there is none |
| Texts.UnreadTextNeverShows | edge-core/src/concat.rs:161-169 | a text that is not read has no influence on the body, whatever it says |
| Texts.ReadTextShows | edge-core/src/concat.rs:161-169 | a text that is read stands in the body |
| Texts.ATextIsLost | edge-core/src/concat.rs:156-176 | two first halves of which one message names both as sources and says only what the first said |
| Texts.MarkerNamesThePart | edge-core/src/concat.rs:182-189 | the marker for a gap is never empty and names the missing part and the number of parts, in the numerals a person would write |
| Leftovers.LeftAreReleasedExactlyWhenOld | edge-core/src/concat.rs:137-177 | for every pass and group, told from the rows and the messages: the fragments in no message that lacks nothing are released, all of them in one message with gaps and none of them waiting, if and only if one of them has a stamp and every stamp among them is older than the grace; otherwise every one of them waits |
| Leftovers.WaitsExactlyWhileYoung | edge-core/src/concat.rs:146-154 | a fragment waits if and only if it is left over in a group that has not grown old |
| Leftovers.FragmentWaitsForADay | edge-core/src/concat.rs:16 | at the fragments of a pass over the store, with the grace of a day |
| Leftovers.LeftExactlyWhenANumberRunsOut | edge-core/src/concat.rs:118-144 | a fragment is left over if and only if some number has no more fragments than stand before it, by stamp, unstamped first, and then by place |
| Leftovers.PairedByRank | edge-core/src/concat.rs:118-135 | the fragments of one whole message have equally many of their own number before them |
| MessageOrder.MessagesComeInOrder | edge-core/src/concat.rs:86-177 | rows passed through come first by place, then the groups by sender, reference and total, each with its whole messages oldest first and what is released of it last |
| Settle.SettleInbound | edge-core/src/settle.rs:84-139 | each ready message is labelled with its own fragments' encoding, slots and fingerprints, seen fragments go to `already_ours`, the rest are counted as pending |
| Settle.Separate | edge-core/src/settle.rs:89-104 | the parallel lists keep fragment, slot, encoding and fingerprint together, and a short `seen` counts as unseen |
| Settle.Label | edge-core/src/settle.rs:107-132 | source positions of the compressed list are turned back into the pass's own |
| Settle.Deletable | edge-core/src/settle.rs:67-75 | the slots that may be cleared, ascending and without repeats |
| Settle.EachFragmentHasOneFate | edge-core/src/settle.rs:84-139 | every fragment is exactly one of stored already, used in a ready message, or waiting |
| Settle.DeletableExactlyWhenSettled | edge-core/src/settle.rs:14-21 | a slot may be cleared exactly when its fragment is stored already or used, never while it waits for siblings |
| Settle.DeletablePlusPendingIsEverything | edge-core/src/settle.rs:53-75 | deletable slots and pending fragments add up to the pass |
| LedgerRuns.TouchedAtMostOnce | edge-agent/src/lib.rs:898-984 | over every run of deliveries, refused writes, crashes and lossy restarts the modem is touched at most once for a command whose begun row no restart drops, and only after an `executing` row for it reached the disk |
| LedgerRuns.NeverTwiceExactlyWhenMarkedFirst | edge-agent/src/lib.rs:1063-1152 | no run that keeps begun rows performs a command of a class twice if and only if the class writes `executing` before acting |
| LedgerRuns.ActsTwice | edge-agent/src/lib.rs:1063-1152 | for every other class a run with a crash after the action, and every row read back, that performs it twice |
| LedgerRuns.SettledExactlyWhenRead | edge-agent/src/lib.rs:1678-1709 | after a touch and a crash, a restart rules out every further action for the command if and only if it reads its row back with a known phase |
| LedgerRuns.LostJournalTouchesTwice | edge-bin/src/main.rs:5005-5021 | for every command a run in which the journal cannot be loaded and the modem is touched twice |
| LedgerRuns.BegunIsForGood | edge-agent/src/lib.rs:1672-1709 | once `executing` or `terminal` is on disk no later run that keeps the row performs the command's action, of any class, also when a restart can no longer read its result |
| LedgerRuns.RestartKeepsStarts | edge-agent/src/lib.rs:1678-1709 | a restart restores exactly the rows it can read, forgets no start among them, and restores a finished command only with exactly its stored result |
| LedgerRuns.ResultIsFinal | edge-agent/src/lib.rs:986-997 | at every later point of every run whose restarts can read the row, a redelivery changes nothing and answers the first result under its first sequence number, as not executed |
| LedgerRuns.PhaseNeverFalls | edge-agent/src/lib.rs:807-812 | within one process, whatever is refused, no command is forgotten and no phase falls |
| LedgerRuns.AnswersAreKept | edge-agent/src/lib.rs:1749-1778 | whatever a delivery answers is on disk and in memory exactly as it was said, for its own command |
| LedgerRuns.OtherCommandsStay | edge-agent/src/lib.rs:899-984 | a delivery leaves the rows of every other command alone, and all it writes or does is about its own |
| LedgerRuns.UnexecutedIsUntouched | edge-agent/src/lib.rs:941-984 | an answer marked as not executed came with no action |
| LedgerRuns.CleanDeliveryIsAnswered | edge-agent/src/lib.rs:899-984 | an unstarted command delivered in time and without interference is performed and answered with what the action reported, as accepted the first time and duplicate after |
| LedgerRuns.DeliverIsSafe | edge-agent/src/lib.rs:899-984 | one delivery keeps the invariant of every command under every combination of fates |
| LedgerRuns.RestartIsSafe | edge-agent/src/lib.rs:1678-1709 | so does a restart, for every command whose begun row it reads |
| LedgerRuns.SkippedAreTheUnknown | edge-agent/src/lib.rs:1678-1690 | the number reported as skipped is the number of rows whose phase is none of the three names |
| Answers.DeliveryFollowsItsCourse | edge-agent/src/lib.rs:899-984 | under every combination of fates a delivery does to the outside exactly so much of its course, in order: record if new, mark and act only if unstarted and in time, write the result; all of it if it answers |
| Answers.AnsweredExactlyWhenUndisturbed | edge-agent/src/lib.rs:899-984 | a delivery is answered if and only if its ids can be used, every write it comes to is accepted, it does not die in its action and a sequence number is left; the answer is the stored one, unknown, expired, or what the action reported, with its time, attempt, receipt and whether anything was executed |
| Answers.RefusedForItsReason | edge-agent/src/lib.rs:906-928 | which error an unanswered delivery gives, and that it crashed exactly if the process is down |
| Answers.ExpiredIsNeverPerformed | edge-agent/src/lib.rs:960-971 | a delivery at or after its deadline performs nothing for its command under any fate, and an unstarted one whose writes are accepted is answered as expired, not executed, with the time and attempt |
| Answers.RefusedMarkCanBeTriedAgain | edge-agent/src/lib.rs:1741-1747 | if the mark before an action is refused, nothing is performed, the outbox is as it was, and the command is only recorded |
| Answers.InterruptedIsUnknown | edge-agent/src/lib.rs:1566-1589 | a redelivery of an executing command performs nothing, and is answered as unknown, not executed |
| Answers.ActedInTime | edge-agent/src/lib.rs:960-973 | over every run, each action in the log was asked for by a delivery of that command and class that had not expired, and was performed at that delivery |
| Answers.ResultsAreNeverBlanked | edge-store/src/lib.rs:577-602 | over every run no journal row disappears and no stored result or sequence is taken back to nothing, whatever restarts cannot read |
| Answers.OutboxIsNumbered | edge-uplink/src/lib.rs:320-348 | in every reachable state the outbox numbers run from one without gaps, one per command, each record under its own command |
| Answers.SentIsAnsweredExactlyWhenNew | edge-agent/src/lib.rs:1749-1778 | an answer is under the outbox's number for its command, and is the record there if and only if the command was new to the outbox or the record already said the same |
| Answers.SentOtherwiseThanAnswered | edge-agent/src/lib.rs:1749-1778 | for every command a run of two deliveries after which the outbox holds success and the answer is unknown |
| Executor.CommandExecutor.Handle | edge-agent/src/lib.rs:899-984 | the executor's fields after a delivery, and its outcome, are the ledger's |
| Executor.CommandExecutor.Run | edge-agent/src/lib.rs:999-1158 | marking, acting and finishing in the order of the arms |
| Executor.CommandExecutor.Finish | edge-agent/src/lib.rs:1749-1778 | outbox, then journal, then memory; an envelope keeps its first sequence |
| Executor.CommandExecutor.BeginExecuting | edge-agent/src/lib.rs:1741-1747 | journal first, memory second, nothing in memory if the write is refused |
| Executor.CommandExecutor.Record | edge-agent/src/lib.rs:1713-1730 | one journal write under each of its fates |
| Executor.CommandExecutor.Store | edge-store/src/lib.rs:577-602 | the upsert replaces the phase and never blanks a stored result or sequence |
| Executor.CommandExecutor.RestoreCommands | edge-agent/src/lib.rs:1678-1709 | the loop restores the specified table and counts exactly the rows whose phase is unknown |
| Tlv.ParsesExactlyTheGrammar | edge-modem/src/es10c.rs:1048-1088 | reading succeeds exactly on the BER grammar with lengths of at most four octets, and there is one way to read |
| Tlv.ReadTlv | edge-modem/src/es10c.rs:1048-1088 | the reader's loops compute that reading |
| Tlv.ReadDer | edge-modem/src/es9p.rs:1074-1122 | the certificate parser's own tag walk, length fold and end test accept exactly the same grammar with the same split as the card's reader, and the bytes it hands over for the signature are the element, readable on their own |
| Tlv.Children | edge-modem/src/es9p.rs:1124-1132 | the loop finds the elements a value is made of |
| Tlv.ElementsAreTheOnlySplit | edge-modem/src/es9p.rs:1124-1132 | a value is taken apart exactly when it is a concatenation of elements, and in the only way possible |
| Tlv.FindTag | edge-modem/src/es10c.rs:1253-1262 | the loop returns the first child with the tag before anything unreadable |
| Tlv.FoundExactlyWhenFirst | edge-modem/src/es10c.rs:1253-1262 | a value is found if and only if an element with the tag stands behind elements without it; what follows is not looked at |
| Tlv.ElementStandsAlone | edge-modem/src/es10c.rs:1247-1250 | the first element reads the same with anything or nothing behind it |
| Tlv.EncodeRoundTripsBelow16M | edge-modem/src/es10c.rs:1221-1240 | what is written, followed by any tail, reads back as tag, value and tail if and only if the value is shorter than 2^24 octets; beyond that exactly the length modulo 2^24 is read |
| Tlv.DerLengthIsMinimal | edge-modem/src/es10c.rs:1221-1231 | no other octets for the same length are shorter |
| Tlv.MinimalIntegerRoundTrips | edge-modem/src/es10c.rs:1265-1269 | every 64-bit number reads back, from the shortest octets |
| Tlv.ReadInteger | edge-modem/src/es10c.rs:981-988 | the fold is the big-endian value, refused if empty or over eight octets |
| Tlv.NotificationRoundTrips | edge-modem/src/es10c.rs:1657-1675 | a wrapped sequence number comes back out, with any padding behind it |
| Tlv.AnswerIsReadExactlyWhenGiven | edge-modem/src/es10c.rs:1665-1675 | a number is read from exactly the answers that are an element BF30 beginning with an element 80 of one to eight octets worth it |
| Tlv.NarrowAgrees | edge-modem/src/aka.rs:666-682 | on single-byte tags the third reader equals the first wherever the length takes at most two octets and reads nothing else |
| Chunked.DechunkBody | edge-modem/src/es9p.rs:620-647 | the loop takes the chunks off as specified, including the sum it does not check |
| Chunked.FindLineEnd | edge-modem/src/es9p.rs:624-630 | the scan finds the first line end |
| Chunked.AcceptsExactlyChunks | edge-modem/src/es9p.rs:620-647 | a body is accepted if and only if it is chunks with data followed by a line of size zero, and gives exactly what they carry; the two octets after each chunk and all after the last line are not looked at |
| Chunked.EveryChunkingIsUndone | edge-modem/src/es9p.rs:620-647 | however a body is cut into chunks, with any extensions and any trailer, it is put together again |
| Chunked.SizeIsReadExactlyWhenWritten | edge-modem/src/es9p.rs:631-635 | a line gives a size if and only if it is hexadecimal digits of either case worth it and below 2^64, with white space around them, perhaps a plus sign before and an extension behind |
| Chunked.OverflowsExactlyAtTheLargestSizes | edge-modem/src/es9p.rs:639 | the sum of size and two stops the program if and only if, after any chunks, a line announces one of the two largest sizes of a machine word, except that without overflow checks the largest with nothing after it is reported as malformed |
| Chunked.SixteenDigitsStopTheProgram | edge-modem/src/es9p.rs:639 | a line of sixteen digits f is such a body |
| StoreData.BuildChain | edge-modem/src/es10c.rs:396-430 | the chain as built is the specified one |
| StoreData.CardReceivesPayload | edge-modem/src/es10c.rs:390-430 | a chain is built for exactly 1 to 65280 octets, no command is over 260 octets, and a card that follows it ends with the payload and is done only with the last block |
| StoreData.AcceptedChainsCarryTheirPayload | edge-modem/src/es10c.rs:390-395 | any chain such a card accepts is numbered in a row, says there is more until its last, and leaves exactly what it carries |
| BoundProfile.CutPackage | edge-modem/src/es10c.rs:1517-1611 | header, first element and the walk, with the errors in the code's order |
| BoundProfile.CutRest | edge-modem/src/es10c.rs:1547-1611 | the walk over the remaining elements |
| BoundProfile.CutMembers | edge-modem/src/es10c.rs:1584-1595 | one segment per member |
| BoundProfile.AcceptsExactlyPackages | edge-modem/src/es10c.rs:1517-1611 | a package is accepted exactly if it is one element of its tag made of elements, the first opening the channel, the others of the four kinds with well-formed members, at least one of each kind |
| BoundProfile.SegmentsAreThePackage | edge-modem/src/es10c.rs:1510-1516 | the segments are the outer header with the first element, then per element all of it or its header and each member alone, and put together they are exactly the package |
| BoundProfile.SegmentsAreNamed | edge-modem/src/es10c.rs:1540-1595 | the segments' labels: the opening, the first whole element and any other, headers, and members by their place in their element |
| BoundProfile.RefusedForTheFirstFault | edge-modem/src/es10c.rs:1553-1609 | the walk fails with an error if and only if, behind elements that can be cut, there stands what that error says, or all can be cut and a kind is missing |
| BoundProfile.PackageIsRefused | edge-modem/src/es10c.rs:1517-1545 | the same of the whole package, its own tag and its first element |
| BoundProfile.CardReceivesPackage | edge-modem/src/es10c.rs:396-430 | end to end: cut, chained and followed by the card, the package arrives byte for byte exactly when no segment exceeds one chain |
| BoundProfile.OrderNeverMatters | edge-modem/src/es10c.rs:1512-1516 | whether a row of elements is accepted does not depend on their order or number |
| BoundProfile.OrderIsNotChecked | edge-modem/src/es10c.rs:1512-1516 | a package with its elements reversed, and the segments it is sent as |
| Septets.UnpackSeptets | edge-core/src/gsm7.rs:65-89 | the 16-bit accumulator yields exactly the seven-bit slices of the octets' bit string from `skip` on, as many as are wanted and whole |
| Septets.PackSeptets | edge-modem/src/pdu.rs:141-163 | the accumulator yields the septets' bit string eight bits at a time, zero-filled |
| Septets.UnpackUndoesPack | edge-modem/src/pdu.rs:141-163 | unpacking undoes packing for every row of septets |
| Septets.HeaderIsNotRead | edge-core/src/gsm7.rs:56-64 | fields that agree behind a header give the same text, whatever the header's octets |
| Septets.OverwrittenHeaderLeavesText | edge-core/src/gsm7.rs:56-64 | text packed behind filler septets, with any header written over the first octets, still gives back the text |
| Septets.TextIsReadBehindHeader | edge-core/src/gsm7.rs:91-97 | text laid out behind header octets and fill bits is read exactly, whatever the fill bits and whatever follows |
| Septets.LaidOutTextIsRead | edge-core/src/gsm7.rs:129-133 | such a field exists for every header and text, begins with the header and gives the text back |
| Gsm7.ReadSeptets | edge-core/src/gsm7.rs:100-121 | the loop with its escape computes the decoding |
| Gsm7.ReadsExactlySpellings | edge-core/src/gsm7.rs:22-54 | septets read as a text exactly when they spell it character by character through the two tables, with at most a lone escape left over |
| Gsm7.BasicIsPrinted | edge-core/src/gsm7.rs:17-32 | the basic alphabet is the printed table, row by row |
| Gsm7.ExtensionsAreTen | edge-core/src/gsm7.rs:38-56 | exactly ten values read differently after an escape, as these characters |
| Gsm7.NoNul | edge-core/src/gsm7.rs:3-10 | no septets ever read as a text with a NUL in it |
| Gsm7.PackGsm7 | edge-modem/src/pdu.rs:141-163 | a body is packed exactly if all its characters are in the sending subset |
| Gsm7.SentAreSeventy | edge-core/src/sms_draft.rs:31-38 | exactly these seventy characters have a septet, and it is the one that reads as them |
| Gsm7.SentBodyIsRead | edge-core/src/sms_draft.rs:31-43 | every body the encoder packs is read back by the decoder, alone or behind any header |
| Utf16.DecodeUndoesEncode | edge-core/src/pdu.rs:366-379 | every text survives UTF-16, also outside the basic plane |
| Utf16.LosslessExactlyWhenPaired | edge-core/src/pdu.rs:366-379 | reading and writing again gives the units back exactly when every surrogate has its partner |
| Utf16.LoneSurrogateIsReplaced | edge-core/src/pdu.rs:366-379 | a surrogate without its partner reads as U+FFFD and what follows is read on its own |
| Utf16.Ucs2BodyIsRead | edge-modem/src/pdu.rs:88-100 | every text sent as UCS-2 octets is read back |
| Address.PackDigits | edge-modem/src/pdu.rs:122-132 | the loop swaps digits in pairs and fills an odd end |
| Address.ReadDigits | edge-core/src/pdu.rs:350-360 | the loop keeps the decimal halves, in order, up to the announced number |
| Address.NumberIsRead | edge-core/src/pdu.rs:336-364 | every number of any length, under every type of address that is not a name, is read back with its prefix exactly if international |
| Address.OnlyDecimalsAreRead | edge-core/src/pdu.rs:350-360 | whatever half octets an address holds, just the decimal ones are read, in order |
| Address.AnnouncedDigitsAreRead | edge-core/src/pdu.rs:349-364 | no more digits are read than announced, and an empty number has no prefix |
| Address.NameIsRead | edge-core/src/pdu.rs:341-347 | a sender's name is read back from a length counted in half octets |
| Calendar.DaysFromCivilCountsDays | edge-core/src/pdu.rs:317-327 | the closed formula equals counting days by the leap rule, for every year before or after the epoch |
| Calendar.DayAfterDay | edge-core/src/pdu.rs:313-327 | the count is the calendar's: zero at the epoch, and one more for the day after any date, across months and years |
| Calendar.ImpossibleDaysRollOver | edge-core/src/pdu.rs:317-327 | the day formula counts a day the month does not have on into the next month |
| Calendar.ReadStamp | edge-core/src/pdu.rs:270-311 | the digit loop and the checks compute the decoding |
| Calendar.CheckParts | edge-core/src/pdu.rs:283-311 | ranges, sign and zone of the six numbers |
| Calendar.StampIsReadAsItsInstant | edge-core/src/pdu.rs:257-311 | every stamp with a date that exists is read as the instant it names, on either side of Greenwich |
| Calendar.StampIsCounted | edge-core/src/pdu.rs:270-311 | every stamp the field can hold, real date or not, is read, as what its fields count to |
| Calendar.ImpossibleStampRollsOver | edge-core/src/pdu.rs:284-311 | a field whose day its month does not have is read as the real date that many days into the next month |
| Calendar.ThirtiethOfFebruary | edge-core/src/pdu.rs:284-311 | a field of 30 February is read as the first or second of March |
| Calendar.ReadInItsMonthExactlyWhenReal | edge-core/src/pdu.rs:284-311 | the local day a field is read as lies in the month it names if and only if that month has the day, a leap second at midnight counting as the day after |
| Calendar.ZonesAgree | edge-core/src/pdu.rs:297-310 | two stamps that count to the same, as those of one instant in different zones do, are read alike |
| Calendar.OnlyStampsAreRead | edge-core/src/pdu.rs:270-311 | any field that is read is the encoding of such a stamp, up to the sign of a zero offset |
| Pdu.SplitUserDataHeader | edge-core/src/pdu.rs:392-429 | the element loop computes the split |
| Pdu.HeaderIsSplit | edge-core/src/pdu.rs:381-429 | a header of any elements is taken off whole and tells what its last concatenation element tells |
| Pdu.ConcatIsToldByTwoElements | edge-core/src/pdu.rs:414-426 | concatenation is told by exactly two elements, identifier 0 with an 8-bit and 8 with a 16-bit reference, octet by octet |
| Pdu.HeaderReachesTextExactlyWhenCut | edge-core/src/pdu.rs:396-400 | seven-bit text takes in bits of its header's octets if and only if the header is longer than the field and any text is announced; the first septet is then the header's length octet |
| Pdu.WholeHeaderDoesNotShow | edge-core/src/pdu.rs:381-391 | the octets of a header that is all there never show in the text, in any alphabet |
| Pdu.CutHeaderLeavesNoOctets | edge-core/src/pdu.rs:396-400 | in the other alphabets a cut header leaves no text at all |
| Pdu.DecodeDeliver | edge-core/src/pdu.rs:61-150 | the cursor walk reads every field at its place and never past the end, whatever the bytes |
| Pdu.FieldsAreFound | edge-core/src/pdu.rs:61-150 | every field of every delivery is found where it was put |
| Pdu.DecodedExactlyWhenItCarriesFields | edge-core/src/pdu.rs:55-106 | a message is decoded if and only if it is the fields of a delivery, behind a service centre's address or alone with a first octet too large for one, and then as those fields read; otherwise all its bytes can be recovered from its text |
| Pdu.HexIsRead | edge-core/src/pdu.rs:431-437 | the bytes of a message that cannot be walked can be recovered from the text it is given as |
| Pdu.AlphabetIsTwoBits | edge-core/src/pdu.rs:124-142 | the alphabet of every coding scheme, by its two bits |
| Pdu.OctetsAreShown | edge-core/src/pdu.rs:124-142 | eight-bit data is shown so that it can be recovered, without its header |
| Pdu.DecodeStatusReport | edge-core/src/pdu.rs:183-241 | the cursor walk of a status report |
| Pdu.ReportIsRead | edge-core/src/pdu.rs:176-241 | every field of every report is found where it was put, the reference above all |
| Pdu.ReportIsReadExactlyWhenCarried | edge-core/src/pdu.rs:183-241 | a report is read if and only if the message is the fields of one, behind a service centre's address or alone with a first octet too large for one, and says what they say |
| Pdu.FateIsMeant | edge-core/src/pdu.rs:243-256 | the fate of every status is what its three highest bits mean |
| Submit.SubmitCarries | edge-modem/src/pdu.rs:21-120 | a built message asks for a report, quotes the caller's reference, its address reads back as the destination, and its user data is the body's |
| Submit.SentExactlyWhenItFits | edge-modem/src/pdu.rs:53-103 | a message is built if and only if it has a text of at most 160 septets or else 70 units and a destination of one to twenty digits; otherwise the error, with its limit |
| Submit.DestinationIsUsableExactlyWhen | edge-modem/src/pdu.rs:105-120 | a destination is its digits, usable if and only if there are one to twenty, international if and only if its first character is a plus sign |
| Submit.DigitsArePickedOut | edge-modem/src/pdu.rs:110-114 | the digits of a text are those of its parts in order |
| Submit.BodyIsRead | edge-modem/src/pdu.rs:76-101 | the user data of every body that can be sent reads back as that body, under scheme 00 with its length in septets or 08 with it in octets |
| Submit.TextArrives | edge-modem/src/pdu.rs:53-103 | end to end: any text that can be sent, carried in any delivery, is read as that text, from that number, at the instant its stamp counts to |
| Submit.FragmentArrives | edge-core/src/pdu.rs:119-140 | a fragment keeps its text, reference, total and number in either alphabet and with a reference of either size |
| Submit.FragmentIsDelivered | edge-core/src/pdu.rs:61-150 | end to end: so does it in any delivery whose first octet announces a header |
| Aka.StripLeadingPadding | edge-modem/src/aka.rs:692-697 | the loop drops the leading filler |
| Aka.FindTagAmongFiller | edge-modem/src/aka.rs:634-647 | the loop finds the first element with the tag among elements and filler |
| Aka.AidIsReadExactlyWhenNamed | edge-modem/src/aka.rs:619-657 | an application is read from an answer if and only if the answer lists it first under tag 84, inside a 62 or 6F template with any filler around it or, where it is no template, bare |
| Aka.UsimIsReadExactlyWhenNamed | edge-modem/src/aka.rs:451-463 | the gate accepts exactly the answers that name an application with the USIM prefix |
| Aka.Cursor.Take | edge-modem/src/aka.rs:714-722 | takes one length-prefixed field or leaves everything |
| Aka.ReadSuccess | edge-modem/src/aka.rs:566-616 | the cursor walk computes the parse of the keys |
| Aka.KeysAreReadExactlyFromTheirEncodings | edge-modem/src/aka.rs:505-616 | keys are read from a body if and only if it is their plain or their wrapped encoding, with any filler |
| Aka.EncodingsDoNotMeet | edge-modem/src/aka.rs:508-514 | no body is both a plain and a wrapped encoding, of any keys |
| Aka.TokenIsReadExactlyFromItsEncoding | edge-modem/src/aka.rs:534-548 | a resynchronisation token is read exactly from bodies that hold one of fourteen octets |
| Aka.RejectionIsReadExactlyFromItsTag | edge-modem/src/aka.rs:549-557 | a rejection is read from exactly the bodies that are its tag alone or over an empty value |
| UsimGate.RunIsGated | edge-modem/src/aka.rs:368-503 | against every card: a STATUS exchange; a SELECT exchange exactly if the card finished answering STATUS without naming the USIM; AUTHENTICATE, carrying RAND and then AUTN, exactly if one of them named it; and for each way it can end, the result: from the body of a 9000, a rejection for 9862, and the errors |
| UsimGate.NeverAuthenticatesBlind | edge-modem/src/aka.rs:368-384 | every AUTHENTICATE command is preceded, in the same run, by a finished STATUS or SELECT exchange whose answer names the USIM, by the grammar of such answers |
| UsimGate.OnlyThisChallenge | edge-modem/src/aka.rs:340-384 | every AUTHENTICATE any card is sent has RAND and AUTN of this run at their places, and differs from the first at most in the length asked for |
| UsimGate.NothingWithoutChallenge | edge-modem/src/aka.rs:340-352 | a RAND or AUTN that is not sixteen octets is refused by name and reaches no card |
| UsimGate.ExchangeIsItsTranscript | edge-modem/src/aka.rs:465-487 | every exchange ends after at most 258 commands, retries once at most, otherwise only asks for the rest, returns all the data that came, and is given up only after 256 requests |
| UsimGate.UsimAidVerdicts | edge-modem/src/aka.rs:400-416 | a finished answer to STATUS is always a verdict about selection and an unfinished one never; which verdict, by the status word and the application named |
| UsimGate.BasicChannel.UsimAuthenticate | edge-modem/src/aka.rs:375-384 | the run over the channel sends the specified commands and returns the specified outcome |
| UsimGate.BasicChannel.EnsureUsimSelected | edge-modem/src/aka.rs:392-398 | the gate and its one repair |
| UsimGate.BasicChannel.VerifyUsimSelected | edge-modem/src/aka.rs:440-449 | the read-only check |
| UsimGate.BasicChannel.SelectUsimAdf | edge-modem/src/aka.rs:424-433 | the repair, held to the same check |
| UsimGate.BasicChannel.ExchangeApdu | edge-modem/src/aka.rs:470-487 | one command, its retry and the rest of its answer |
| UsimGate.BasicChannel.DrainGetResponse | edge-modem/src/uim.rs:106-129 | the loop collects every part and gives up after 256 |
| Retro.UnbindsExactlyWhenCondemnedForLong | edge-core/src/retro.rs:187-278 | a module is let go if and only if everything was read and condemns it, half an hour after it began to fail and for the hundredth time; it is quarantined if and only if condemned otherwise |
| Retro.KeepsExactlyWhenSound | edge-core/src/retro.rs:187-278 | it passes if and only if everything was read, fresh, recognised and agreeing, and it is driven, listed and measured; it is left alone if and only if it is neither sound nor condemned |
| Retro.HeldForTheFirstReason | edge-core/src/retro.rs:195-250 | it is left alone for a reason if and only if what the reason says is the case and nothing before it is |
| Retro.RefusedForTheFirstGate | edge-core/src/binding.rs:204-240 | the refusal is the first gate that fails, with the time and passes it has failed |
| Retro.NotReadingNeverUnbinds | edge-core/src/retro.rs:6-13 | erasing any of USB identity, observed family, carrier, age or failure start never creates an unbinding |
| Retro.NotReadingNeverPasses | edge-core/src/retro.rs:6-13 | nor does it ever create a pass |
| Retro.AdoptedFamilyOnlyHoldsBack | edge-core/src/retro.rs:217-225 | erasing the adopted family creates an unbinding or a pass exactly where it disagreed with the observed one |
| Retro.UnbindNeedsItsGrace | edge-core/src/retro.rs:148-186 | over every run, whatever is unreadable or unwritten and however the clock jumps, an unbinding has a beginning half an hour earlier, no noted pass, adoption or confirmation since, and a hundred failing looks |
| Retro.LetGoExactlyWhen | edge-core/src/retro.rs:148-186 | over every run a module is let go if and only if the look fails, half an hour after the countdown began, with ninety-nine noted failing looks since it last started over, counted modulo 2^32 |
| Retro.NothingPassedInTheGrace | edge-bin/src/main.rs:9085-9105 | an unbinding has one beginning, half an hour and a hundred failing looks earlier, since when no look found the module sound if and only if every look that did was noted |
| Retro.UnnotedPassIsForgotten | edge-bin/src/main.rs:9085-9105 | if a pass could not be noted, a countdown that has run out lets the module go at the next failing look, where a noted pass would have quarantined it |
| Retro.PassedAndLetGo | edge-bin/src/main.rs:9085-9105 | a run of 101 looks, for any such looks, in which the module passes at the last but one and is let go at the last |
| Retro.MarksAreAccurate | edge-store/src/lib.rs:1818-1900 | the countdown kept in the store is never ahead of what the run shows |
| Retro.MarksAreExact | edge-store/src/lib.rs:1818-1900 | the countdown is exactly the noted failing looks since it last started over, from the first of them or from the confirmation that started it |
| Alert.CodesAreIndependent | edge-core/src/alert.rs:95-130 | what is decided about a code is what would be decided had no other code occurred |
| Alert.AnnouncementsAreAWindowApart | edge-core/src/alert.rs:107-119 | between clears any two announcements of a code are at least a window apart, under any clock |
| Alert.DecidedByTheStanding | edge-core/src/alert.rs:95-122 | every decision of every run: sent as new if and only if no announcement of the code stands uncleared; otherwise held back if and only if that announcement is less than a window ago, and else repeated with the number held back since, up to the counter's limit |
| Alert.MemoryIsTheStanding | edge-core/src/alert.rs:75-122 | what is remembered of a code is its latest uncleared announcement and how many were held back since |
| Alert.SuppressedWasAnnounced | edge-core/src/alert.rs:107-114 | what is remembered of a code is an announcement of this run, uncleared since |
| Alert.RepeatsAccountForTheHeld | edge-core/src/alert.rs:111-118 | reported repeats and the held count equal the occurrences suppressed since the last clear if and only if none was suppressed with the counter full, and fall short by exactly those |
| Alert.AlertThrottle.Consider | edge-core/src/alert.rs:95-122 | the decision and the new memory of one occurrence |
| Alert.AlertThrottle.Clear | edge-core/src/alert.rs:128-130 | forgets exactly that code |

## Left out

- The AT, QMI, TLS, HTTP (but for its chunked coding) and SQLite layers, the panel, the proxy and voice: input and output around the logic, or tables that would only add easy members.
- The arms of `execute` one by one: every arm is one of three classes (marks itself executing and uses a port, installs a matrix, stages an update); what a port call does is its fate.
- A ledger without a journal attached, where every journal write silently succeeds; and the pruning of old journal rows.
- Sequence numbers across restarts: the outbox starts empty in every process, so a replayed result may carry a number the new process gives out again; nothing is claimed about it.
- Arbiter: a poisoned mutex, that is, a panic while the state is locked.
- Reading profile metadata, notifications and installation results field by field, and decoding of ICCIDs.
- How octets that are not ASCII are turned into text: the decoder of a chunk's size line is any function that reads ASCII as itself.
- Text of error messages, hexadecimal dumps in them, and labels other than the segments'.
- Strategy resolution and the capability matrix themselves: the gates take what is driven, listed and measured as arbitrary functions.
- The batching of one enforcement pass over all modules into alerts.
- Submit.FragmentArrives: is about receiving; the encoder itself never splits a long text, it refuses it.
