# Durable journal, exact arithmetic and repository gates: a Dafny model

The repository keeps its consumable-rights ledger and its false-stop ("Andon") accounting in
two append-only files. Each file is a fixed header followed by length-framed,
sequence-numbered, CRC-chained records. It is written by a deterministic encoder, read back by a
strict replayer, and owned by an object that poisons itself before any I/O and publishes new state
only after a sync. On top of the Andon file sits a resumable importer. Two scripts fix the exact
arithmetic of an activation score and of a sequential likelihood-ratio test, and three gates check
a dependency graph for cycles, a Cargo graph against reviewed rows, and Unicode tables against
their source ranges.

This project models those parts and proves what they are for.

| file | contents |
|---|---|
| `Bytes`, `Order`, `Spelling`, `Limbs` | little-endian words, ordered enumeration of sets and maps, UTF-8 and string order, powers of two, limb vectors |
| `Crc`, `Polynomials` | CRC-32 as in section 8 of RFC 1952: register bijection, burst detection, the polynomial remainder it computes |
| `FramedLog` | any header-plus-frames log: accepted language, truncation, torn writes, the crash machine and its safety over all runs |
| `Rights`, `RightsHistory`, `EventCodec`, `Journal`, `Reserve`, `Batch`, `ReplayCursor`, `FileJournal` | the rights ledger and what its fields say about whole runs, its event codec, the journal object, the recovery reserve, batched encoding, incremental replay, the file owner |
| `Headers` | what the headers of both files bind |
| `AndonLedger`, `Congress`, `AndonReview`, `AndonCodec`, `AndonFile`, `AndonOwner`, `Import` | the false-stop ledger, the capped vote and the reviews that confirm a hold, its record codec, its log, the file owner, the evaluated importer |
| `Activation`, `Consistency`, `NullCrossing` | the 9-limb dot product and its intervals, the 129-limb ratio test, the crossing probability |
| `Cycles`, `Ranges`, `Admission`, `Metadata`, `Projection`, `Rendering` | cycle detection, range tables, the admission evaluator, Cargo metadata, its projection, and the rendering that projection inverts |

`FramedLog` is where the two files meet. A concrete format only has to be `Faithful`: what it emits
is what it takes, what it takes is what it emits, and each record advances the sequence by one.
`RightsJournal.LogIsFaithful` and `AndonFile.LogIsFaithful` establish that from the codecs and the
ledgers; the language, truncation and crash theorems then hold for both.

Three results go further than the source says. Damage is detected for any change confined to four
consecutive bytes of a record body and its checksum, not only for one byte. The Andon preflight comment
calls preflight no capacity reservation, yet no accepted Andon transition can meet a storage limit
(`AndonFile.PublishNeverLimited`), so after a successful preflight only I/O can stop an import. And the reported
dependency cycles are not just nonempty when a cycle exists: every cycle runs through the closing step
of some reported chain.

## Model

| member | source | states |
|---|---|---|
| `Crc.Crc32Parts` | crates/fa-journal/src/journal_core.rs:495-510 | the bitwise loop computes CRC-32 of the concatenation, so the checksum does not depend on how the input is split |
| `Crc.FeedConcat` | crates/fa-journal/src/journal_core.rs:499-510 | the register after a concatenation is the register after its second half, started from the first |
| `Crc.ShiftInjective` | crates/fa-journal/src/journal_core.rs:503-506 | one shift-and-xor step is a bijection of the 32-bit register |
| `Crc.FeedInjective` | crates/fa-journal/src/journal_core.rs:499-510 | feeding the same bytes never merges two different registers |
| `Crc.CodewordIffChecksum` | crates/fa-journal/src/journal_core.rs:241-252 | a message followed by four bytes passes the checksum test exactly when the whole is a codeword of fixed residue |
| `Crc.BurstBreaksCodeword` | crates/fa-journal/src/journal_core.rs:241-252 | replacing up to four consecutive bytes of a codeword by others of the same length never gives a codeword |
| `Polynomials.ShiftMultiplies` | crates/fa-journal/src/journal_core.rs:503-506 | one register step multiplies the register's polynomial by x modulo the generator |
| `Polynomials.CrcIsRemainder` | crates/fa-journal/src/journal_core.rs:495-510 | the reflected, complemented checksum is the one 32-bit remainder of the message polynomial, after 32 ones and before 32 zeros, modulo the generator of RFC 1952 |
| `Spelling.ValidIff` | crates/fa-journal/src/journal_core.rs:435-438 | the bytes a string field accepts are exactly those some Unicode scalar values spell |
| `Bytes.LittleEndian` | crates/fa-journal/src/journal_core.rs:310-317 | byte i of a word is its i-th base-256 digit, least significant first |
| `Spelling.PrecedesIff` | crates/fa-journal/src/file.rs:554-560 | strings are ordered by their first differing byte, a prefix first |
| `RightsLedger.ReduceConserves` | crates/fa-reference/src/logical_core.rs:230-368 | every accepted transition keeps held + available + spent equal to the total; unit sums never overflow, only the epoch and incident counters can |
| `RightsLedger.ResetConserves` | crates/fa-reference/src/logical_core.rs:322-351 | a checkpoint reset adds exactly the units of the unkept reservations to the balance, conserves the total, and fails only when the incident counter is full |
| `RightsLedger.ApplyConserves` | crates/fa-journal/src/journal_core.rs:321-340 | the final conservation check of `apply_event` never fires on a conserved ledger |
| `RightsLedger.LiabilityPersists` | crates/fa-reference/src/logical_core.rs:230-351 | a dispatched or uncertain effect stays on the books until its own reconciliation |
| `RightsHistory.StagesAreTold` | crates/fa-reference/src/logical_core.rs:230-351 | in every accepted run a reservation exists iff it was made, with the effect of every event about it; it is Committed iff reconciled as occurred, Aborted iff cancelled, reconciled as not occurred or dropped by a reset, and otherwise Unknown, Dispatched or Reserved as its events say |
| `RightsHistory.SpentIsCommitted` | crates/fa-reference/src/logical_core.rs:296-320 | over every accepted run, spent is the sum of the units of committed reservations |
| `RightsHistory.AvailableIsTheRest` | crates/fa-reference/src/logical_core.rs:230-351 | over every accepted run, available is the total less the units of reservations not aborted |
| `RightsHistory.CountersAreTold` | crates/fa-reference/src/logical_core.rs:230-233 | epoch and incident count are the numbers of revocations and resets |
| `RightsHistory.DispatchIsFresh` | crates/fa-reference/src/logical_core.rs:258-271 | no revocation lies between a reservation and its accepted dispatch |
| `RightsHistory.NextAcceptedIff` | crates/fa-reference/src/logical_core.rs:230-351 | which event an accepted run may be continued with, by its events and stages |
| `RightsHistory.RefusedBecause` | crates/fa-reference/src/logical_core.rs:230-351 | the error of a refused event names the first cause that applies |
| `EventCodec.EncodedDecodes` | crates/fa-journal/src/journal_core.rs:342-493 | decoding the encoding of any event returns that event, whenever the encoding is shorter than 2^32 bytes, as every frame limit ensures |
| `EventCodec.EventLayout` | crates/fa-journal/src/journal_core.rs:342-399 | the wire form of each event, byte by byte: tag, field order, length words, ascending checkpoint ids |
| `EventCodec.DecodedReencodes` | crates/fa-journal/src/journal_core.rs:440-493 | every accepted byte string is the encoding of the event it decodes to |
| `EventCodec.EncodeEvent` | crates/fa-journal/src/journal_core.rs:342-399 | the buffer-filling encoder yields the canonical bytes exactly when they fit the limit, and the limit error otherwise |
| `EventCodec.Decode` | crates/fa-journal/src/journal_core.rs:401-493 | the consuming cursor computes the same result as the pure parser, on every input |
| `EventCodec.Cursor.Ids` | crates/fa-journal/src/journal_core.rs:471-487 | the id loop accepts exactly strictly increasing ids and collects them |
| `RightsJournal.AppendedIsTaken` | crates/fa-journal/src/journal_core.rs:180-279 | reading an appended frame, with anything after it, gives back the event, the state and the remaining bytes |
| `RightsJournal.TakenIsAppended` | crates/fa-journal/src/journal_core.rs:218-279 | every record the replay loop accepts is the frame append would have written in that state |
| `RightsJournal.LogIsFaithful` | crates/fa-journal/src/journal_core.rs:180-292 | the two directions together, and each append advances the sequence by one |
| `RightsJournal.AppendedRecord` | crates/fa-journal/src/journal_core.rs:180-203 | an accepted event adds its length, the next sequence, the last checksum, its bytes and the checksum of all that, which becomes the new head; nothing but the ledger, head and length changes |
| `Reserve.ConfiguredIff` | crates/fa-journal/src/journal_core.rs:124-155 | which identities, limits and reserves a journal accepts |
| `Reserve.RecoveryAcceptedIff` | crates/fa-journal/src/reserve.rs:113-137 | revocation, uncertainty, cancellation and settlement are accepted iff the ledger takes them and the frame limit and the whole remaining file hold them, whatever the reserve |
| `Reserve.OrdinaryAcceptedIff` | crates/fa-journal/src/reserve.rs:113-137 | reservation, dispatch and reset are accepted iff besides they leave the reserve's records and bytes |
| `Reserve.OrdinaryLeavesReserve` | crates/fa-journal/src/reserve.rs:68-90 | after any ordinary event of any run the whole reserve is left |
| `Reserve.ReserveAwaitsRecovery` | crates/fa-journal/src/reserve.rs:68-90 | a fresh journal has its reserve, and keeps it until the first recovery event |
| `Reserve.ReserveServes` | crates/fa-journal/src/reserve.rs:68-90 | an intact reserve serves any recovery events the ledger takes, up to its records and bytes |
| `Reserve.ReserveHoldsRevocations` | crates/fa-journal/src/reserve.rs:20-36 | every configurable reserve has bytes for as many revocations as it has records |
| `Reserve.RunPlays` | crates/fa-journal/src/journal_core.rs:180-203 | the ledger of a journal is the one its accepted events lead to |
| `Headers.HeaderBindsConfiguration` | crates/fa-journal/src/journal_core.rs:295-319 | no header begins a file of another run, policy, total or reserve, or under a reserve of other limits |
| `Headers.OtherConfigurationRefused` | crates/fa-journal/src/journal_core.rs:218-229 | a file of one configuration opened under another is refused as bound elsewhere, or as too short for the header |
| `Headers.OtherLedgerRefused` | crates/fa-journal/src/file.rs:295-319 | a file of one deployment and evaluator opened for another is refused as bound elsewhere |
| `RightsJournal.ReplayLanguage` | crates/fa-journal/src/journal_core.rs:209-279 | a stream replays to a state iff it is the header and the frames of some successful run ending there, with the retained head on that run |
| `RightsJournal.TruncationNeverMisread` | crates/fa-journal/src/journal_core.rs:218-279 | a canonical stream cut at any byte opens iff the cut is a record boundary at or after the retained head, to exactly the state there |
| `RightsJournal.DamageRefused` | crates/fa-journal/src/journal_core.rs:241-252 | up to four consecutive altered bytes of any record, length word excepted, make replay refuse under every retained head |
| `RightsJournal.Journal.Append` | crates/fa-journal/src/journal_core.rs:180-203 | the object either advances by one specified step and returns its frame, or refuses unchanged |
| `RightsJournal.Journal.ReadRecord` | crates/fa-journal/src/journal_core.rs:229-271 | one turn of the replay loop takes exactly the record the specification takes, with the same refusals |
| `RightsJournal.Journal.ReplayAll` | crates/fa-journal/src/journal_core.rs:209-279 | the whole loop returns the journal that the specification opens, or its error |
| `FramedLog.OpenLanguage` | crates/fa-journal/src/journal_core.rs:218-279 | for any faithful log, opening succeeds exactly on the images some run wrote, with the anchor on that run |
| `FramedLog.OpenUnderHead` | crates/fa-journal/src/journal_core.rs:262-279 | a run's own file under any head: stale beyond its end, bound elsewhere if the head was never on it, opened otherwise |
| `FramedLog.CutOpens` | crates/fa-journal/src/journal_core.rs:218-279 | for any faithful log, which truncations open and to what |
| `FramedLog.TornFrameRefused` | crates/fa-journal/src/journal_core.rs:231-252 | a proper prefix of a frame is never a record |
| `FramedLog.RunBytesDetermineRecords` | crates/fa-journal/src/journal_core.rs:180-203 | two runs whose bytes agree as far as the shorter goes wrote the same records |
| `FramedLog.RecoveryIsExact` | crates/fa-journal/src/file.rs:108-196 | opening a disk after any torn write gives all acknowledged records and at most whole records of the group in flight |
| `FramedLog.StepKeepsDurable` | crates/fa-journal/src/file.rs:172-196 | commit, torn persist, crash and reopen all keep the durability invariant and never shorten the acknowledged history |
| `FramedLog.EveryRunIsSafe` | crates/fa-journal/src/file.rs:108-196 | over every run of commits, torn writes, crashes and reopenings, a live owner matches its disk, and a head acknowledged at any time later recovers nothing or a history with everything acknowledged since and only submitted records |
| `FramedLog.DamageIsMet` | crates/fa-journal/src/journal_core.rs:218-279 | if the reader refuses a damaged frame whatever follows it, the whole damaged file does not open under any head |
| `Batch.PushIsBoundedAppend` | crates/fa-journal/src/batch.rs:115-153 | pushing is appending that also has to fit the ceiling; the narrowed payload limit refuses nothing that fits |
| `Batch.PrepareBatch` | crates/fa-journal/src/batch.rs:55-112 | succeeds iff the group is nonempty, the ceilings are valid and cover it, and repeated append accepts it; bytes and state are then those of repeated append |
| `Batch.AppendBatch` | crates/fa-journal/src/batch.rs:43-53 | publishes that state, or leaves the journal untouched |
| `Batch.RunGrowth` | crates/fa-journal/src/batch.rs:76-112 | a run's bytes are at least 21 per record and account exactly for the growth of the encoded length |
| `ReplayCursor.TakeIsLocal` | crates/fa-journal/src/replay.rs:210-303 | a record's acceptance depends only on its own bytes, not on what has been read ahead |
| `ReplayCursor.Cursor.Advance` | crates/fa-journal/src/replay.rs:163-303 | a poll yields only with an allowance used up and the synchronous outcome still ahead; it is ready with exactly the synchronous result; it fails only with the synchronous refusal, the fault of the last call it made, or a full call counter |
| `ReplayCursor.Cursor.Poll` | crates/fa-journal/src/replay.rs:210-303 | every call but the last was interrupted or moved a byte, and the counters account for all of it |
| `ReplayCursor.ReplayInSteps` | crates/fa-journal/src/replay.rs:120-344 | any budgets and reader behaviour yield the journal of synchronous replay or its refusal; otherwise a call the polls can reach failed or overstated its count, or the polls were fewer than twice the input's bytes plus the stalls (empty budgets and reachable interruptions), or those stalls filled the 64-bit call counter |
| `ReplayCursor.SteadyReplayIsExact` | crates/fa-journal/src/replay.rs:120-344 | with a steady reader, usable budgets and enough polls the result is the synchronous one in both directions |
| `ReplayCursor.ReplayToEnd` | crates/fa-journal/src/file.rs:114-118 | polling with unlimited budgets ends after at most four polls, with that same outcome |
| `RightsFile.FileJournal.CommitBatch` | crates/fa-journal/src/file.rs:139-196 | refuses before I/O, or poisons and leaves exactly: on a completed sync the batch's bytes on disk, its state and its events acknowledged; on a stopped write a prefix of those bytes, the old state, and the batch in flight. On a consistent owner this is a commit or a tear of precisely that batch |
| `RightsFile.FileJournal.Commit` | crates/fa-journal/src/file.rs:123-137 | the same for one event, under default ceilings that refuse nothing append accepts |
| `RightsFile.FileJournal.Reopen` | crates/fa-journal/src/file.rs:108-121 | polls the incremental replay to its end; a live owner holds precisely the bytes and the state strict replay gives them, and every refusal has a stated cause |
| `RightsFile.SteadyReopenIsExact` | crates/fa-journal/src/file/recovery.rs:72-190 | with a steady reader and completed syncs a file is refused only if strict replay refuses it, with its error or for exceeding the size limit |
| `RightsFile.RightsRunsAreSafe` | crates/fa-journal/src/file.rs:108-196 | whole-run safety for every configured rights journal file |
| `RightsFile.FileJournal.ReopenAfterCrash` | crates/fa-journal/src/file/recovery.rs:72-190 | after any failed batch commit, opening the disk under any acknowledged head refuses or yields the acknowledged state advanced by a complete prefix of the batch in flight |
| `RightsFile.FileJournal.RecoveredIsConsistent` | crates/fa-journal/src/file/recovery.rs:149-190 | a recovered owner is again a consistent owner, reached by a step of the crash machine |
| `Andon.RegisterKeepsInv` | crates/fa-reference/src/round/review.rs:350-384 | a new disjoint window keeps every window's books balanced |
| `Andon.RegisterEffect` | crates/fa-reference/src/round/review.rs:350-384 | registration adds at most the one window, keeps all confirmations, and an exact retry changes nothing |
| `Andon.RegisteredIff` | crates/fa-reference/src/round/review.rs:350-384 | a new window is registered iff it is well shaped, there is room, and no time is covered by it and a registered one |
| `Andon.KnownIsFixed` | crates/fa-reference/src/round/review.rs:350-384 | what is registered or recorded is accepted again unchanged and refused in any other form |
| `Andon.RefusedBecause` | crates/fa-reference/src/round/review.rs:350-478 | the error of a refused window or fact names the first cause that applies |
| `Andon.CoveringIsUnique` | crates/fa-reference/src/round/review.rs:470-478 | at most one window covers a time |
| `Andon.ChargeKeepsInv` | crates/fa-reference/src/round/review.rs:479-504 | after a charge, stops, cost, contributing rounds and the incident again match the confirmations of each window |
| `Andon.RecordEffect` | crates/fa-reference/src/round/review.rs:431-511 | a recorded fact is on the books under its window, everything earlier stays, and only a new round adds a confirmation |
| `Andon.RecordedIff` | crates/fa-reference/src/round/review.rs:431-478 | a new fact is recorded iff it is this ledger's, complete, bounded and attributed, there is room, and a registered window covers its time |
| `Andon.ChargeEffect` | crates/fa-reference/src/round/review.rs:479-511 | exactly the covering window is charged, once; the report says an incident opened iff there was none before and is one now, opened by this round; an open incident keeps its opener |
| `Andon.IncidentOpensOnce` | crates/fa-reference/src/round/review.rs:485-486 | the incident opens with the stop that first reaches the allowance, the first stop of all when nothing is allowed |
| `Andon.RetryIsFree` | crates/fa-reference/src/round/review.rs:438-444 | an exact retry reports the original window and leaves the ledger as it is |
| `Andon.RecordNeverOverflows` | crates/fa-reference/src/round/review.rs:479-484 | the checked additions of stops and cost cannot fail on a reachable ledger |
| `AndonCodec.EncodedEntryDecodes` | crates/fa-journal/src/file.rs:520-667 | decoding the encoding of any record within the decoder's bounds returns that record |
| `AndonCodec.EntryLayout` | crates/fa-journal/src/file.rs:520-562 | the wire form of each record, byte by byte, helpers in name order |
| `AndonCodec.DecodedEntryReencodes` | crates/fa-journal/src/file.rs:615-667 | every accepted payload is within the bounds and is the encoding of its record: ascending helper names, full consumption |
| `AndonCodec.Decode` | crates/fa-journal/src/file.rs:578-667 | the offset-advancing decoder computes the same result as the pure parser |
| `AndonFile.PublishedIsTaken` | crates/fa-journal/src/file.rs:320-361 | reading a published frame gives back the record and the state |
| `AndonFile.TakenIsPublished` | crates/fa-journal/src/file.rs:320-361 | every record the open loop accepts is the frame publishing would write in that state |
| `AndonFile.LogIsFaithful` | crates/fa-journal/src/file.rs:320-361 | both directions, and one sequence number per record |
| `AndonFile.PublishedRecord` | crates/fa-journal/src/file.rs:505-576 | an accepted record adds its length, the next sequence, its bytes and a checksum chained to the last one, which becomes the new head |
| `AndonFile.PublishNeverLimited` | crates/fa-journal/src/file.rs:452-470 | whatever transition the ledger accepts fits frame, file and record limits |
| `AndonFile.DamageRefused` | crates/fa-journal/src/file.rs:320-361 | up to four consecutive altered bytes of any Andon record, length word excepted, make opening refuse under every retained head |
| `AndonOwner.EncodeEntry` | crates/fa-journal/src/file.rs:520-562 | the encoder's loop writes the canonical body of a record |
| `AndonOwner.FrameEntry` | crates/fa-journal/src/file.rs:527-576 | the frame and the next head, or the size refusal and the refusal of every sequence past the record count, the largest word included |
| `AndonOwner.ReadEntry` | crates/fa-journal/src/file.rs:320-361 | one turn of the open loop takes what the specification takes, with the same refusals |
| `AndonOwner.FileAndonLedger.constructor` | crates/fa-journal/src/file.rs:268-293 | a created file is the header alone, with a consistent owner |
| `AndonOwner.FileAndonLedger.PublishWith` | crates/fa-journal/src/file.rs:452-484 | refuses a poisoned owner and every limit before I/O; otherwise leaves exactly the record's bytes, state and acknowledgement, or a prefix of the bytes with the old state and the record in flight; on a consistent owner a commit or a tear of precisely that record |
| `AndonOwner.FileAndonLedger.RegisterWindow` | crates/fa-journal/src/file.rs:394-403 | refusals and exact retries touch nothing; a new window is published |
| `AndonOwner.FileAndonLedger.RecordTrusted` | crates/fa-journal/src/file.rs:420-443 | refusals and exact retries touch nothing; a new fact is persisted first, and only I/O can then fail |
| `AndonOwner.FileAndonLedger.RecordReview` | crates/fa-journal/src/file.rs:406-443 | an unconfirmed fact touches nothing; a confirmed one does exactly what the trusted entry point does |
| `Congress.MemberCapHolds` | crates/fa-reference/src/reducer.rs:122-129 | no member has more admitted influence than its weight or the member cap |
| `Congress.CohortCapHolds` | crates/fa-reference/src/reducer.rs:132-163 | after proportional scaling and rounding down, no cohort has more admitted influence than the cohort cap |
| `Congress.ShareIsExact` | crates/fa-reference/src/reducer.rs:132-163 | a member keeps its clipped weight, or in an over-cap cohort the cap's fraction of it rounded down, from both sides |
| `Congress.CohortKeeps` | crates/fa-reference/src/reducer.rs:132-163 | rounding loses less than one unit per member: an over-cap cohort keeps more than the cap less its member count, any other keeps everything |
| `Congress.CountsIff` | crates/fa-reference/src/round/review.rs:218-229 | a cohort counts as permitting iff its permitting members bring admitted weight |
| `Congress.AdmissibleNeverOverflows` | crates/fa-reference/src/round/review.rs:68-82 | under a policy its constructor accepts no vote overflows a tally, and for and against always add up to the same whole |
| `AndonReview.ConfirmedIff` | crates/fa-reference/src/round/review.rs:386-429 | a review confirms a false hold iff exact evidence is clear, the reveals are complete, the fact names this round, this evidence and precisely those against, and the capped vote with them against misses a threshold of the policy |
| `AndonReview.DecidedIff` | crates/fa-reference/src/round/review.rs:177-236 | when a review is rejected, unfinished or ready, from exact evidence, outcomes and the capped vote |
| `AndonReview.RefusedAsIncompleteIff` | crates/fa-reference/src/round/review.rs:386-404 | an unconfirmed fact is refused as incomplete only for want of a finished review of its round and evidence, and as a mismatch otherwise |
| `AndonReview.UnanimityIsReady` | crates/fa-reference/src/round/review.rs:177-236 | a complete unanimous review under an accepted policy is ready, whatever its caps and thresholds |
| `AndonOwner.AndonRunsAreSafe` | crates/fa-journal/src/file.rs:266-484 | whole-run safety for every Andon file |
| `AndonOwner.FileAndonLedger.Reopen` | crates/fa-journal/src/file.rs:295-377 | opens exactly when strict replay accepts and the recovery sync completes, and then owns precisely those bytes and their state |
| `AndonOwner.FileAndonLedger.ReopenAfterCrash` | crates/fa-journal/src/file.rs:295-377 | after any failed persist, reopening under any acknowledged head refuses or yields the acknowledged history plus at most the one record in flight |
| `AndonOwner.FileAndonLedger.RecoveredIsConsistent` | crates/fa-journal/src/file.rs:295-377 | a recovered owner is again a consistent owner, reached by a step of the crash machine |
| `Import.RestartEndsTheSame` | crates/fa-journal/src/evaluated_andon.rs:138-210 | however much was imported, importing everything again is accepted and ends in the same ledger |
| `Import.RestartChargesOnce` | crates/fa-journal/src/evaluated_andon.rs:177-203 | the interrupted part and the restart together record exactly what one import records |
| `Import.Begin` | crates/fa-journal/src/evaluated_andon.rs:138-168 | preflight succeeds iff the group is within bounds, the owner is live and every receipt in turn is acceptable; nothing is written |
| `Import.EvaluatedAndonImport.Advance` | crates/fa-journal/src/evaluated_andon.rs:177-203 | processes exactly the budgeted receipts, completed = new + already recorded, and fails only when the persist or the extent check does, which latches the cursor |
| `Import.EvaluatedAndonImport.Finish` | crates/fa-journal/src/evaluated_andon.rs:205-210 | success iff complete, and then the ledger is the one preflight computed |
| `Import.EvaluatedAndonImport.DropThenRestart` | crates/fa-journal/src/evaluated_andon.rs:138-210 | dropping the cursor at any point and restarting with the same receipts on whatever reopens ends in the preflight ledger, with nothing charged twice |
| `Activation.ProductWords` | artifacts/execution/2026-09-10-activation-arithmetic.py:19-23 | the two words added for a product are the shifted product, split at a word boundary |
| `Activation.AddWord` | artifacts/execution/2026-09-10-activation-arithmetic.py:15-18 | the carry loop adds the word at its position and stays inside the nine limbs |
| `Activation.AddProduct` | artifacts/execution/2026-09-10-activation-arithmetic.py:19-23 | the difference of the two accumulators moves by the exact signed product |
| `Activation.Finish` | artifacts/execution/2026-09-10-activation-arithmetic.py:24-32 | larger minus smaller with a borrow chain that ends at zero, then the sign |
| `Activation.Score` | artifacts/execution/2026-09-10-activation-arithmetic.py:33-37 | for any finite vectors of up to 65536 coordinates no carry leaves limb 8 and the result is the exact integer score |
| `Activation.ScaledIsExact` | artifacts/execution/2026-09-10-activation-arithmetic.py:12-14 | significand and shift are the IEEE binary32 value times 2^149, subnormals included |
| `Activation.FieldsAreTheWord` | artifacts/execution/2026-09-10-activation-arithmetic.py:12-14 | sign, exponent and fraction are all of the 32-bit word |
| `Activation.ExactIsTheOracle` | artifacts/execution/2026-09-10-activation-arithmetic.py:38-42 | the integer score is the rational score times 2^298 |
| `Activation.EndsBracket` | artifacts/execution/2026-09-10-activation-arithmetic.py:52-55 | masked coordinates bracket each product, tighten with each bit, and meet at 23 bits |
| `Activation.EndsAreTheRange` | artifacts/execution/2026-09-10-activation-arithmetic.py:49-56 | every vector that agrees with xs in sign, exponent and the top b fraction bits scores between the ends, and each end is the score of one |
| `Activation.Intervals` | artifacts/execution/2026-09-10-activation-arithmetic.py:44-60 | for every vector and prefix length 0..23 the interval is exactly that range; so it encloses the exact score, nests, and closes at 23 bits |
| `Consistency.Mul` | artifacts/execution/2026-09-10-consistency-arithmetic.py:7-14 | limb multiplication is exact and leaves no carry whenever the product fits |
| `Consistency.PathFits` | artifacts/execution/2026-09-10-consistency-arithmetic.py:19-28 | up to 512 steps of 16-bit odds times a 64-bit term of alpha stay below 129 limbs |
| `Consistency.RatioIsQuotient` | artifacts/execution/2026-09-10-consistency-arithmetic.py:23-27 | the product of step quotients is the quotient of the two integer products |
| `Consistency.RatioIsLikelihoodRatio` | artifacts/execution/2026-09-10-consistency-arithmetic.py:23-27 | the product of step quotients is the likelihood ratio of the alternative against the null at every step |
| `Consistency.RatioChangesMeasure` | artifacts/execution/2026-09-10-consistency-arithmetic.py:23-27 | the ratio takes the path's probability under the p's to its probability under the q's |
| `Consistency.LimbTestIsExact` | artifacts/execution/2026-09-10-consistency-arithmetic.py:28-31 | reversed lexicographic comparison holds iff the exact ratio is at least 1 / alpha |
| `Consistency.PathCheck` | artifacts/execution/2026-09-10-consistency-arithmetic.py:19-32 | on every path of up to 512 steps the reported step is the first at which the exact ratio reaches 1 / alpha, and the first prefix the null enumeration counts as crossed |
| `NullCrossing.StakeIsSupermartingale` | artifacts/execution/2026-09-10-consistency-arithmetic.py:44-49 | one step under the null never raises the expected stopped ratio |
| `NullCrossing.RatioChangesMeasure` | artifacts/execution/2026-09-10-consistency-arithmetic.py:44-49 | history by history, the ratio times the null probability is the probability under the alternative, one probability function at both parameters |
| `NullCrossing.CrossedIff` | artifacts/execution/2026-09-10-consistency-arithmetic.py:49-49 | a history has crossed iff the ratio of some nonempty prefix is at least 1 / alpha |
| `NullCrossing.LikelihoodsSumToOne` | artifacts/execution/2026-09-10-consistency-arithmetic.py:43-47 | the masks below 2^n are a probability space: whatever the odds, their probabilities add up to one |
| `NullCrossing.HistoriesPair` | artifacts/execution/2026-09-10-consistency-arithmetic.py:43-46 | the masks below 2^(n+1) are the two continuations of each mask below 2^n |
| `NullCrossing.CrossingIsRare` | artifacts/execution/2026-09-10-consistency-arithmetic.py:42-51 | the null probability of ever reaching 1 / alpha is at most alpha, for every horizon and any odds strictly between 0 and 1, even chosen from the history |
| `NullCrossing.Enumerate` | artifacts/execution/2026-09-10-consistency-arithmetic.py:42-51 | the enumeration over all masks computes that probability |
| `Cycles.Search.Visit` | xtask/src/registry_checks.rs:580-614 | leaves stack and visiting as found; the step that led to the packet is finished or reported; terminates because visiting only grows within the keys |
| `Cycles.Search.Report` | xtask/src/registry_checks.rs:591-602 | the pushed chain is a real simple cycle and the fallback position is never taken |
| `Cycles.Search.StackFits` | xtask/src/registry_checks.rs:603-613 | the stack is never longer than the number of keys |
| `Cycles.NoCycleIsMissed` | xtask/src/registry_checks.rs:563-614 | a closed walk through finished packets contains a reported closing step |
| `Cycles.DetectCycles` | xtask/src/registry_checks.rs:563-578 | a finding is pushed iff some packet depends on itself, each is genuine, and every cycle runs through a reported step |
| `Ranges.SortPermutes` | tools/generate_unicode17_tables.py:30-30 | the sort loses and invents no range |
| `Ranges.MergeRanges` | tools/generate_unicode17_tables.py:28-37 | refuses iff some range is invalid; otherwise the table is ascending, gapped and covers the same points, so lookup equals membership in a raw range |
| `Ranges.TableIsCanonical` | tools/generate_unicode17_tables.py:28-37 | a table is determined by the points it covers |
| `Ranges.PartitionPoint` | tools/generate_unicode17_tables.py:105-105 | halving counts the ranges that start at or before the point |
| `Ranges.InRanges` | tools/generate_unicode17_tables.py:103-107 | inspecting one range decides membership in the whole table |
| `Admission.NewAdmissionSet` | xtask/src/admission.rs:951-960 | refused iff two rows share an identity, naming the first repeat; otherwise files exactly the given rows |
| `Admission.Evaluate` | xtask/src/admission.rs:1321-1369 | empty iff the package is admitted; otherwise exactly the true departures, each once, grouped and in edge order |
| `Metadata.LocationIsExact` | xtask/src/admission.rs:801-835 | two manifests with the same workspace-relative path are the same file |
| `Metadata.LocationIff` | xtask/src/admission.rs:801-835 | a manifest has a location iff both paths are absolute and without `..`, the location is made of ordinary components, and walking it from the root arrives at the manifest |
| `Projection.RecordDepEdge` | xtask/src/admission.rs:1412-1455 | the record holds exactly the readable kinds and is faithful iff every entry can be read |
| `Projection.ReadIdentities` | xtask/src/admission.rs:1064-1155 | the table maps each readable package id to its identity, refuses ambiguous ids, and is silent iff all are readable |
| `Projection.ReadNodes` | xtask/src/admission.rs:1157-1237 | the table holds each node read exactly, refuses ambiguous ids, and is silent iff all are readable |
| `Projection.ObservePackage` | xtask/src/admission.rs:1239-1311 | a package is observed iff its node and every dependency of it can be read and resolved, with exactly their features and edges |
| `Projection.ProjectObservedPackages` | xtask/src/admission.rs:1035-1313 | no finding iff the document is clean; whatever the document, only exactly readable packages are observed, in id order |
| `Projection.EachObservedOnce` | xtask/src/admission.rs:1035-1313 | in a clean document every listed package is observed once and nothing else is |
| `Projection.GraphIsClosed` | xtask/src/admission.rs:1035-1369 | with a clean projection and evaluation, every package reachable by dependencies is observed and reviewed for the target with exactly its features and edges |
| `Projection.EdgesLandOnAdmitted` | xtask/src/admission.rs:1352-1366 | every observed edge ends at an admitted observation |
| `Rendering.IdentityIff` | xtask/src/admission.rs:1071-1148 | what identifies a package, field by field, and nothing else does |
| `Rendering.EntryReadableIff` | xtask/src/admission.rs:1420-1446 | a dependency kind is read iff it is spelled as Cargo spells one and its target predicate is null or a string |
| `Rendering.EdgeReadableIff` | xtask/src/admission.rs:1412-1419 | a dependency's kinds are read iff they are a nonempty list of readable entries |
| `Rendering.NodeReadableIff` | xtask/src/admission.rs:1180-1228 | a node is read iff its features are a list of strings and its dependencies a list |
| `Rendering.RenderedIsClean` | xtask/src/admission.rs:1035-1313 | a closed dependency graph written as Cargo metadata is a clean document |
| `Rendering.RenderingIsInverted` | xtask/src/admission.rs:1035-1313 | projecting that document gives the graph back: every package once, with exactly its identity, features and edges |

## Left out

- File system behaviour: locks, permissions, directory sync, symbolic links and file metadata are replaced by one exclusively owned byte string; a persist completes or stops after some prefix, and a panic counts as stopping.
- I/O error kinds, finding locations and message texts: errors keep their kind only.
- Allocation failure and reserved capacities.
- In-place update of the two ledgers: `Rights` and `AndonLedger` are values with transition functions, because the journal itself updates a clone and assigns it.
- RightsJournal.DamageRefused: does not cover the length word, since a changed length moves the checksum to other bytes.
- EventCodec.EncodedDecodes: encodings of 2^32 bytes or more are excluded, since the frame limit never admits one.
- The commit and reveal protocol: a review carries the outcomes its transcript ends with.
- Import.Begin: the native receipt binding of `begin_native` is not part of this model; receipts are the facts they confirm.
- ReplayCursor.ReplayInSteps: history capture and anchors are not part of this model.
- Incremental batch preparation and commit, batch inspection and `native_sync`: the same transitions cut into more steps.
- Authenticity: CRC-32 is a check against accidental damage only.
- Metadata.LocationIsExact: paths follow the Unix rules; other platforms' prefixes are not modelled.
- The JSON parser, the policy parser and the structural pass of the admission check, the other registry checks, and the Unicode data readers: each reports one field at a time, and no property of theirs spans more than one branch.
- The int8 key-value arithmetic script: it depends on floating-point rounding and square roots.
