# RemoteTerm for MeshCore: a verified model

RemoteTerm is a server that takes over a MeshCore radio. Its hard parts are small stateful protocols
(who may use the radio, what sits in which radio slot, how the radio's contact table is brought in
line) and fast forms that must agree with something simpler (an incrementally maintained count, a skip
scan, a precomputed route). This project models those parts in Dafny and proves what they promise, over
every input, every interleaving or every sequence of calls. `dafny verify dfyconfig.toml` checks it.

| file | models |
|---|---|
| `RadioOwnership.dfy` | operation lock, reconnect lock, pause flag and the swappable transport of `app/radio.py` |
| `ChannelSlots.dfy` | the channel send-slot cache of `app/radio.py`, its use by a send, and its audit |
| `ContactReconcile.dfy`, `AutoevictFill.dfy` | the background contact reconcile loop of `app/radio_sync.py`, both modes |
| `ContactSelection.dfy` | capacity limits and the selection that feeds the reconcile loop |
| `RawPackets.dfy`, `PacketScan.dfy` | packet table, cached undecrypted count, payload deduplication, batched scan |
| `UnreadCounts.dfy` | recursive skip scan, newest-row seek, unread counts and first-unread seek |
| `PrefixPromotion.dfy`, `DmDedupe.dfy` | the two operations that merge rows: placeholder promotion and DM de-duplication |
| `PacketFrame.dfy` | the wire frame parser, dedup key and packet hash input |
| `RouteRepair.dfy`, `ContactRoutes.dfy` | route normal form, explicit routes, effective route, repository writes |
| `MqttLoop.dfy` | the MQTT publisher's connection loop |
| `TelemetrySchedule.dfy` | telemetry interval arithmetic and the hourly gate |
| `Common.dfy`, `SetOrder.dfy`, `Text.dfy` | shared vocabulary |

How it is modelled:

- Concurrent code is a state machine. Each stretch between two suspension points is one event, any
  number of tasks may be alive, and any enabled event may come next. Beside the machine a class performs
  each stretch on its fields, with a contract that ties the new state to the machine's step.
- A radio, a client or a peer that may answer anything is a parameter (a script of answers), and theorems
  quantify over it. SHA-256 is an arbitrary function of the bytes hashed.
- Tables are finite maps from id or key to row; a transaction is one committed step; an index is the
  order it gives.

Where the code does not keep what its names or documentation suggest, the code is modelled as it is, a
lemma shows the failing input, and another states exactly when the property holds:

- A pause leaves no transport behind, exactly unless the last teardown raised
  (`PausedAndQuiescentHoldsNothing`, `RaisingTeardownDefeatsAPause`). A raising `mc.disconnect()` skips
  the line that drops the handle.
- Contact reconcile need not end. What it believes follows exactly from the answers, so it completes
  exactly when every contact of the difference is at some point dropped, accepted, or known to the library
  (`Reconcile`, `SettledExactly`, `ReconcileResumed`). One round per difference and refusal, plus one, is
  enough, busy rounds not counted; while two unwanted contacts are refused no addition has its turn.
- "Blind fill complete" means that every contact was accepted exactly for lists of at most two contacts,
  because the failure flag is reset in every hold (`FilledIsHonestExactlyForOneHold`).
- `parse_explicit_hop_route` accepts 64 one-byte hops, but the next repair turns that route into
  `("", 0, 1)`; up to 63 hops it is kept (`ExplicitSurvivesRepairExactly`).
- Its hex check accepts two blanks in the middle of a three-byte hop (`BlanksInsideAHopAreAccepted`). A
  stored path is pure hex, and as many bytes as the hop count says, exactly when no hop has them
  (`ExplicitIsPureHexExactly`).
- Route repair is idempotent exactly outside a family of inputs that needs a path of 64 bytes or more and
  a reserved-mode hop count (`RepairIsIdempotentExactly`, `RepairingTwiceCanEmptyARoute`); the same family
  is where a contact's precomputed route differs from the recomputed one (`PostInit`, `UnstableContact`).
- An MQTT publisher parked as unconfigured may be configured by now, because its hook reads more than the
  settings (`UsableButParked`). It finds out exactly through a version bump or a finite timeout
  (`NoticedExactlyByBumpOrTimeout`, `StaysParkedWithoutBumpOrTimeout`).
- At most one MQTT error notification per outage holds exactly where the event loop can run MQTT; on a
  Proactor loop every restart notifies again (`OneToastExactlyOffProactor`).
- The telemetry ceiling of 24 checks a day is not kept while settings are edited, because the gate reads
  them afresh every hour: eight targets at midnight, cut to one afterwards, make 31 checks that day
  (`EditedListExceedsTheCeiling`). It is kept over any number of days, however the list is edited, as long
  as the effective interval stays the same (`SteadyIntervalKeepsCeiling`). In general a history of
  effective intervals keeps every list history it allows within a bound exactly if the firing hours of the
  history, each counted at its interval or at the list limit, do (`WithinBoundExactly`).

## Model

| member | source | states |
|---|---|---|
| `RadioOwnership.OneOwnerOfTheCurrentTransport` | app/radio.py:231-285 | in every interleaving a running body or teardown works on exactly the installed transport, alone, and no transport is being built meanwhile |
| `RadioOwnership.NoSwapUnderABody` | app/radio.py:256-285 | no event of any other task swaps or drops the transport while an operation body runs |
| `RadioOwnership.PausedAndQuiescentHoldsNothing` | app/radio.py:440-444 | in every run, once all tasks are done a paused manager holds no transport if and only if the last teardown did not raise |
| `RadioOwnership.PauseDrainsToNoTransport` | app/radio.py:598-632 | after a pause at any point, also in the middle of a reconnect, every way of letting the tasks run is bounded in length, and where it cannot go on all tasks are done and nothing is installed, exactly unless the last teardown raised |
| `RadioOwnership.RunKeepsInv` | app/radio.py:556-632 | ownership of both locks and "an unwanted transport has a task committed to closing it" are kept by every run |
| `RadioOwnership.NoDeadlock` | app/radio.py:184-206 | whenever some task is unfinished, some unfinished task can take a step |
| `RadioOwnership.DrainIsBounded` | app/radio.py:556-632 | the number of steps the existing tasks can still take is bounded, and each step uses up some of it |
| `RadioOwnership.RaisingTeardownDefeatsAPause` | app/radio.py:571-584 | a reachable state in which everything is done, the operator paused, and a transport is still held |
| `RadioOwnership.RadioManager.OnOperationGranted` | app/radio.py:256-261 | with a transport installed the body runs on exactly it and the lock is held by this task; without one the task ends and the lock is free; nothing else changes |
| `RadioOwnership.RadioManager.OnDisconnectGranted` | app/radio.py:566-571 | with a transport installed its teardown starts under the lock; without one the lock goes back and the caller goes on |
| `RadioOwnership.RadioManager.OnTeardownEnded` | app/radio.py:579-584 | no transport is left, the lock is free, and the caller goes on: it ends, or builds the new transport |
| `RadioOwnership.RadioManager.OnReconnectGranted` | app/radio.py:598-618 | paused or connected it ends with its lock free; else it holds the lock and drops a stale transport first, or builds one |
| `RadioOwnership.RadioManager.OnTransportCreated` | app/radio.py:620-632 | the new transport is installed; the task ends, or tears it down at once if a pause arrived meanwhile |
| `RadioOwnership.RadioManager.PauseConnection` | app/radio.py:440-444 | the flag is cleared, and a disconnect is under way if a transport is installed |
| `RadioOwnership.RadioManager.RadioOperation` | app/radio.py:184-206 | the request queues on the operation lock, except a non-blocking one that finds it taken |
| `RadioOwnership.RadioManager.Disconnect` | app/radio.py:556-565 | a disconnect is under way if a transport is installed, else it is done |
| `RadioOwnership.RadioManager.OnOperationEnded` | app/radio.py:273-285 | the lock is free and the transport is as it was |
| `RadioOwnership.RadioManager.OnTeardownRaised` | app/radio.py:575-584 | the lock is free, the transport is still installed, and the exception ends the caller, except a reconnect dropping a stale transport, which tries again |
| `RadioOwnership.RadioManager.OnTransportFailed` | app/radio.py:618-632 | the reconnect ends with its lock free and nothing installed |
| `RadioOwnership.RadioManager.Run` | app/radio.py:231-632 | the object driven through any interleaving: a running body or teardown is alone on the installed transport, an unwanted transport has a task committed to closing it unless closing raised, and a paused manager with all tasks done holds nothing exactly unless the last close raised |
| `ChannelSlots.FreeSlotExists` | app/radio.py:397-406 | pigeonhole: with fewer cached keys than slots some slot is unclaimed, so the last fallback is never taken |
| `ChannelSlots.LoadKeepsInverse` | app/radio.py:355-370 | loading a key into a slot keeps the two maps mutual inverses |
| `ChannelSlots.LoadTouchesOnly` | app/radio.py:355-370 | loading displaces exactly the keys cached in that slot and moves no other key |
| `ChannelSlots.LoadStaysTrue` | app/radio.py:355-370 | after a confirmed slot write every cached belief is still true of the radio |
| `ChannelSlots.DropStaysTrue` | app/radio.py:384-391 | dropping the beliefs about one slot makes the rest immune to what that slot now holds |
| `ChannelSlots.FirstIsOldest` | app/radio.py:352-353 | the head of the ordered dictionary is the key least recently loaded or used |
| `ChannelSlots.ChannelCache.FindFirstFree` | app/radio.py:397-406 | the preferred slot if unclaimed, else the lowest unclaimed one, else the preferred one |
| `ChannelSlots.ChannelCache.PlanSend` | app/radio.py:329-353 | reuse of a cached slot; an unclaimed slot below capacity; at capacity the slot of the least recently loaded or used key |
| `ChannelSlots.ChannelCache.NoteLoaded` | app/radio.py:355-370 | the new maps, and the key becomes the most recently used |
| `ChannelSlots.ChannelCache.NoteUsed` | app/radio.py:372-382 | only recency changes |
| `ChannelSlots.ChannelCache.Invalidate` | app/radio.py:384-391 | exactly that key is forgotten, and the maps stay inverse |
| `ChannelSlots.ChannelCache.Reset` | app/radio.py:293-296 | nothing is cached, so nothing cached is wrong |
| `ChannelSlots.ChannelCache.Send` | app/services/message_send.py:337-413 | plan, write, load, use: if the cache agreed with the radio, the message goes out on a slot that really holds the channel and the cache still agrees, for every answer of the radio; a sent channel becomes the most recently used, a refused one is forgotten |
| `ChannelSlots.ChannelCache.Audit` | app/radio_sync.py:600-646 | passes exactly if every entry matches the radio and the stored names; afterwards the cache agrees with the radio even if it did not before |
| `ChannelSlots.ChannelCache.Run` | app/radio.py:329-406 | over any sequence of sends, uses, invalidations, resets, audits and outside changes the maps stay inverse within capacity, and agree with the radio if no outside change came after the last audit or reset |
| `ContactReconcile.RemovePhase` | app/radio_sync.py:1244-1297 | removals only of unwanted contacts, one budget unit each; the surplus falls by exactly the commands that were not refused; the phase ends with the budget spent or everything unwanted tried |
| `ContactReconcile.AddPhase` | app/radio_sync.py:1365-1418 | additions only of missing contacts the library does not know; nothing believed is lost; the deficit falls by exactly the commands not refused plus the contacts taken from the library; it stops early only on a full table |
| `ContactReconcile.Batch` | app/radio_sync.py:1233-1418 | a lock hold sends at most two commands, never removes a wanted contact or adds an unwanted one, and the difference shrinks by exactly the commands not refused plus the contacts taken from the library; the hold ends with both commands spent, a full table, or every difference tried |
| `ContactReconcile.Reconcile` | app/radio_sync.py:1193-1455 | for any answers, busy rounds and swaps: it stops in the first round that gives a reason, each exit for exactly its own, and a swap at the top of a round stops it by then with nothing sent from that round on; belief is the initial set without the dropped contacts, with the accepted ones and those the library knew, and equals the goal if and only if every contact of the difference is settled; dropped contacts leave the library; "complete" is truthful; difference plus refusals plus one rounds that get the radio are enough, half the difference plus one without refusals; two contacts of which no removal succeeds keep it running without additions |
| `ContactReconcile.SwapsStop` | app/radio_sync.py:1194-1196 | for every round with a swap at its top, the loop has stopped by it and no round from it on used a turn |
| `ContactReconcile.ReconcileResumed` | app/radio_sync.py:1193-1455 | from any state of the loop: with enough rounds, cooperation from now on or nothing left to send means completion, and completion means that every contact of the difference was dropped, accepted or known to the library |
| `ContactReconcile.ReconcileInStretches` | app/radio_sync.py:1193-1455 | whatever happened in a first stretch that is still running, a radio that cooperates in a long enough second one completes |
| `ContactReconcile.ReconcileCooperating` | app/radio_sync.py:1193-1455 | from what is known of the radio beforehand: if it refuses at most its first n commands and never with a full table, difference plus n plus one rounds that get the radio complete, with every desired contact on the radio |
| `ContactReconcile.SettledExactly` | app/radio_sync.py:1213-1228 | an unwanted contact is still believed if and only if it was not dropped, a missing one if and only if it was accepted or taken from the library |
| `ContactReconcile.RecordMeans` | app/radio_sync.py:1280-1288 | dropped means a removal answered OK or not-found, accepted an addition answered OK, and no refusals that every command was answered so |
| `ContactReconcile.Radio.Lookup` | app/radio_sync.py:1080-1094 | the library's lookup by key prefix: a hit has the prefix, no hit means no entry has it |
| `AutoevictFill.BlindFill` | app/radio_sync.py:1188-1475 | the loop is the reference fill; it goes round the list in order, sends at most three commands per contact, and reaches every contact unless stopped by a full table |
| `AutoevictFill.PassByPass` | app/radio_sync.py:1457-1475 | unless a full table stops it: filled after the first, second or third pass, whichever is the first whose last hold was accepted, with n, 2n or 3n commands, else given up after exactly 3n |
| `AutoevictFill.StopsAtTheFirstFullTable` | app/radio_sync.py:1338-1345 | it stops for a full table if and only if the last command was answered so, and no earlier one was |
| `AutoevictFill.WholePasses` | app/radio_sync.py:1457-1475 | without a full-table answer the commands are one, two or three whole passes |
| `AutoevictFill.FilledMeansLastHoldAccepted` | app/radio_sync.py:1230-1232 | "complete" vouches for the last lock hold |
| `AutoevictFill.CooperatingRadioFillsInOnePass` | app/radio_sync.py:1457-1475 | a radio that accepts everything from some point on completes the pass it is in |
| `AutoevictFill.FilledIsHonestExactlyForOneHold` | app/radio_sync.py:1230-1232 | "complete" implies that every contact was accepted, for all answers, if and only if the list has at most two contacts |
| `ContactSelection.LimitsAreOrdered` | app/radio_sync.py:264-272 | 1 <= refill <= trigger <= capacity always, and refill < trigger exactly from capacity 3 on |
| `ContactSelection.LimitsAreThePercentages` | app/radio_sync.py:264-272 | the refill target is the nearest integer to 80 percent, halves up, and the trigger the least integer of at least 95 percent |
| `ContactSelection.EffectiveCapacity` | app/radio_sync.py:248-261 | the lower of the configured and the hardware limit, at least 1 |
| `ContactSelection.FillIsProper` | app/radio_sync.py:1552-1584 | no duplicate keys, no type 0, never beyond the limit, and nothing selected earlier moves |
| `ContactSelection.FillExhausts` | app/radio_sync.py:1552-1584 | a stage ends below its limit only when every eligible contact of its list is represented |
| `ContactSelection.FillTakesInOrder` | app/radio_sync.py:1552-1584 | a contact is added only after every eligible one before it in its list is represented |
| `ContactSelection.FillIsAPrefix` | app/radio_sync.py:1552-1584 | a lower limit gives the same selection, truncated |
| `ContactSelection.SelectForRadio` | app/radio_sync.py:1542-1593 | the loops with their key set compute the three-stage selection |
| `ContactSelection.SelectionFitsTheRadio` | app/radio_sync.py:1542-1593 | favorites first, then conversations, no duplicates, no type 0, within capacity, and within the refill target whenever it goes beyond the favorites |
| `ContactSelection.SelectionLeavesNoOneOut` | app/radio_sync.py:1542-1593 | below the refill target every eligible candidate of every list is represented |
| `ContactSelection.ConvergedRadioStaysQuiet` | app/radio_sync.py:264-272 | from capacity 3 on, a radio holding the selection is below the full-sync trigger if and only if the favorites alone are |
| `RawPackets.DeltaIsExact` | app/repository/raw_packets.py:20-86 | for every write, the affected-row arithmetic equals the change of the real count |
| `RawPackets.RunKeepsInv` | app/database.py:230-252 | lock, pending transaction and cache stay consistent over every interleaving, including rollbacks |
| `RawPackets.WriteGetsThrough` | app/database.py:242-252 | with the lock free, five steps take every write from its request to its committed effect and the adjusted cache, and a recount to a populated one |
| `RawPackets.CachedCountIsExact` | app/repository/raw_packets.py:72-86 | whenever the write lock is free, a populated cache equals the number of rows with no linked message |
| `RawPackets.CachedCountLagsOneWrite` | app/repository/raw_packets.py:20-25 | even with a transaction open the cache is off by exactly what the committed, not yet accounted write changed |
| `RawPackets.PacketRepository.Create` | app/repository/raw_packets.py:41-70 | stores a row for a new digest and returns it, else returns the existing row and changes nothing; the count follows |
| `RawPackets.PacketRepository.CreateAll` | app/repository/raw_packets.py:41-70 | over any sequence of creates there is one row per distinct key, two calls return the same id exactly when their keys are equal, and old rows are kept |
| `RawPackets.PacketRepository.MarkDecrypted` | app/repository/raw_packets.py:166-181 | the packet ends linked to that message, every other row is kept, and the count moves only on the first link |
| `RawPackets.PacketRepository.PruneOldUndecrypted` | app/repository/raw_packets.py:209-220 | deletes exactly the undecrypted rows from before the cutoff, keeps every other, and the count falls by as many |
| `RawPackets.PacketRepository.PurgeLinkedToMessages` | app/repository/raw_packets.py:222-230 | deletes exactly the linked rows, and the count stays |
| `RawPackets.PacketRepository.DeleteMessageById` | app/repository/messages.py:637-647 | unlinks exactly that message's packets, and the count rises by as many |
| `RawPackets.PacketRepository.GetUndecryptedCount` | app/repository/raw_packets.py:72-86 | returns the real count, from the cache or by counting |
| `PacketScan.StreamUndecrypted` | app/repository/raw_packets.py:115-128 | the loop computes the reference scan over arbitrarily changing tables |
| `PacketScan.PageMatches` | app/repository/raw_packets.py:117-123 | a page is an increasing run of matching ids beyond the cursor, at most the batch size long, and all of them if it is shorter |
| `PacketScan.ScanIncreases` | app/repository/raw_packets.py:115-128 | ids come out strictly increasing, hence without repeats |
| `PacketScan.ScanYieldsUndecrypted` | app/repository/raw_packets.py:117-123 | every id yielded was undecrypted in some read |
| `PacketScan.ScanMissesNothing` | app/repository/raw_packets.py:115-128 | a finished scan yielded every row that was present and undecrypted throughout |
| `PacketScan.ScanEndsWithoutInserts` | app/repository/raw_packets.py:115-128 | with no insertions the scan ends, whatever is linked or deleted meanwhile |
| `UnreadCounts.ScanKinds` | app/repository/messages.py:876-881 | the chain of MIN() seeks lists every message type exactly once |
| `UnreadCounts.SkipScan` | app/repository/messages.py:875-891 | the recursive query lists each (type, conversation) exactly once: SELECT DISTINCT as a set, without repeats |
| `UnreadCounts.LastMessageTimes` | app/repository/messages.py:892-909 | an entry for exactly the conversations with an unblocked row, holding the maximum received_at over those rows |
| `UnreadCounts.VisibleMeans` | app/repository/messages.py:329-360 | the visible rows of a conversation, on the columns: sent ones, and received ones that no blocked key or name matches |
| `UnreadCounts.FirstUnreadIsCounted` | app/repository/messages.py:765-772 | the correlated seek returns the (received_at, id)-least member of exactly the set its query counted |
| `UnreadCounts.RowsAreTheUnread` | app/repository/messages.py:785-841 | the two GROUP BY queries together return a row for exactly the conversations with something unread |
| `UnreadCounts.UnreadConversations` | app/repository/messages.py:785-841 | the dictionaries hold, for exactly the conversations with something unread, the size of the counted set and its (received_at, id)-least member |
| `UnreadCounts.CountedInChannelMeans` | app/repository/messages.py:785-807 | what is unread in a channel, on the columns |
| `UnreadCounts.CountedWithContactMeans` | app/repository/messages.py:815-841 | what is unread with a contact, on the columns; a key without a contact row was never read |
| `UnreadCounts.FirstOnColumns` | app/repository/messages.py:765-772 | no counted row is earlier than the first unread one, and none at the same time has a lower id |
| `PrefixPromotion.PromotableExactlyWhenUnambiguous` | app/repository/contacts.py:604-626 | for an existing full key, a placeholder passes the count test if and only if that key is its only full-key match |
| `PrefixPromotion.ContactRepository.PromotePrefixPlaceholders` | app/repository/contacts.py:587-688 | promotes exactly the promotable placeholders, longest first, and leaves the tables in the merged relation to the old ones |
| `PrefixPromotion.ContactRepository.Absorb` | app/repository/contacts.py:628-684 | one placeholder more is merged: names, paths, timestamps, and its row is gone |
| `PrefixPromotion.HeardCountIsConserved` | app/repository/contacts.py:561-575 | the total heard_count of every (path, hop count) is unchanged |
| `PrefixPromotion.TimesAreTheExtremes` | app/repository/contacts.py:636-682 | the full key ends with the latest last_seen, last_contacted and last_read_at and the earliest first_seen over itself and everything merged, null only if all were |
| `PrefixPromotion.TimesOnColumns` | app/repository/contacts.py:636-682 | the same bounds column by column |
| `PrefixPromotion.PromotedAreGone` | app/repository/contacts.py:576-585 | promoted placeholders are gone with their child rows, and the full key keeps its other columns |
| `PrefixPromotion.ChildTimesAreTheExtremes` | app/repository/contacts.py:548-575 | each name and path row of the full key spans exactly the rows merged into it, and exists if and only if one did |
| `PrefixPromotion.OthersUntouched` | app/repository/contacts.py:620-626 | ambiguous placeholders and all other contacts keep their row, names and paths |
| `PrefixPromotion.SecondRunPromotesNothing` | app/repository/contacts.py:587-688 | after a promotion no placeholder is promotable into that key |
| `DmDedupe.MergeMessagePaths` | app/migrations/_044_dedupe_incoming_direct_messages.py:9-36 | the loop keeps the first observation of every key, and nothing rather than an empty list |
| `DmDedupe.MergedPathsAreTheUnion` | app/migrations/_044_dedupe_incoming_direct_messages.py:9-36 | the merged array holds only objects; a key is in it if and only if some stored array has an object with that key; no key is there twice |
| `DmDedupe.MessageStore.Migrate` | app/migrations/_044_dedupe_incoming_direct_messages.py:75-149 | collapsing group after group, in any order, gives the tables the properties below are about |
| `DmDedupe.OwnGroupMeans` | app/migrations/_044_dedupe_incoming_direct_messages.py:75-85 | a row's group is the incoming DMs with its conversation, its text and its timestamp, a null one being 0 |
| `DmDedupe.GoneExactlyForALowerTwin` | app/migrations/_044_dedupe_incoming_direct_messages.py:75-149 | an incoming DM is gone if and only if a lower id is an incoming DM with equal conversation, text and coalesced timestamp |
| `DmDedupe.UnchangedWithoutTwin` | app/migrations/_044_dedupe_incoming_direct_messages.py:75-149 | a row that is not an incoming DM, or has no such twin, is still there and unchanged |
| `DmDedupe.SurvivorsDiffer` | app/migrations/_044_dedupe_incoming_direct_messages.py:151-156 | two surviving incoming DMs differ in conversation, text or coalesced timestamp |
| `DmDedupe.LinkedToTheLowestTwin` | app/migrations/_044_dedupe_incoming_direct_messages.py:138-143 | a packet linked to an incoming DM ends linked to a surviving row with equal columns and an id that is no higher |
| `DmDedupe.NoDuplicatesRemain` | app/migrations/_044_dedupe_incoming_direct_messages.py:151-156 | no two incoming DMs share conversation, text and null-safe timestamp, as the new unique index demands |
| `DmDedupe.SurvivorsAreTheLowestIds` | app/migrations/_044_dedupe_incoming_direct_messages.py:109-110 | the rows that survive are exactly the non-incoming ones and the lowest id of each group |
| `DmDedupe.OutsideRowsUnchanged` | app/migrations/_044_dedupe_incoming_direct_messages.py:75-85 | a row outside every duplicate group is still there, unchanged |
| `DmDedupe.LinksFollowTheSurvivor` | app/migrations/_044_dedupe_incoming_direct_messages.py:138-143 | a packet linked to an incoming DM ends linked to the lowest id of its group, which exists; all other links are kept |
| `DmDedupe.SurvivorHasEveryObservation` | app/migrations/_044_dedupe_incoming_direct_messages.py:111 | the survivor's stored array has an object with a key if and only if some member's had one, and each key once |
| `DmDedupe.SurvivorHasTheExtremes` | app/migrations/_044_dedupe_incoming_direct_messages.py:112-117 | the survivor has the earliest reception time and the highest ack count of its group |
| `DmDedupe.SurvivorHasTheFirstSaid` | app/migrations/_044_dedupe_incoming_direct_messages.py:113-116 | text type, signature, sender name and sender key come from the lowest id that has one |
| `DmDedupe.EveryObservationKept` | app/migrations/_044_dedupe_incoming_direct_messages.py:20-34 | for every object in a member's stored paths some kept object has its path, reception time and length |
| `DmDedupe.KeptObservationsDiffer` | app/migrations/_044_dedupe_incoming_direct_messages.py:20-34 | two kept objects differ in path, reception time or length |
| `DmDedupe.SurvivorOnColumns` | app/migrations/_044_dedupe_incoming_direct_messages.py:111-136 | earliest time, highest ack count with null as 0, first non-zero text type and first non-empty texts over the twins, in the columns themselves |
| `DmDedupe.MigratingAgainDoesNothing` | app/migrations/_044_dedupe_incoming_direct_messages.py:75-149 | a second migration finds no group and changes nothing |
| `PacketFrame.DecodePathByte` | app/path_utils.py:41-55 | hop count and hash size give the byte back; only the reserved mode is refused |
| `PacketFrame.ValidatePathByte` | app/path_utils.py:63-78 | accepted exactly when not reserved and the path fits in 64 bytes |
| `PacketFrame.ParsePacketEnvelope` | app/path_utils.py:81-138 | the offset-advancing parser computes the reference parser |
| `PacketFrame.AcceptedExactly` | app/path_utils.py:81-138 | accepted if and only if the path byte is valid and at least one byte follows the path |
| `PacketFrame.ParsedFields` | app/path_utils.py:81-138 | every field of an accepted frame, by the bytes and bits it comes from |
| `PacketFrame.HashedFrame` | app/path_utils.py:363-387 | the packet hash covers type and payload, with the path byte as a two-byte little-endian length between them for type 9 |
| `PacketFrame.MalformedFrames` | app/path_utils.py:363-387 | a frame that does not parse is deduplicated by all of its bytes and has the placeholder hash |
| `PacketFrame.PrintAfterParse` | app/path_utils.py:81-138 | printing the parsed fields gives the input back |
| `PacketFrame.ParseAfterPrint` | app/path_utils.py:81-138 | parsing a printed envelope gives the envelope back |
| `PacketFrame.AcceptedExactlyThePrintedFrames` | app/path_utils.py:81-138 | a frame is accepted if and only if it is header, optional transport codes, valid path byte, path and non-empty payload, in one way only |
| `PacketFrame.DedupIgnoresRouting` | app/repository/raw_packets.py:43-49 | two frames hash the same bytes for deduplication if and only if their payloads are equal |
| `PacketFrame.HashIgnoresRouting` | app/path_utils.py:363-387 | the packet hash covers the same bytes if and only if type and payload are equal, and for TRACE the path byte |
| `RouteRepair.NormalizeContactRoute` | app/path_utils.py:165-216 | the reassigning code computes the reference repair |
| `RouteRepair.RepairCases` | app/path_utils.py:183-201 | which inputs are flood, which are decoded as a packed byte, and the mode used for all others |
| `RouteRepair.FitOutcome` | app/path_utils.py:203-216 | exactly the first hops of an over-long path are kept, whole hops of a too short one are counted again, and everything else stays |
| `RouteRepair.RepairIsIdempotentExactly` | app/path_utils.py:165-216 | repairing twice is repairing once if and only if the input is outside the unstable family |
| `RouteRepair.RepairingTwiceCanEmptyARoute` | app/path_utils.py:188-214 | any 64-byte path under the count 200 is such an input: one repair gives 64 hops, the next an empty route |
| `RouteRepair.RepairIsIdempotentOnShortPaths` | app/path_utils.py:165-216 | idempotent for every input whose path has at most 63 bytes |
| `RouteRepair.RepairReconcilesCountAndPath` | app/path_utils.py:203-216 | afterwards hop count and path agree, except for a kept path that is too short and holds no whole hops; the path is only cut at its end |
| `RouteRepair.PackedByteRecovered` | app/path_utils.py:188-195 | for every path, a packed byte of mode 1 or 2 stored as hop count gives its mode back, and its hop count if and only if the path does not make the repair recount; stored signed it gives the same route |
| `RouteRepair.ParseExplicitHopRoute` | app/path_utils.py:231-253 | the validating code computes the reference parser, with the same error for each fault |
| `RouteRepair.ExplicitOutcome` | app/path_utils.py:231-253 | which hop lists are accepted and what they give, and the error for every other one, by the first hop at fault |
| `RouteRepair.ExplicitShape` | app/path_utils.py:231-253 | every accepted route has 1 to 64 hops of one width and a path of exactly that many characters |
| `RouteRepair.ExplicitIsPureHexExactly` | app/path_utils.py:233-253 | the path of every accepted text decodes as hex, to hops times bytes per hop minus the number of hops with blanks in the middle; it is pure hex if and only if there is none, and always for one- and two-byte hops |
| `RouteRepair.HopIsPureHexExactly` | app/path_utils.py:241-247 | an accepted hop is pure hex if and only if it is not a six-character hop with a blank in third place |
| `RouteRepair.TypedHopsComeBack` | app/path_utils.py:233 | a comma-joined list of stripped lower-case hops is read back as that list |
| `RouteRepair.ExplicitSplitsBack` | app/path_utils.py:141-153 | splitting an accepted route's path gives exactly the hops typed |
| `RouteRepair.ExplicitSurvivesRepairExactly` | app/path_utils.py:231-253 | the repair is the identity on an accepted route if and only if it has at most 63 hops; with 64 it gives ("", 0, 1) |
| `RouteRepair.SixtyFourHopsAreAccepted` | app/path_utils.py:249-253 | a text with 64 hops that is accepted |
| `RouteRepair.BlanksInsideAHopAreAccepted` | app/path_utils.py:241-247 | every text of two digits, two blanks and two digits is accepted as one three-byte hop |
| `ContactRoutes.Contact.PostInit` | app/models.py:132-178 | repairs the stored fields; the precomputed effective route follows override, direct, flood; it equals the recomputed tuple if and only if the stored fields in use are stable, and then survives the radio dictionary and back |
| `ContactRoutes.UnstableContact` | app/models.py:183-196 | a contact whose precomputed route has 64 hops while the recomputed one is empty |
| `ContactRoutes.RadioDictDefaults` | app/models.py:60-67 | a missing length is flood, a missing mode is 0 for every real length |
| `ContactRoutes.RepairedShortTripleIsFixed` | app/models.py:183-196 | a stored repaired triple with a path of at most 63 bytes is a fixed point of the repair |
| `ContactRoutes.ContactTable.Upsert` | app/repository/contacts.py:44-133 | although columns are merged one by one, each route triple is replaced whole or kept whole; last_seen never moves back |
| `ContactRoutes.ContactTable.UpdateDirectPath` | app/repository/contacts.py:332-376 | the direct triple becomes one whole repaired triple; last_seen never moves back |
| `ContactRoutes.ContactTable.SetRoutingOverride` | app/repository/contacts.py:378-404 | the override becomes all null or one whole repaired triple, and nothing else changes |
| `ContactRoutes.ContactTable.ClearRoutingOverride` | app/repository/contacts.py:406-419 | the override becomes all null, and nothing else changes |
| `ContactRoutes.ContactTable.TouchLastSeen` | app/repository/contacts.py:500-521 | last_seen becomes the later of the two times, and nothing else changes |
| `ContactRoutes.ContactTable.Run` | app/repository/contacts.py:332-521 | over every sequence of writes each triple is all null or one whole repaired triple, no row is lost, and last_seen never decreases |
| `MqttLoop.RunKeepsInv` | app/fanout/mqtt_base.py:191-325 | snapshot, wake-up event, live client, backoff and notification flag stay consistent over every run with outside callers |
| `MqttLoop.ParkedMeansUpToDate` | app/fanout/mqtt_base.py:245-266 | parked while connected with the event clear, the live client was built from the latest settings |
| `MqttLoop.ParkedUnconfiguredMeans` | app/fanout/mqtt_base.py:197-215 | parked unconfigured with the event clear, nothing was bumped since the loop looked, and if the publisher is configured by now then the environment changed since |
| `MqttLoop.NoticedExactlyByBumpOrTimeout` | app/fanout/mqtt_base.py:203-219 | the parked loop can look again if and only if the version moved or the timeout is finite, and looking again goes on to connect with the latest settings if and only if they are usable now |
| `MqttLoop.StaysParkedWithoutBumpOrTimeout` | app/fanout/mqtt_base.py:204-205 | without timeout and bump the loop stays parked, whatever the environment does |
| `MqttLoop.UsableButParked` | app/fanout/community_mqtt.py:277-289 | a reachable state that is parked unconfigured with the event clear although the hook would accept now |
| `MqttLoop.EveryBumpWakes` | app/fanout/mqtt_base.py:101-144 | the parked loop can be woken if and only if the version has moved; every start and every failed publish while parked makes it so; waking drops the stale client or looks at the settings again |
| `MqttLoop.ConnectsWhenUsable` | app/fanout/mqtt_base.py:217-251 | with usable settings and an agreeing hook, four steps lead from the top of the loop to being parked, connected with these settings, the backoff at 5 and the notification flag clear |
| `MqttLoop.ReconnectsWithNewSettings` | app/fanout/mqtt_base.py:248-266 | settings that arrive while it connects make it close the client and start over with them |
| `MqttLoop.BackoffStaysInRange` | app/fanout/mqtt_base.py:306-325 | the backoff stays between 5 and the maximum, for every maximum of at least 5 |
| `MqttLoop.OneToastExactlyOffProactor` | app/fanout/mqtt_base.py:273-325 | at most one error notification since the last connect or stop, in every run, if and only if the platform's loop is not a Proactor loop |
| `MqttLoop.Publisher.OnLoopTop` | app/fanout/mqtt_base.py:197-219 | the hook's answer decides: parked unconfigured with event and client cleared, or on to connect with a snapshot of settings and version |
| `MqttLoop.Publisher.WaitForChange` | app/fanout/mqtt_base.py:248-251 | version check, clearing and waiting happen without suspension between |
| `MqttLoop.Publisher.OnRaised` | app/fanout/mqtt_base.py:273-322 | no client is left; the first error of an outage notifies and later ones do not; on a Proactor loop it notifies and ends for good |
| `MqttLoop.Publisher.StartWith` | app/fanout/mqtt_base.py:101-108 | the settings are stored, the version bumped and the event set; the loop starts at its top with backoff 5 only if none runs |
| `MqttLoop.Publisher.StopNow` | app/fanout/mqtt_base.py:110-123 | no loop, no client, not connected, flags cleared |
| `MqttLoop.Publisher.OnPublishFailed` | app/fanout/mqtt_base.py:140-144 | not connected, version bumped, event set, the loop where it was |
| `MqttLoop.Publisher.OnPreConnectDone` | app/fanout/mqtt_base.py:222-230 | connects with the snapshot if the hook agrees, else back to the top |
| `MqttLoop.Publisher.OnConnected` | app/fanout/mqtt_base.py:228-240 | the client is the one built from the snapshot, the flag is clear and the backoff 5 |
| `MqttLoop.Publisher.OnWoken` | app/fanout/mqtt_base.py:248-251 | parked unconfigured it goes to the top; connected it parks again if the version is the same, else closes |
| `MqttLoop.Publisher.OnPeriodicDone` | app/fanout/mqtt_base.py:252-261 | closes and suppresses the next success notification on a planned break, else checks the version |
| `MqttLoop.Publisher.OnClosed` | app/fanout/mqtt_base.py:263-266 | no client, not connected, back to the top |
| `MqttLoop.Publisher.OnSleepDone` | app/fanout/mqtt_base.py:321-325 | back to the top with the doubled backoff, capped at the maximum |
| `MqttLoop.Publisher.Run` | app/fanout/mqtt_base.py:101-325 | the object driven through any sequence of calls, environment changes and loop steps: parked and clear means up to date, the event is set exactly when the version moved, the backoff is in range, and an outage notifies at most once off a Proactor loop |
| `TelemetrySchedule.EffectiveIntervalDividesTheDay` | app/telemetry_interval.py:30-56 | for up to 24 targets and any preference the effective interval is on the menu, divides 24, and keeps targets times daily rounds within 24 |
| `TelemetrySchedule.EffectiveIntervalIsTheShortestLegal` | app/telemetry_interval.py:48-56 | it is the shortest menu value that honours the preference and keeps within the ceiling |
| `TelemetrySchedule.EffectiveIntervalOutside` | app/telemetry_interval.py:39-56 | an empty list has the floor of 8 hours, and one of more than 24 targets a day |
| `TelemetrySchedule.FiringsFromMidnight` | app/radio_sync.py:2043-2057 | from midnight the hourly gate fires once for each started block of interval hours |
| `TelemetrySchedule.ChecksManyDays` | app/radio_sync.py:2043-2057 | over any number of days from any hour the checks are that many times a calendar day's |
| `TelemetrySchedule.DailyCeilingHolds` | app/radio_sync.py:2043-2057 | with fixed settings, over any D days, from any hour and for any preference, at most 24*D target checks for a list of up to 24 targets |
| `TelemetrySchedule.SteadyIntervalKeepsCeiling` | app/radio_sync.py:2029-2054 | with preference and list read afresh every hour and edited at will, at most 24*D target checks over any D days as long as the effective interval is the same whenever the list is not empty |
| `TelemetrySchedule.WithinBoundExactly` | app/radio_sync.py:2029-2054 | for every history of effective intervals, list limit and bound: every list history with these intervals stays within the bound if and only if the cost of the firing hours does |
| `TelemetrySchedule.EditedListExceedsTheCeiling` | app/radio_sync.py:2029-2054 | a day of 31 checks with never more than eight targets |
| `TelemetrySchedule.TargetsWithinInterval` | app/telemetry_interval.py:41-56 | a list of up to 24 targets has at most as many targets as its effective interval has hours |
| `TelemetrySchedule.CeilingExceededBeyond24` | app/telemetry_interval.py:41-45 | the 24-hour fallback of the arithmetic: more than 24 targets, which the list limit of 8 rules out for stored lists, would exceed the ceiling every day |
| `TelemetrySchedule.NextRunTimestamp` | app/telemetry_interval.py:65-85 | terminates for every interval and returns the least firing top of hour strictly after now |

## Left out

- Cryptography (`app/decoder.py` decryption, `app/keystore.py`): library calls; hashes are arbitrary functions here.
- Transports, the `meshcore` library, WebSocket, push, webhook, SQS, Apprise, map upload and the MQTT client itself: input and output plumbing.
- Bot execution, routers, static files, security middleware, logging, version information: no hard property.
- Migrations other than 044: column, index and table changes that would only add easy members. Of 044, the missing-table and missing-column exits and the index creation itself.
- DM acknowledgement, DM ingest, message and radio lifecycle services, apart from the channel send's slot handling.
- Task cancellation, process crash, and SQLite beyond atomic committed transactions, unique indexes and increasing ids. The reader pool of `app/database.py` is not modelled.
- RadioOwnership: operation bodies never call disconnect(), connect() is reached only through reconnect(), and the setup lock, key clearing and error broadcasts are not modelled. A non-blocking request that finds the lock free queues like a blocking one, which allows more interleavings than asyncio does.
- ChannelSlots: capacity changes only at a reset, and an outside client does not change a slot in the middle of an audit or a send.
- ContactReconcile: lookups use a 12-character prefix, and these prefixes are taken to be unique; the desired set is fixed; the radio's table changes only by commands; the iteration order is left open. A lost transport found inside the lock ends the run like a swap. Yields, counters and log texts are not modelled.
- AutoevictFill: the desired list is fixed, which also leaves out its refresh between holds; rounds that find the lock busy send nothing and are skipped, and a transport change simply ends the run.
- ContactSelection: 0.80 and 0.95 are the exact fractions 4/5 and 19/20; lower() is ASCII.
- UnreadCounts: mention flags, last_read_ats and the formatting of dictionary keys; the last message times are keyed by type and conversation. Rows of the recursive query are taken in queue order.
- PrefixPromotion: LIKE key || '%' is the prefix test, which it is for lower-case hex keys; other tables that reference a deleted placeholder are not modelled.
- DmDedupe: observation fields are null, integer or text; an unhashable JSON value there makes the source raise.
- PacketFrame: the error texts of refused path bytes, and hex formatting of the hash.
- RouteRepair: operators type ASCII hex; non-ASCII lower-casing is not modelled.
- ContactRoutes: only the route fields and last_seen of a contact; the clock is a parameter.
- MqttLoop: stop() is one atomic step, so a start() during the cancellation of the old loop is not modelled; success notifications and the subclasses' hooks are reduced to their outcome, and the keys a client was built with are not tracked. The error that the community publisher's not-configured hook (app/fanout/community_mqtt.py:258-275) may broadcast is not counted: it needs a public key without a private one, and app/keystore.py sets and clears both together.
- TelemetrySchedule: the routed-hourly polling and per-target retries, which deliberately fall outside the ceiling; time zones other than UTC.
- Statistics, averages, distances and charts.
