# pua: verified models of its durable state

pua keeps long-lived agent work alive across crashes, lost responses and old
data. This project models the parts of it that have to be right for that and
proves what they promise. `dafny verify dfyconfig.toml` checks everything.

**Generation store** (`GenerationStore`, `LegacyCleanup`, `GenerationRuns`,
`Store`, `ResourceKey`). Each resource owns one mutable current record, a set of
immutable retired manifests and perhaps a legacy directory. An operation decides
from what it reads and then performs a short list of atomic file effects; a fault
names the first effect that fails and says whether it still reached the disk, so a
crash and an I/O error are the same thing. `Store` runs the locked sections
statement by statement; the theorems say that readers only ever see whole steps, and
they are carried to all runs of requests, cleanups and faults.

**Shared chat** (`ChatModel`, `ChatMigration`, `SharedChat`, `ChatOutbox`,
`ChatRuns`, `ChatPaging`). The merge of the per-user chats into one, the operations
on the merged chat, the outbox fenced by epochs and replayed after crashes, and the
pages a reader asks for.

**AgentHub replay and projection** (`Durable`, `EventLog`, `TurnCompletion`,
`CompletionReplay`, `ArchivedProof`, `ArchivedReconcile`, `TurnOrdinals`,
`SessionCreation`). A record in memory over its file, with saves that fail before or
after they took hold and restarts that read the file; the gap-checked replay of an
event log, against any server and against an honest one; the proof that an archived
session passed through stopped; the count of turns over two projection paths; and
session creation over a network that loses, delays and refuses requests.

**Text and trees** (`ManagedBlock`, `TemplateScan`, `Template`, `FileTree`). The
block kept inside AGENTS.md as a lens, the two scanners of a template, and the
breadth-first file tree with one budget.

Code that changes state step by step is a class or a method with its loops, proved
against a specification function; the properties are proved about that function.

## What the code does not promise

Where a natural promise fails, the code is kept, a concrete input shows the failure,
and the exact condition under which the promise holds is proved.

- A retirement stopped behind its manifest write is meant to be repeatable
  (comment in `internal/serve/generation_store.go` at lines 97-100), but the reason
  goes into the payload, so the repetition succeeds only if the reason is blank or
  already recorded: `Store.RetirementRetrySucceedsIff`,
  `Store.RetirementRetryMayFail`.
- A first retirement compares identity, a repeated one the payload:
  `GenerationStore.StalePayloadRetiresOnlyOnce`, `StalePayloadRetiredTwice`.
- SaveRetired, and the fallback id of the legacy cleanup, can make a live record
  disappear, and SaveRetired can make the next number fall:
  `SaveRetiredHidesCurrentIff`, `NextFallsIff`, `NextMayFall`,
  `MigrationHidesCurrentIff`, `CleanupMayHideCurrent`. The legacy cleanup can also
  block for good: `MigrationBlocksIff`, `CleanupMayBlock`. For the whole directory
  the conditions are `CleanupHidesCurrentIff` and `CleanupVerdictIff`, with the
  simpler sufficient ones `CleanupSparesCurrent` and `UnopposedCleanupSucceeds`.
- The fold of the event log skips an event whose source id does not exceed the one
  before: `TurnCompletion.NothingIsSkippedIff`, `SameSourceIsSkipped`. A page that is
  short of both its size and its durable cursor makes the completion cursor pass
  unread events: `CompletionReplay.PassesUnreadEventsIff`, `ShortPageLosesAnEvent`.
  The reply flag depends on how a history is cut: `TurnCompletion.SplitReplyIff`,
  `ReplyFlagDependsOnTheCut`.
- A ready state need not take a stop back: the record in memory is not saved when it
  does not change, so a stop that reached the disk in a failed save outlives it:
  `ArchivedReconcile.ReadyTakesBackIff`, `StopOutlivesReady`.
- A turn id that returns is counted again: `TurnOrdinals.CountedOnceIff`,
  `ReturningTurnIsCountedTwice`.
- Without an idempotency key a source can end with two sessions, for good:
  `SessionCreation.SafeIffKeyed`, `UnluckyRun`, `DuplicateIsFinal`. The comment in
  `internal/serve/agenthub_runtime.go` at line 149 calls every create
  non-idempotent; with a key AgentHub's README promises otherwise, and that promise
  is modelled.
- A cut of the listed directory itself leaves no sign in the file tree, so an
  unmarked tree is complete only if that directory fits the budget:
  `FileTree.UnmarkedTreeIsExactIff`, `RootTruncationIsSilent`.

## Model

| member | source | states |
|---|---|---|
| GenerationStore.Linearizable | internal/generation/store.go:252-360 | Whatever file effect a save or retirement stops at, and whether or not that effect reached the disk, readers see the state before the request or the state after one atomic step, never anything between; the outcome is the step's own or an I/O error, success means the step happened, and a refusal changes no file. |
| GenerationStore.SaveIsAtomic | internal/generation/store.go:252-285 | A save is one atomic step: refused while another identity is visible or once its generation is retired, otherwise it replaces the visible record. |
| GenerationStore.ManifestIsAtomic | internal/generation/store.go:519-537 | Writing a manifest enters it in the history once; the same content again is accepted without a write and other content is refused. |
| GenerationStore.RetireIsAtomic | internal/generation/store.go:313-360 | The manifest write is the linearization point of a retirement: removing current.json afterwards, or failing to, changes nothing a reader sees. |
| GenerationStore.SavedIsRead | internal/generation/store.go:252-285 | A save that succeeds is what readers see next: number, payload and times as given, the ids trimmed, an id made from the payload where it was blank; history and legacy directory stay. |
| GenerationStore.SaveAcceptedIff | internal/generation/store.go:252-285 | An undisturbed save succeeds if and only if payload and generation id are there, the generation is not retired, and the visible record, if any, has the same id, generation id and number. |
| GenerationStore.RetiredIsRead | internal/generation/store.go:289-307 | A record filed as retired for the first time is in the history as it was given, with its reason, and nothing else on disk changes. |
| GenerationStore.RetirementMoves | internal/generation/store.go:313-360 | An undisturbed first retirement moves the durable record, not the one it was given, into the history and removes current.json. |
| GenerationStore.VisibleIsNeverRetired | internal/generation/store.go:341-345 | The clean-up branch of a repeated retirement cannot be reached, because a visible record never has a manifest. |
| GenerationStore.RetrySucceedsIff | internal/generation/store.go:336-349 | Once the manifest exists a retirement touches no file, and succeeds if and only if it carries the durable content and no successor is visible; with a successor it fails and leaves the successor alone. |
| GenerationStore.RetryAfterInterruption | internal/generation/store.go:313-360 | After a retirement stopped anywhere, repeating it with the durable payload succeeds and leaves nothing visible, and if the manifest was already durable it changes no file even under a further fault. |
| GenerationStore.StalePayloadRetiresOnlyOnce | internal/generation/store.go:338-352 | The first attempt compares identity and a repetition compares payloads, so a repetition succeeds if and only if the payload is the durable one. |
| GenerationStore.StalePayloadRetiredTwice | internal/generation/store.go:338-352 | A concrete record, retired twice with a payload that is not the one on disk: accepted first, refused then. |
| GenerationStore.SaveRetiredHidesCurrentIff | internal/generation/store.go:289-307 | SaveRetired does not look at current.json: it makes the visible record disappear if and only if its request is complete and carries that record's generation id. |
| GenerationStore.NextFallsIff | internal/generation/store.go:207-248 | The next number falls if and only if a complete SaveRetired, not stopped before its write, files the visible generation, alone holder of the highest number, under a lower one; no other request or fault lowers it. |
| GenerationStore.NextMayFall | internal/generation/store.go:207-248 | A concrete request after which the next number is below one already used. |
| Store.Store.Perform | internal/generation/store.go:666-702 | One atomic file effect on one resource: it fails exactly where the fault strikes, and may have reached the disk even then. |
| Store.Store.SaveCurrent | internal/generation/store.go:252-285 | The locked section leaves the files and returns the outcome that the decision model gives for the same fault, and touches no other resource. |
| Store.Store.SaveRetired | internal/generation/store.go:289-307 | The same for filing a retired record. |
| Store.Store.WriteRetired | internal/generation/store.go:519-537 | The idempotent manifest write, with the fault that is left for the effects after it. |
| Store.Store.RetireCurrent | internal/generation/store.go:313-360 | The same for a retirement, manifest first and removal second. |
| Store.Store.NextGeneration | internal/generation/store.go:210-248 | The loop over current and manifests returns exactly one more than the greatest number in use, and at least 1. |
| Store.Store.ReadRecords | internal/generation/store.go:437-474 | A listing holds each generation once: every manifest marked retired and no other, the current record only when it is visible, and as many entries as there are of those. |
| Store.Store.Migrate | internal/generation/legacy_cleanup.go:84-120 | Migrating one legacy record performs exactly the planned manifest write, with the fault that is left. |
| Store.Store.CleanupFile | internal/generation/legacy_cleanup.go:84-120 | A legacy file is removed only after its record is safe, and not at all when the migration is refused. |
| Store.Store.CleanupResource | internal/generation/legacy_cleanup.go:54-82 | The directory loop, replanned after every file, performs exactly the effects of the plan made at the start. |
| Store.Store.CleanupAll | internal/generation/legacy_cleanup.go:30-52 | Success stamps the Workspace with no legacy directory left anywhere. An undisturbed sweep succeeds if and only if the plan of every resource does, whatever the order of the directories. The Workspace is never newly stamped while a resource still has a legacy directory, and every resource is at some point of its own cleanup wherever the sweep stops. |
| Store.LandInterrupts | internal/generation/legacy_cleanup.go:30-82 | A cleanup that fails under any fault leaves a prefix of its plan, and one that reports success leaves no legacy directory. |
| Store.GenerationRuntime.RetireStored | internal/serve/generation_store.go:83-119 | The record in memory is marked retired only after the store retired it, and the store request carries the reason inside its payload. |
| Store.RetirementRetrySucceedsIff | internal/serve/generation_store.go:83-119 | After a retirement stopped behind its manifest write, the same call succeeds if and only if the reason is blank or already in the durable record; the comment at lines 97-100 expects it always to. |
| Store.RetirementRetryMayFail | internal/serve/generation_store.go:83-119 | A concrete record, retired with a new reason and stopped behind its manifest: the repetition is refused. |
| Store.SavedGenerationIsRead | internal/serve/generation_store.go:22-46 | A generation that is saved is read back field by field, its payload encoded. |
| LegacyCleanup.CleanupConverges | internal/generation/legacy_cleanup.go:54-120 | Stopping the cleanup after any number of effects and running it again ends with the same files and the same verdict as never stopping. |
| LegacyCleanup.CleanupLosesNothing | internal/generation/legacy_cleanup.go:84-120 | After any number of effects every legacy record is still in its file, or in the history with its number and payload, its id (or one made from the payload), and its generation id, the one made from its id or the fallback, or was a duplicate of the visible record; no manifest changed and nothing hidden became visible. |
| LegacyCleanup.CleanupFinishes | internal/generation/legacy_cleanup.go:54-82 | An undisturbed cleanup removes the legacy directory if and only if it reports success. |
| LegacyCleanup.UnopposedCleanupSucceeds | internal/generation/legacy_cleanup.go:54-120 | The whole cleanup succeeds when every entry is a record and nothing else, manifest or legacy record, claims the fallback id of one for other content. |
| LegacyCleanup.CleanupSparesCurrent | internal/generation/legacy_cleanup.go:54-120 | The live record stays visible wherever the cleanup stops, when its id is trimmed and no legacy record falls back to it. |
| LegacyCleanup.ManifestIsRecognized | internal/generation/legacy_cleanup.go:84-120 | After a stop between a manifest and the removal of its file, the next run plans the removal only. |
| LegacyCleanup.MigrationIsSafe | internal/generation/legacy_cleanup.go:84-120 | Migrating a record adds at most one manifest, overwrites none and makes no record visible. |
| LegacyCleanup.MigrationFiles | internal/generation/legacy_cleanup.go:84-120 | The manifest a migration adds is the legacy record, times included, with the migration's reason. |
| LegacyCleanup.MigrationBlocksIff | internal/generation/legacy_cleanup.go:84-120 | A file blocks the cleanup if and only if it is no duplicate of the visible record and other content owns both of its ids. |
| LegacyCleanup.MigrationHidesCurrentIff | internal/generation/legacy_cleanup.go:84-120 | Migrating a file hides the visible record if and only if the primary id is taken by other content and the fallback id is the visible one. |
| LegacyCleanup.CleanupVerdictIff | internal/generation/legacy_cleanup.go:54-120 | The whole cleanup is blocked if and only if some record, in the directory with the manifests of the records before it, has both its ids taken by other content, and succeeds if and only if there is none and every entry is a legacy record. |
| LegacyCleanup.CleanupHidesCurrentIff | internal/generation/legacy_cleanup.go:54-120 | The whole cleanup hides the live record if and only if it comes to a record that does so there; otherwise the live record stays visible wherever the cleanup stops. |
| LegacyCleanup.CleanupMayBlock | internal/generation/legacy_cleanup.go:84-120 | Two old files of one run and a foreign manifest that block the cleanup for good. |
| LegacyCleanup.CleanupMayHideCurrent | internal/generation/legacy_cleanup.go:84-120 | An old file whose migration makes a live record disappear. |
| GenerationRuns.RunAdvances | internal/generation/store.go:252-360 | Over every run of requests, cleanups and faults no manifest changes, and a visible generation is ever after visible or retired. |
| GenerationRuns.SavedGenerationsSurvive | internal/generation/store.go:252-285 | A generation whose save succeeded is visible or retired at the end of whatever follows. |
| GenerationRuns.RetiredNeverReturns | internal/generation/store.go:267-284 | A retired generation keeps its manifest for ever and is never current again. |
| GenerationRuns.RunLosesNoLegacyRecord | internal/generation/legacy_cleanup.go:30-120 | At every moment of every run, other requests interleaved, each legacy record is in its file, in the history with its own number, payload and ids, or once had the generation id of the visible record. |
| GenerationRuns.NextExceedsEveryNumberEverUsed | internal/generation/store.go:207-248 | In a run whose callers create generations under the number of NextGeneration, file the visible one under no lower number, and start cleanups only where no legacy record falls back to the live id, the next number exceeds every number ever used. |
| GenerationRuns.CreatedNumbersIncrease | internal/generation/store.go:207-248 | In such a run generations are numbered in creation order: the number of a new one exceeds every number used before it. |
| ResourceKey.EncodeIsReadBack | internal/generation/store.go:128-136 | A file name read back as base64url (section 5 and table 2 of RFC 4648), six bits a letter, is the id it was made from. |
| ResourceKey.EncodeIsInjective | internal/generation/store.go:128-136 | Unpadded base64url (section 5 of RFC 4648) gives different file names to different byte strings. |
| ResourceKey.KeysAreUnambiguous | internal/generation/store.go:128-145 | Two resource keys are equal if and only if instance and normalized resource are, so one resource never reads another's files. |
| ResourceKey.KeyMeans | internal/generation/store.go:128-145 | Without an instance there is no key, and a blank resource is the Workspace root. |
| ChatMigration.FreshId | internal/serve/chat_shared_migration.go:141-148 | The renaming loop ends for any set of used ids, with the first candidate not among them. |
| ChatMigration.Select | internal/serve/chat_shared_migration.go:122-134 | The chosen chat has an earliest head, the first of them on a tie. |
| ChatMigration.TakeNext | internal/serve/chat_shared_migration.go:135-148 | The moved message is the next one of its chat (its content by MergedContent), under its own id or the first free derived one. |
| ChatMigration.MergeOne | internal/serve/chat_shared_migration.go:135-156 | One turn of the merge keeps its whole state: positions, order, recorded ids, unread lists and used ids. |
| ChatMigration.Merge | internal/serve/chat_shared_migration.go:119-158 | The merge is an interleaving of exactly the source chats, each in its own order with positions 0 to n-1, always taking the earliest head; every new id is recorded with its source, every id is unique, and the unread lists hold exactly the messages unread in their own chat. |
| ChatMigration.MergedContent | internal/serve/chat_shared_migration.go:135-141 | Message k of each source chat keeps text, role and time, records its chat, id and position, and as a user's message names the user and its old id; any other keeps sender and client id. |
| ChatMigration.MergePreservesTimeOrder | internal/serve/chat_shared_migration.go:119-158 | If every source chat is in time order the merged one is. |
| ChatMigration.TiesKeepChatOrder | internal/serve/chat_shared_migration.go:119-158 | Messages of one time stand in the order of their chats: of two chats in time order, a message of the later one precedes one of the earlier only if its time is earlier. |
| ChatMigration.UnreadCarriesOver | internal/serve/chat_shared_migration.go:152-161 | Up to every point of the merged chat a reader has as many unread messages as in the matching part of the own chat. |
| ChatMigration.CollectSources | internal/serve/chat_shared_migration.go:106-117 | Each source keeps owner, epoch and capability, open only for an open chat of a registered user, and the new epoch starts from the greatest old one. |
| ChatMigration.CarryOutbox | internal/serve/chat_shared_migration.go:169-182 | The loop moves exactly the deliveries that CarriedExactly describes. |
| ChatMigration.CarriedExactly | internal/serve/chat_shared_migration.go:169-182 | An entry is carried if and only if it is not accepted, not for the chat itself, and, as a user input, of the last epoch of an open chat of a registered user; it is fenced to the new epoch. |
| ChatMigration.Migrate | internal/serve/chat_shared_migration.go:68-187 | The shared chat holds the merged messages, sources, cursors, unread lists and outbox together, is open exactly when an old chat was, then with a new epoch and capability and otherwise without one, and has sources, cursors and unread lists of the old chats and their users only. |
| ChatMigration.MigratedSources | internal/serve/chat_shared_migration.go:106-168 | An open chat of a registered user keeps its capability and makes the shared chat open in a later epoch, any other loses it; each message is found under the id its source records. |
| ChatMigration.MigrationPreservesUnread | internal/serve/chat_shared_migration.go:152-161 | Every legacy owner has exactly as many unread messages after the migration as before. |
| SharedChat.ResourceChat.Load | internal/serve/chat_store.go:115-138 | A chat in memory is a copy of the durable one. |
| SharedChat.ResourceChat.Open | internal/serve/chat_store.go:91-104 | The object changes as Opened says; what that means for inputs and publications is OpenAccepts. |
| SharedChat.ResourceChat.Close | internal/serve/chat.go:237-250 | The object changes as Closed says; what that means for inputs, publications and deliveries is CloseRefuses and CloseFences. |
| SharedChat.ResourceChat.AppendMessage | internal/serve/chat_store.go:286-300 | The message is appended, recognized as the same one, or refused, with the checks in the code's order. |
| SharedChat.ResourceChat.Queue | internal/serve/chat_store.go:336-351 | An entry is queued once under the present epoch; other content under its id is refused. |
| SharedChat.ResourceChat.AppendUserInput | internal/serve/chat_store.go:431-470 | The search for a retry, the renaming, the checks and the queueing do what InputAppended says, message and entry together. |
| SharedChat.ResourceChat.StoredId | internal/serve/chat.go:261-282 | The search finds the id under which a migrated or renamed publication is already stored. |
| SharedChat.ResourceChat.Publish | internal/serve/chat.go:260-288 | A publication needs the present capability of its identity on an open, unarchived chat, and is then appended under its stored id. |
| SharedChat.ResourceChat.MarkRead | internal/serve/chat_store.go:302-335 | The cursor and the unread list are what MarkedRead says, and the result tells whether anything changed. |
| SharedChat.AppendKeepsConsistent | internal/serve/chat_store.go:286-300 | An append keeps message ids distinct and the outbox matched to the inputs. |
| SharedChat.FreshInputIsQueued | internal/serve/chat_store.go:445-469 | A fresh input id has no entry yet, so the queue step never meets its conflict branch. |
| SharedChat.InputIsQueuedOnce | internal/serve/chat_store.go:431-470 | An accepted new input is one message with a fresh id and one entry fenced by the present epoch; a refused or repeated one changes nothing. |
| SharedChat.QueuedMeans | internal/serve/chat_store.go:336-351 | Work is queued once under its id and the present epoch: the same again is accepted as it is, other work under the id is refused. |
| SharedChat.InputMeans | internal/serve/chat_store.go:431-470 | Which inputs are accepted, by the messages there are: closed chat, no user, sent before, blank or over 200 characters, name taken, or stored as one message with text, time, author and client id, renamed where its id is taken. |
| SharedChat.InputRetryIsNoOp | internal/serve/chat_store.go:431-470 | Repeating an accepted input succeeds and changes nothing. |
| SharedChat.AppendIsIdempotent | internal/serve/chat_store.go:286-300 | Repeating an accepted append changes nothing and succeeds if and only if role and text agree. |
| SharedChat.PublishRetryIsNoOp | internal/serve/chat.go:260-288 | Repeating an accepted publication is a no-op, also under an old capability whose message had to be renamed. |
| SharedChat.PublishMeans | internal/serve/chat.go:260-288 | A publication is refused as expired unless the chat is open and unarchived and the capability presented is that of the identity; then it is stored as one agent's message with its text and time, for a source with its origin, unless blank, too long or already there. |
| SharedChat.PublishIdMeans | internal/serve/chat.go:260-282 | The id it is stored under: for the chat itself the one given, for a source that of the message it already is, else the one given, else one made of source and id where another chat's message has that. |
| SharedChat.MarkReadsUpTo | internal/serve/chat_store.go:302-335 | A mark makes exactly the messages up to the marked one read, for this reader only, and leaves every later one as it was. |
| SharedChat.MarkMeans | internal/serve/chat_store.go:302-335 | A mark on a known message moves this reader's cursor and unread list and nothing else, and says whether it did; on an unknown one it does nothing. |
| SharedChat.MarksNeverRaiseTheCount | internal/serve/chat_store.go:194-207 | No mark raises any reader's unread count, and marking the last message clears it. |
| SharedChat.AppendedIsUnread | internal/serve/chat_store.go:194-207 | A new message adds one to every reader's unread count if an agent wrote it, and nothing otherwise. |
| SharedChat.NewReaderSeesAll | internal/serve/chat_store.go:194-207 | For a reader never seen before exactly the agents' messages are unread. |
| SharedChat.MarksCommute | internal/serve/chat_store.go:302-335 | Two marks of one reader give the same chat in either order, that of the later message alone; with equal marks this is idempotence. |
| ChatOutbox.ChatService.AcceptMail | internal/serve/chat.go:417-417 | The mailbox as the replay relies on it: the same message again is accepted, other content under its id refused. |
| ChatOutbox.ChatService.Reconcile | internal/serve/chat.go:376-431 | The loop over the outbox delivers and marks in memory, and one save at the end makes the marks durable; whatever effect fails, chat and mailbox are what Reconciled says. |
| ChatOutbox.ChatService.Input | internal/serve/chat.go:258-299 | An input request loads, changes and saves; a refused or interrupted one leaves no trace. |
| ChatOutbox.ChatService.Open | internal/serve/chat.go:233-236 | Opening an open chat does not start another epoch. |
| ChatOutbox.ChatService.Close | internal/serve/chat.go:237-250 | A close is durable or did not happen; the durable chat is the one CloseRefuses and CloseFences speak of. |
| ChatOutbox.PassDelivers | internal/serve/chat.go:389-423 | Everything a pass adds to the mailbox is an undelivered entry that may be delivered at that moment, and nothing already there changes. |
| ChatOutbox.PassHandsOver | internal/serve/chat.go:389-423 | Whatever was deliverable when a completed pass began is in the mailbox when it ends, with the entry's target, text, sender and kind. |
| ChatOutbox.PassSettles | internal/serve/chat.go:389-423 | A completed pass leaves no entry open. |
| ChatOutbox.ReconcileSettles | internal/serve/chat.go:376-431 | A completed reconciliation settles every entry, revokes the capabilities of users who are gone, and changes nothing else of the chat; any other leaves the chat so or as it was. |
| ChatOutbox.PassReplays | internal/serve/chat.go:389-423 | From any mailbox between the start and the end of a completed pass the pass leads to that same end. |
| ChatOutbox.StoppedIsBetween | internal/serve/chat.go:389-423 | A pass stopped by any fault leaves a mailbox between the start and the end of the undisturbed pass. |
| ChatOutbox.ReconcileReplays | internal/serve/chat.go:376-431 | Stopping a reconciliation at any durable effect and running it again gives the world of one undisturbed run, if that run completes (in reachable worlds it does: ChatRuns.ReachableReconcileReplays). |
| ChatOutbox.ReconcileAgrees | internal/serve/chat.go:376-431 | With distinct entries and a mailbox that agrees with them a reconciliation never meets a conflict, completes when undisturbed, and leaves the same. |
| ChatOutbox.FaultInReconcile | internal/serve/chat.go:376-431 | Which write a fault strikes decides what is left: a mailbox write leaves the chat as it was, the save after them the chat as it was or settled, and a fault past both changes nothing. |
| ChatRuns.RunKeepsInvariant | internal/serve/chat_store.go:286-470 | In every chat reachable by inputs, retries, opening, closing, publishing, marking and reconciling, message ids are distinct and each accepted input has exactly one outbox entry. |
| ChatRuns.MigrationEstablishesInvariant | internal/serve/chat_shared_migration.go:68-187 | A freshly migrated chat satisfies that invariant. |
| ChatRuns.DeliveredOnlyWhileOpen | internal/serve/chat.go:389-423 | A mailbox message appears only in a reconciliation and carries an entry that is open work for somebody else, and as a user input is of the present epoch of the open, unarchived chat, its source's capability and user still there. |
| ChatRuns.DueIsDelivered | internal/serve/chat.go:389-423 | Such an entry is in the mailbox, with its content and under the id of its origin, and settled, after the next undisturbed reconciliation. |
| ChatRuns.CloseRefuses | internal/serve/chat.go:237-250 | After a close every input and every publication is refused, the capabilities are gone, and messages, entries and epoch are as before. |
| ChatRuns.CloseFences | internal/serve/chat.go:237-250 | A user input not delivered by the time of a close is never delivered, whatever follows, another opening included. |
| ChatRuns.OpenAccepts | internal/serve/chat_store.go:91-104 | Opening a closed chat starts a greater epoch under which a new input is queued, its capability publishes, and every other one is refused. |
| ChatRuns.ReopeningIsNoOp | internal/serve/chat.go:233-236 | Opening an open chat starts no other epoch and keeps the capability. |
| ChatRuns.OneMailPerInput | internal/serve/chat.go:408-417 | No other entry shares the mailbox id of an accepted input, nor of any entry where entries are distinct, so it yields at most one mailbox message. |
| ChatRuns.FencedInputsAreNeverDelivered | internal/serve/chat.go:395-403 | An input of an earlier epoch, or of a closed chat, own or carried over by the migration, that is not delivered yet is never delivered in any continuation. |
| ChatRuns.InputStaysAccepted | internal/serve/chat_store.go:431-470 | After any events an accepted input is still accepted: its repetition changes nothing, and succeeds if and only if the chat is open. |
| ChatRuns.PublicationStaysAccepted | internal/serve/chat.go:260-288 | After any events an accepted publication is still stored under the same id: its repetition changes nothing, and succeeds if and only if the chat is open and unarchived and the capability is the present one of its identity. |
| ChatRuns.MailIsImmutable | internal/serve/chat.go:417-422 | No run of the chat changes or withdraws a mailbox message. |
| ChatRuns.MarkedStaysRead | internal/serve/chat_store.go:302-335 | What a reader has marked, and everything before it, stays read for that reader over every run. |
| ChatRuns.RunKeepsSound | internal/serve/chat.go:376-431 | Over every run entries stay distinct by source chat and id, mail under the id of an entry is its message, and mail under an id of the chat's own inputs is explained by an entry. |
| ChatRuns.ReachableReconcileReplays | internal/serve/chat.go:376-431 | In every world so reached a reconciliation meets no mail conflict, completes when undisturbed, and stopped at any durable effect is completed by running it again, in the world of one undisturbed run. |
| ChatRuns.MigrationEstablishesSound | internal/serve/chat_shared_migration.go:68-187 | A migration from chats with distinct ids, entries of distinct ids and a mailbox that agrees with them starts in that invariant. |
| ChatRuns.RevokedCapabilityNeverPublishes | internal/serve/chat_store.go:91-104 | A reply capability revoked by a close never publishes again, unless a later opening draws the same one. |
| ChatPaging.Find | internal/serve/chat_store.go:249-285 | The search returns the position of the first message with the id, or the length. |
| ChatPaging.PublicPage | internal/serve/chat_store.go:249-285 | The search and the clipping give the page, the two flags and the unknown-cursor error of PageOf. |
| ChatPaging.PageMeans | internal/serve/chat_store.go:249-285 | A request is answered if and only if it has no limit or its cursor is blank or names a message; with both cursors it gets the first messages before the one after which. |
| ChatPaging.OlderWalkIsExact | internal/serve/chat_store.go:249-285 | Asking for what is before the oldest message seen, while messages are appended in between, visits every older message once and in order, ends, and HasOlder is exact. |
| ChatPaging.ReadingBackwardsSeesEverything | internal/serve/chat_store.go:249-285 | The newest page and a finished walk back from it are together the whole chat of the first request. |
| ChatPaging.NewerWalkIsExact | internal/serve/chat_store.go:249-285 | Asking for what is after the newest message seen misses and repeats nothing, takes no more pages than there are messages from there on, and HasNewer is false exactly at the end of the chat at that request. |
| EventLog.TakePage | internal/serve/agent.go:638-652 | The loop over one page consumes the frames after the cursor in order and stops at the first gap. |
| EventLog.ConsumeIsContiguous | internal/serve/agent.go:638-652 | Whatever a page holds, the consumed frames carry exactly the cursors after the old one up to the new one. |
| TurnCompletion.MarkerIsInjective | internal/serve/agent.go:717-717 | Within a session two markers are equal if and only if they name the same event. |
| TurnCompletion.MarkerNamesSession | internal/serve/agent.go:717-717 | A marker is the session, a colon and the event id. |
| TurnCompletion.ScanSummary | internal/serve/agent.go:691-710 | For any history the loop examines events with strictly increasing ids, its cursor is the last of them, its terminal the greatest terminal and its reply set the turns with visible text among them. |
| TurnCompletion.NothingIsSkippedIff | internal/serve/agent.go:694-698 | Every event past the cursor is examined if and only if the ids of those events strictly increase. |
| TurnCompletion.SameSourceIsSkipped | internal/serve/agent.go:694-698 | A terminal that follows another semantic event of the same source event is never seen. |
| TurnCompletion.FoldedMeans | internal/serve/agent.go:677-737 | The folded record carries the greatest terminal examined if that is newer than the old one, with the reply flag of exactly this batch, and otherwise keeps its completion; the cursor is the greater of the last id and the reported latest. |
| TurnCompletion.NewSessionStartsClean | internal/serve/agent.go:671-742 | A session not seen before, whose events hold no terminal, gets a record without a completion, whatever the one before it had. |
| TurnCompletion.FoldKeepsCoherent | internal/serve/agent.go:677-737 | The marker always names the completion event, and the cursor has passed it. |
| TurnCompletion.FoldOnlyAdvances | internal/serve/agent.go:677-737 | Neither cursor nor completion event moves back, and the marker changes if and only if a newer terminal was found. |
| TurnCompletion.ReplayOfThePast | internal/serve/agent.go:694-714 | Folding events the cursor has passed clears the pending flag and nothing else. |
| TurnCompletion.RefoldIsIdentity | internal/serve/agent.go:677-737 | Folding any history a second time changes nothing. |
| TurnCompletion.SplitInTwo | internal/serve/agent.go:677-737 | With strictly increasing ids two consecutive batches give the cursor, event, marker, state and turn of one batch. |
| TurnCompletion.SplitReplyIff | internal/serve/agent.go:719-719 | CompletionHasFinalReply also agrees if and only if the cut keeps it: a terminal of the second batch has text there when the first has it, and with none there a terminal of the first has text in the first when the second has it. |
| TurnCompletion.ReplyFlagDependsOnTheCut | internal/serve/agent.go:719-719 | Text in the first batch and the terminal in the second: one batch reports a final reply, two do not. |
| TurnCompletion.SplitIsOneBatch | internal/serve/agent.go:677-737 | The same for any number of consecutive batches. |
| CompletionReplay.ReadHistory | internal/serve/agent.go:623-665 | The paging loop reads what Collect says, against any server. |
| CompletionReplay.ReadingIsGapless | internal/serve/agent.go:623-665 | A reading that succeeds holds consecutive frames from the cursor on, uses only answered pages, and reports the highest durable cursor of those pages or its own end. |
| CompletionReplay.PassesUnreadEventsIff | internal/serve/agent.go:659-668 | When durable cursors never move back, the new cursor passes an unread event if and only if the last page was shorter than 500 frames and short of its own durable cursor. |
| CompletionReplay.ShortPageLosesAnEvent | internal/serve/agent.go:659-668 | A one-frame page reporting two events makes the cursor pass the second unread. |
| CompletionReplay.HonestReadingIsExact | internal/serve/agent.go:623-668 | From a server that serves full pages of a growing log the loop reads exactly the log up to a length it had, and finishes once asked often enough. |
| CompletionReplay.RecordedMeans | internal/serve/agent.go:583-669 | By the session shown: a blank or foreign one changes nothing, a new one is a baseline at its last event, a covered one loses its pending flag, a failed reading changes nothing, and a complete one moves the cursor to its end. |
| CompletionReplay.PreparedMeans | internal/serve/agent.go:558-581 | A session not seen before gets a clean record read from its beginning, any other is left alone. |
| CompletionReplay.PendingUntilRead | internal/serve/agent.go:583-669 | The pending flag stays until a reading is complete and saved. |
| Durable.Persist | internal/serve/agent.go:763-792 | Publish after save: memory and file are those of Mutate, and only a change whose save was refused is reported as failed. |
| CompletionReplay.Runtime.MutateGeneration | internal/serve/agent.go:763-792 | The record in memory changes only when the save succeeded; a failed save may still have reached the disk. |
| CompletionReplay.Runtime.PrepareTurnCompletion | internal/serve/agent.go:558-581 | A session seen at its finish edge is inspected from its beginning, once. |
| CompletionReplay.Runtime.RecordTurnCompletionHistory | internal/serve/agent.go:671-742 | The loop computes Folded, saves it, and notifies exactly when the published marker is new and not empty. |
| CompletionReplay.Runtime.RecordTurnCompletion | internal/serve/agent.go:583-669 | Blank and foreign sessions are ignored, a new one is baselined at its last event, a covered one only loses its pending flag, a failed reading changes nothing, and a complete one is folded. |
| CompletionReplay.RunFollowsTheLog | internal/serve/agent.go:583-742 | However the log is cut into readings, late and overlapping ones included, whatever saves fail and wherever the process restarts, memory and disk hold what one fold of the log up to their cursor gives, but for the pending and final-reply flags. |
| CompletionReplay.RunFindsTheLastTerminal | internal/serve/agent.go:671-742 | So the durable marker is always that of the last terminal between the first cursor and the present one, and the old marker if there is none. |
| CompletionReplay.NothingHistoricalIsReported | internal/serve/agent.go:598-613 | A session first seen outside its finish edge is a baseline: no run from there ever reports a terminal at or before its last event at that time. |
| ArchivedProof.ProvePage | internal/serve/agenthub_reconcile.go:47-76 | The loop over one page breaks exactly on a gap or an undecodable session state among the frames before it, and otherwise consumes the page and sees every stopped state. |
| ArchivedProof.Prove | internal/serve/agenthub_reconcile.go:32-85 | The replay loop returns the verdict of Replay, against any server, and makes exactly the requests counted. |
| ArchivedProof.ReplayIsSound | internal/serve/agenthub_reconcile.go:32-85 | Against any server a completed replay consumed decodable frames with cursors 1 to c in order, all from answered pages, and c covers the latest cursor reported last. |
| ArchivedProof.FailsForGoodIff | internal/serve/agenthub_reconcile.go:32-85 | Against any server the replay fails for good if and only if the last answer it asked for is a permanent failure, or has a gap, an undecodable state or nothing new before the end. |
| ArchivedProof.ReplayIsExact | internal/serve/agenthub_reconcile.go:32-85 | Over an immutable log whose pages progress, with overlaps and transient failures, the replay fails for good if and only if it meets an undecodable state, otherwise completes with the whole log, and needs at most one request a frame and one more. |
| ArchivedProof.ProofIsExact | internal/serve/agenthub_reconcile.go:32-85 | With that many answers the proof says yes if and only if some session.state of the log is stopped. |
| ArchivedReconcile.Reconciler.MutateGeneration | internal/serve/agent.go:763-792 | The whole generation is saved or rolled back. |
| ArchivedReconcile.Reconciler.RetireStored | internal/serve/generation_store.go:83-119 | The manifest is written once, from the durable generation; a repetition is accepted only if it carries what the manifest holds. |
| ArchivedReconcile.RetirementMeans | internal/serve/generation_store.go:83-119 | A retirement is accepted when there is no manifest and the write succeeds, or when the manifest is the record with the reason; then memory carries the reason, and the disk keeps the current generation. |
| ArchivedReconcile.Reconciler.ReconcileArchived | internal/serve/agenthub_reconcile.go:106-172 | The branches on the observed stop, the failed proof and the verdict do what Reconciled says, and after a permanent failure no request is made. |
| ArchivedReconcile.ProjectionsAgree | internal/serve/agenthub_poller.go:428-445 | The poller and the action path observe the same stop, and only a stopped state outside idle sleep sets it (compare lines 692-704). |
| ArchivedReconcile.RetiresOnlyOnEvidence | internal/serve/agenthub_reconcile.go:106-172 | In every run no generation is retired, nor believed stopped in memory or on disk, before a stopped edge was projected or a complete replay passed through stopped. |
| ArchivedReconcile.RetiringStepIsBacked | internal/serve/agenthub_reconcile.go:106-172 | Whatever saves fail, with or without reaching the disk, the very step that writes the manifest has the proof itself, or follows a stop or proof that no ready or starting state has taken back since, where only one that changes the record takes anything back. |
| ArchivedReconcile.ObservedStopIsRetired | internal/serve/agenthub_reconcile.go:106-130 | With a stop on record the session is retired without a proof, as stopped and no longer waiting for sleep, its completion read to the end only if it was pending. |
| ArchivedReconcile.RestartForgets | internal/serve/agenthub_reconcile.go:106-153 | A restart reads the disk, forgets a failed proof, and takes a durable manifest for a retirement. |
| ArchivedReconcile.ReadyTakesBackIff | internal/serve/agent.go:772-792 | A saved ready or starting state takes a stop off the disk if and only if it changes some field of the record in memory, because an unchanged record is not saved. |
| ArchivedReconcile.StopOutlivesReady | internal/serve/agent.go:772-792 | A stop whose save failed after it reached the disk, a ready state that finds the record in memory as it was, and a restart: the session is retired without a proof. |
| ArchivedReconcile.ManifestStays | internal/serve/agenthub_reconcile.go:106-172 | Once written the manifest stays. |
| ArchivedReconcile.LandedRetirementIsRefused | internal/serve/generation_store.go:83-119 | Once a retirement failed with a manifest without the reason durable, no run of retries and observations completes it: the generation counts as retired if and only if the process has restarted. |
| ArchivedReconcile.HonestArchiveIsRetired | internal/serve/agenthub_reconcile.go:106-172 | One undisturbed pass over an honest archived session that passed through stopped retires the generation, whether the session is new to the record or was polled before; its completion has read the whole log and marks the last terminal of the part not read yet, or keeps the marker on record. |
| ArchivedReconcile.DoubtRetains | internal/serve/agenthub_reconcile.go:135-153 | Every other outcome changes nothing but the status, to recovering unless it is stopped, and is tried again only if the failure was transient. |
| TurnOrdinals.ClockStartsOnce | internal/serve/agenthub_poller.go:467-475 | With every write saved the start time of a turn stays that of its first observation, over any repetitions, idle states and restarts. |
| TurnOrdinals.InactiveSessionHasNoTurn | internal/serve/agenthub_poller.go:463-506 | A session that is neither running nor waiting for approval keeps no turn, whatever turn id it still names, and allocates nothing. |
| TurnOrdinals.ActiveTurnIsRecorded | internal/serve/agenthub_poller.go:463-506 | A running or waiting session's trimmed turn id is the current and last turn; a new one is counted and its clock set, a known one is not. |
| TurnOrdinals.Runtime.Save | internal/serve/agent.go:772-792 | Roll-back and error report of a failed save. |
| TurnOrdinals.Runtime.AllocateTurnNumber | internal/serve/resource_attention.go:385-410 | The number allocated is one above the resource's file and every generation on disk, and a failed save returns none. |
| TurnOrdinals.Runtime.Poll | internal/serve/agenthub_poller.go:415-506 | The poller's projection has the effect of Observed: turn fields, state, at most one allocation, and the finish edge. |
| TurnOrdinals.Runtime.Apply | internal/serve/agenthub_poller.go:636-729 | The action projection, in its own order of updates, has the same effect. |
| TurnOrdinals.AtMostOneAllocationPerTurn | internal/serve/agenthub_poller.go:463-506 | For any interleaving of both projections with failed writes and restarts, a turn triggers at most one allocation and the turn on record none, as long as no turn id returns. |
| TurnOrdinals.AllocatesExactlyOnce | internal/serve/agenthub_poller.go:463-506 | With every write saved, restarts or not, the allocations are exactly the changes of the observed turn. |
| TurnOrdinals.CountedOnceIff | internal/serve/agenthub_poller.go:463-506 | With every write saved no turn is counted twice if and only if no turn id returns after another. |
| TurnOrdinals.ReturningTurnIsCountedTwice | internal/serve/agenthub_poller.go:463-506 | Turns a, b and a again allocate three numbers. |
| TurnOrdinals.ChangesAreDistinctIff | internal/serve/agenthub_poller.go:463-477 | The changes of turn repeat no turn if and only if no turn returns. |
| TurnOrdinals.NumbersIncrease | internal/serve/resource_attention.go:385-410 | Whatever writes fail, the numbers allocated for the resource, by this generation and by others in between, strictly increase past every number it had. |
| TurnOrdinals.NumbersAreConsecutive | internal/serve/resource_attention.go:385-410 | With every write saved and no number above the file at the start, the resource's numbers are consecutive, this generation gets one for each change of turn, and its record carries the last of its own. |
| TurnOrdinals.RestartKeepsTheEdge | internal/serve/agenthub_poller.go:420-425 | The next projection sees a finish if and only if this one was running or waiting and the next is ready or stopped, with or without a restart in between. |
| TurnOrdinals.FailedSaveKeepsTheEdge | internal/serve/agent.go:772-792 | A projection whose save fails changes nothing in memory, so the edge is there for the next one. |
| TurnOrdinals.PreviousStateMeans | internal/serve/agenthub_poller.go:420-425 | The state compared with is the one last observed; only before the first one the status stands in. |
| TurnOrdinals.RestartReadsDisk | internal/serve/agent.go:772-792 | A restart keeps the record on disk and the numbers and forgets the rest. |
| TurnOrdinals.ElsewhereAllocates | internal/serve/resource_attention.go:385-410 | Another generation's allocation leaves this one alone and takes a number above all there are. |
| SessionCreation.FindSourceSessions | internal/serve/agenthub_runtime.go:165-180 | The filter keeps exactly the sessions of the source, in order. |
| SessionCreation.AgentHub.Create | agenthub/README.md:313-314 | An identical create with a known key returns the session it already made; another request under the key is a conflict. |
| SessionCreation.KeyIsIdempotent | agenthub/README.md:313-314 | After a create with a key was answered by a session, the same create gets that session again and any other with the key a conflict, and neither changes the server. |
| SessionCreation.AgentHub.Arrive | internal/serve/agenthub_runtime.go:146-150 | Creates the network held back are processed whenever they arrive. |
| SessionCreation.OneArrives | internal/serve/agenthub_runtime.go:146-150 | One held create arrives and the others stay held. |
| SessionCreation.AgentHub.FindOrCreate | internal/serve/agenthub_runtime.go:133-163 | Query, create and second query have the effect and outcome of Called in every weather. |
| SessionCreation.CallKeeps | internal/serve/agenthub_runtime.go:133-163 | One call with a key leaves at most one session of the source, a success returns that session, and neither a duplicate nor a conflict is ever reported. |
| SessionCreation.OneSessionPerSource | internal/serve/agenthub_runtime.go:133-180 | The same over every run of calls with lost, delayed and refused creates, late arrivals and foreign sessions, for all successes of the run. |
| SessionCreation.UndisturbedCallSucceeds | internal/serve/agenthub_runtime.go:133-163 | A call whose queries are answered and whose create is processed succeeds, and finds a session left behind without creating one. |
| SessionCreation.CallOutcomes | internal/serve/agenthub_runtime.go:133-163 | When a call fails at its first query, succeeds at once by the reply to its create, stays unknown, or reports a failed create. |
| SessionCreation.ForeignIsIndependent | internal/serve/agenthub_runtime.go:165-180 | A create for another source under another key happens and leaves this source's sessions alone. |
| SessionCreation.SafeIffKeyed | internal/serve/agenthub_runtime.go:606-616 | Every run keeps at most one session if and only if the calls carry an idempotency key. |
| SessionCreation.UnluckyRun | internal/serve/agenthub_runtime.go:138-163 | Without a key a create the network holds back, a second call and the late arrival leave two sessions of one source. |
| SessionCreation.DuplicateIsFinal | internal/serve/agenthub_runtime.go:138-145 | Once a source has two sessions no call for it succeeds or creates another. |
| ManagedBlock.FindBlockMeans | internal/app/init.go:84-99 | The counts and searches amount to: no marker at all, or exactly one start marker before exactly one end marker, or an error. |
| ManagedBlock.NoneAcrossJoint | internal/app/init.go:68-82 | Where texts are joined by an upsert no marker appears across the joint and none is lost. |
| ManagedBlock.PutFailsIff | internal/app/init.go:68-99 | An upsert fails if and only if the markers are neither both absent nor one start before one end. |
| ManagedBlock.PutGetIff | internal/app/init.go:68-99 | The bounds found after an upsert select exactly the block at its place if and only if the block is well formed. |
| ManagedBlock.PutKeepsOutside | internal/app/init.go:68-76 | Everything outside a found block is unchanged. |
| ManagedBlock.FirstPutKeepsText | internal/app/init.go:78-82 | Into a file without a block an upsert keeps all of the text but trailing padding, puts a blank line before the block and ends with a line break. |
| ManagedBlock.GetPut | internal/app/init.go:68-99 | Putting back the found block is the identity. |
| ManagedBlock.PutPut | internal/app/init.go:68-99 | A second upsert overrides the first. |
| ManagedBlock.PromptBlockIsBlock | internal/app/init.go:101-103 | A prompt without markers makes a well-formed block. |
| ManagedBlock.PuaBlockLaws | internal/app/init.go:122-125 | The laws for the two markers pua uses. |
| ManagedBlock.PuaMarkersAreValid | internal/app/init.go:122-125 | Those markers have the shape the laws rely on. |
| TemplateScan.TokenIsAny | internal/app/template.go:24-25 | Every well-formed token is also what the validation pattern finds at its place, with the same end. |
| TemplateScan.MatchIsToken | internal/app/template.go:24-24 | What the rendering pattern matches is two braces, blanks, a name, blanks and two braces, with the characters written out. |
| TemplateScan.TokenIsMatched | internal/app/template.go:24-24 | And every such stretch of a text is matched, with its name and its end. |
| TemplateScan.AnyMeans | internal/app/template.go:25-25 | The validation pattern matches exactly two braces, text without braces, and two braces. |
| TemplateScan.NameInToken | internal/app/template.go:361-371 | Searching inside a token's text finds the whole token or nothing. |
| TemplateScan.ScannersAgreeIff | internal/app/template.go:354-377 | The validation and the rendering pattern cut a text alike if and only if every token validation finds is well formed. |
| TemplateScan.PiecesPrint | internal/app/template.go:469-474 | Cutting a text into literals and tokens loses nothing. |
| TemplateScan.TokenBetween | internal/app/template.go:24-24 | A well-formed token between any two texts is cut out as it is, and the texts are cut as if they stood alone. |
| Template.NormalizeIdempotent | internal/app/template.go:95-99 | Normalizing twice is normalizing once; the result has no carriage return and ends in one line break. |
| Template.LineEndingsDoNotMatter | internal/app/template.go:95-104 | A template has the same normalized source, and so the same digest, with Windows line endings. |
| Template.ValidateText | internal/app/template.go:359-376 | The loop over the matches reports each ill-formed or undeclared token and stray braces. |
| Template.ValidatePlaceholders | internal/app/template.go:354-377 | Both texts are validated, in either order; no issue means the template is valid. |
| Template.TextIssuesMean | internal/app/template.go:359-376 | The issues of a text are its tokens that are no placeholder, its placeholders of no field, and braces left outside tokens. |
| Template.ValidMeans | internal/app/template.go:354-377 | A template is valid if and only if nothing else is wrong with it, its fields have distinct names, and in both texts every token names a field and no brace pair is left outside tokens. |
| Template.Collect | internal/app/template.go:436-468 | The loop over the fields keeps what each accepted field stands for and every rejection. |
| Template.ResolveFields | internal/app/template.go:422-468 | No issue if and only if every given name is declared and every field acceptable; then each declared name has its one value. |
| Template.FieldMeans | internal/app/template.go:378-416 | A field accepts the value given, its default or its blank if and only if its kind allows it and a required one is neither missing nor blank; what it then stands for, and which issue it raises otherwise. |
| Template.RenderTemplate | internal/app/template.go:418-484 | Which of the three errors occurs, and the title, text and values of a success. |
| Template.RenderingIsExact | internal/app/template.go:354-484 | In a valid template with accepted input rendering works on exactly the pieces validation saw, which print the text; every token has a declared name with a defined value, and no brace pair is left outside tokens. |
| Template.ValuesAreNotRescanned | internal/app/template.go:469-474 | Rendering a token between any two texts is rendering the texts alone with its value, or nothing, between them: neither a value nor a neighbour is scanned together with another. |
| Template.OnlyOwnTokensMatter | internal/app/template.go:469-474 | The result depends only on the values of the text's own tokens, whatever token-like text they contain. |
| FileTree.ListEntries | internal/app/workspace_snapshot.go:335-370 | One directory gives the first shown entries the budget allows, and is truncated if and only if an entry was left when the budget was spent. |
| FileTree.ShownMeans | internal/app/workspace_snapshot.go:372-382 | A directory shows exactly its entries with information that are files, or directories other than .git, .cache, .next, build, dist, node_modules and vendor. |
| FileTree.EnqueueDirs | internal/app/workspace_snapshot.go:302-313 | The queue gets the new directories in order. |
| FileTree.VisitNext | internal/app/workspace_snapshot.go:315-332 | One turn of the loop has the effect of Visit. |
| FileTree.VisitKeeps | internal/app/workspace_snapshot.go:300-333 | One turn keeps the tree shape, the levels and what the nodes say of the file system, and either spends budget or shortens the queue. |
| FileTree.ExpandFileTree | internal/app/workspace_snapshot.go:300-333 | The walk ends on any file system, however deep, with every directory settled. |
| FileTree.ReadFileTree | internal/app/workspace_snapshot.go:281-292 | The only error is an unreadable directory; otherwise the count is the number of nodes, at most the limit, each but the first level is the child of one earlier node, none lies below the depth limit plus one, and all exist. |
| FileTree.UntruncatedIsComplete | internal/app/workspace_snapshot.go:315-332 | A readable directory within the depth limit that is not truncated lists exactly what it shows, in order. |
| FileTree.UntruncatedHasEntries | internal/app/workspace_snapshot.go:315-382 | So the children of such a directory are exactly those entries, by name and kind. |
| FileTree.TruncationIsFair | internal/app/workspace_snapshot.go:315-332 | A truncated directory means the budget is spent, and that nothing was made more than one level below it. |
| FileTree.UncutTreeIsExact | internal/app/workspace_snapshot.go:281-333 | When nothing is truncated and the listed directory fits, the tree has exactly the paths there are down to the limit. |
| FileTree.UnmarkedTreeIsExactIff | internal/app/workspace_snapshot.go:281-333 | A tree without a truncated node has exactly the paths there are down to the limit if and only if the listed directory shows no more entries than the budget. |
| FileTree.RootEntryIsMissing | internal/app/workspace_snapshot.go:281-292 | If it shows more, the entry after the last that fits is on disk and not in the tree. |
| FileTree.RootTruncationIsSilent | internal/app/workspace_snapshot.go:281-292 | The listed directory's own truncation is dropped: two files, a budget of one, and a tree without any mark that lacks the second. |

## Left out

- Encodings and digests: JSON and YAML parsing, SHA-256, clocks and random values are an injective or uninterpreted function, a parameter or a given fresh value; white space is the ASCII one of strings.TrimSpace, and integers are unbounded.
- Generation store: timestamps, including the time of retirement, the order of listings over several resources, and files that exist but cannot be read are not modelled, and operations start after EnsureReady; runs interleave cleanups with requests freely, which is more than the code does.
- GenerationRuns.NextExceedsEveryNumberEverUsed: holds for runs whose callers keep the discipline of `Disciplined`, because without it the next number can fall (NextMayFall); the same discipline is assumed by GenerationRuns.CreatedNumbersIncrease.
- GenerationStore: the fallback id of a record without an id digests the payload as compacted, while the code digests the bytes it was given, so two spacings of one payload get one id here and two there.
- Locks and atomic file replacement: withResourceLock and the chat locks are taken as mutual exclusion, atomicWriteJSON as one atomic effect.
- Chat: the upgrade of version 1 and 2 chats, backups, notes, idle timers, the automatic opening of the Workspace chat, and the HTTP checks before the chat is loaded are not modelled; that legacy chats have different ids follows from the check when a chat is loaded.
- ChatOutbox.ChatService.AcceptMail: stands for the mailbox, of which only idempotence by id and the refusal of other content are modelled, because the mailbox store itself is not part of this model.
- Completion record: the idle clock fields and the notification itself are not modelled, only when it is sent.
- CompletionReplay.RunFollowsTheLog: does not cover the pending and final-reply flags, because the first is set by hand in between and the second depends on the cut (SplitReplyIff).
- EventLog: the client's own validation of a frame is a failed answer; an answer that never comes is a failure.
- ArchivedReconcile: the projections may set every field but the stopped observation to anything, the fields of no concern here are one value, and the retired store record is a manifest of these, written once.
- TurnOrdinals.Runtime.Poll: does not model the completion baseline, activity times and the stall watchdog of the same projection, because they do not touch the turn count.
- TurnOrdinals.ClockStartsOnce: the later replacement of a start time by AgentHub's own is not modelled, because it needs a separate request.
- TurnOrdinals.Runtime.Apply: does not model resume counters, receipts and activity times, for the same reason.
- SessionCreation.AgentHub.FindOrCreate: queries are truthful when they are answered, and calls for one resource do not overlap.
- ManagedBlock: reading and writing the file around the edit.
- Template: front matter parsing is a count of its errors, issues carry no line numbers and come as a set, because the code sorts them by path.
- FileTree: pointers into slices are indices into one sequence, so aliasing is not modelled; paths are sequences of names, and sizes and modification times are dropped.
- HTTP handlers, event streaming, the AgentHub client transport, command line, desktop supervisor, updates, web interface and Git worktrees: I/O plumbing or independent checks without a lasting invariant.
