# Toshi chat reconciliation, modelled in Dafny

This project models two pieces of the Toshi iOS messenger.

The first is the message reconciliation of the chat view model (`ChatViewModel`). It holds one
conversation's message log (`messages`) and its visible projection (`visibleMessages`, the
displayable messages newest first). It applies the row changes that the message database
announces. A bulk load (`loadMessages`) replaces the log by the newly loaded messages, sorted
by date. Every assignment to the log cancels the queued recomputations of the projection on a
serial reload queue and queues a new one. A recomputation fills in the display strings of
payment messages, rebuilds the projection and dispatches its notifications (`didReload`,
`didReceiveLastMessage`) to the main queue.

The second is the quick-reply menu state machine of `MessagesCollectionViewController`. It has
a row of control buttons. A group button opens its sub-controls, listed in reverse order. The
same group button again closes them. A different group button closes them and opens its own.

Files:

- `wrappers.dfy`: `Option`.
- `sequences.dfy`: `Reverse` and sequence lemmas.
- `sofa.dfy`: the SOFA payloads (`SofaWrapper`, `SofaType`, `Button`).
- `selection.dfy`: the `DisplayState` decision table both controllers use.
- `chat_messages.dfy`: the entities, as classes where the source writes their fields in place:
  - `SignalMessage` stands for `TSMessage`;
  - `Message`;
  - the store read through the view mappings;
  - the change batches.

  It also holds the pure reference definitions of resolving and applying row changes, the
  visible projection, the set difference, the date order and insertion sort, and their lemmas.
- `reload_queue.dfy`: the bookkeeping of the serial reload queue, with cancel-and-replace, as a
  value with its invariant.
- `chat_view_model.dfy`: the class `ChatViewModel`. Its methods are proved against the
  reference definitions.
- `messages_collection.dfy`: the class `MessagesCollectionViewController` and the pure menu
  transition it is proved against.

Where things happen:

- Work the source sends to other queues is modelled by methods a scheduler calls in any
  interleaving:
  - `RunReloadOperation` starts the head operation of the reload queue;
  - `FinishReloadOperation` ends it;
  - `RunMainBlock` runs the oldest dispatched main-queue block.
- The blocks a change batch dispatches to the main queue run in order, right after the batch
  is read (`DatabaseDidChange`).
- Everything the view model publishes is appended to `events`, in order. So are its external
  side effects: the sound played for a message and the local read mark.

## Model

| member | source | states |
|---|---|---|
| Chat.ChatViewModel.constructor | Toshi/Controllers/Messaging/ChatViewModel.swift:35-50 | a new view model holds an empty log, an empty projection, an empty reload queue, no dispatched blocks and no events |
| Chat.ChatViewModel.DisplayStateFor | Toshi/Controllers/Messaging/ChatViewModel.swift:244-260 | the source's branches give exactly the decision table: same button hides, other button hides and shows, none with none does nothing, none with a current button hides, a button with none shows |
| Chat.ChatViewModel.MessageAt | Toshi/Controllers/Messaging/ChatViewModel.swift:126-128 | the message at a valid index is a member of the log |
| Chat.ChatViewModel.VisibleMessageAt | Toshi/Controllers/Messaging/ChatViewModel.swift:122-124 | every visible message is displayable and belongs to the log the projection was computed from |
| Chat.ChatViewModel.HandleSignalMessage | Toshi/Controllers/Messaging/ChatViewModel.swift:283 | the decoded message is a new object carrying the decoder's wrapper and displayability for the given processing flag, with no display strings yet |
| Chat.ChatViewModel.SetMessages | Toshi/Controllers/Messaging/ChatViewModel.swift:80-84 | assigning the log cancels every queued operation and queues one new one, which is then the only live operation; nothing else changes |
| Chat.ChatViewModel.FillPaymentFields | Toshi/Controllers/Messaging/ChatViewModel.swift:90-98 | after the loop every payment request and payment carries the fiat and ether strings of its amount at the exchange rate; other messages keep theirs |
| Chat.ChatViewModel.RunReloadOperation | Toshi/Controllers/Messaging/ChatViewModel.swift:85-104 | with nothing to run nothing changes; a cancelled head operation leaves the queue with no effect; a live one fills the payment strings, sets the projection to the displayable messages of the current log newest first, and dispatches its main block |
| Chat.ChatViewModel.FinishReloadOperation | Toshi/Controllers/Messaging/ChatViewModel.swift:84-112 | the running operation leaves the reload queue; cancel flags are untouched, so a finished operation can no longer be cancelled |
| Chat.ChatViewModel.RunMainBlock | Toshi/Controllers/Messaging/ChatViewModel.swift:104-109 | the oldest main block always publishes `didReload`, then `didReceiveLastMessage` exactly when its operation has not been cancelled |
| Chat.ChatViewModel.ApplyInsert | Toshi/Controllers/Messaging/ChatViewModel.swift:196-209 | the log gains the decoded message at its end, with all earlier messages kept, and the insert's side effects follow in the reference order |
| Chat.ChatViewModel.ApplyUpdate | Toshi/Controllers/Messaging/ChatViewModel.swift:215-223 | a row inside the log is replaced by the message decoded without processing, with every other row kept; when both are outgoing the old message first takes the new delivery state; a row outside the log traps |
| Chat.ChatViewModel.ApplyStep | Toshi/Controllers/Messaging/ChatViewModel.swift:192-223 | one main block changes the log, the events and the trap flag as the reference step does; a block that does not trap assigns the log once, so it submits one reload operation; an outgoing update writes the new delivery state on the stored message it replaces and no other stored message is written; the log does not shrink, and every row but the one an update names keeps the same message object |
| Chat.ChatViewModel.RunBlocks | Toshi/Controllers/Messaging/ChatViewModel.swift:189-227 | running the dispatched blocks in order leaves the log, the events and the trap flag that the reference run of those blocks gives; the reload queue has had one submission per block that completed; only the stored messages the run targets may change delivery state; the log does not shrink, and every old row that no update of the run names keeps the same message object |
| Chat.ChatViewModel.DatabaseDidChange | Toshi/Controllers/Messaging/ChatViewModel.swift:166-229 | a batch not touching the view only refreshes the mappings and leaves the log, the events, the reload queue and every delivery state alone; otherwise the log and events are the reference run of the resolved changes, the reload queue has had one submission per block that completed, only the targets of the run may change delivery state, every old row that no resolved update names keeps the same message object, and the outcome says whether a block trapped or a guard ended the change loop early |
| Chat.ChatViewModel.FetchRows | Toshi/Controllers/Messaging/ChatViewModel.swift:271-284 | the loop completes exactly when every row resolves, and then decodes row i, processing commands only for payment-request bodies |
| Chat.ChatViewModel.LoadMessages | Toshi/Controllers/Messaging/ChatViewModel.swift:266-302 | a load that meets an unresolved row leaves the log alone; a complete load sets the log to the loaded messages whose identity was not held, each once, sorted, and queues a new recomputation |
| ChatMessages.ResolveChanges | Toshi/Controllers/Messaging/ChatViewModel.swift:189-226 | the change loop is cut short exactly when some change fails a guard; each resolved change carries an object actually in the store, and there are no more of them than changes |
| ChatMessages.UnresolvedDropsRest | Toshi/Controllers/Messaging/ChatViewModel.swift:189-213 | a change that fails a guard discards itself and every later change of the batch |
| ChatMessages.InsertEvents | Toshi/Controllers/Messaging/ChatViewModel.swift:200-208 | an insert asks for a keyboard update exactly when the message is a SOFA message, and always plays a sound for it |
| ChatMessages.ApplyStepsFrom | Toshi/Controllers/Messaging/ChatViewModel.swift:189-227 | the blocks from a position on are that block followed, unless it traps, by the rest, and so are the count of completed blocks and the targets |
| ChatMessages.RanCountsBlocks | Toshi/Controllers/Messaging/ChatViewModel.swift:189-227 | no more blocks complete than were dispatched, and all of them complete exactly when the run does not trap |
| ChatMessages.RunPrefixSplits | Toshi/Controllers/Messaging/ChatViewModel.swift:189-227 | the blocks run one by one from the front, as the dispatch loop does, and then the rest give the whole run: its log, events, count of completed blocks and targets |
| ChatMessages.RunPrefixTraps | Toshi/Controllers/Messaging/ChatViewModel.swift:215-216 | when a block traps after the earlier ones completed, the run ends there: the blocks after it change nothing and do not count |
| ChatMessages.StepTargetWithin | Toshi/Controllers/Messaging/ChatViewModel.swift:215-219 | the stored message a completed block writes is among the targets of the run |
| ChatMessages.ApplyStepsShape | Toshi/Controllers/Messaging/ChatViewModel.swift:193-223 | without a trap the log grows by exactly the number of inserts, and rows no update names keep their message |
| ChatMessages.UpdatesPointwise | Toshi/Controllers/Messaging/ChatViewModel.swift:211-222 | a run of updates traps exactly when one names a row outside the log; otherwise each row holds the last update written to it, or its old message, and nothing is published |
| ChatMessages.MixedPointwise | Toshi/Controllers/Messaging/ChatViewModel.swift:193-222 | in any batch of inserts and updates that does not trap, the log is the old log followed by the messages the inserts decode, in order, except that every row an update names, old or inserted, holds the message its last update decoded without processing |
| ChatMessages.UpdatesIdempotent | Toshi/Controllers/Messaging/ChatViewModel.swift:211-222 | replaying a batch of updates leaves the log as the first application did |
| ChatMessages.InsertReplayAppendsAgain | Toshi/Controllers/Messaging/ChatViewModel.swift:193-198 | replaying an insert appends the same message a second time |
| ChatMessages.Displayable | Toshi/Controllers/Messaging/ChatViewModel.swift:100-101 | the filter keeps exactly the displayable messages of the log |
| ChatMessages.DisplayableAppend | Toshi/Controllers/Messaging/ChatViewModel.swift:100-101 | the filter distributes over concatenation |
| ChatMessages.VisibleProjectionSpec | Toshi/Controllers/Messaging/ChatViewModel.swift:100-102 | the projection holds exactly the displayable messages of the log, newest first, and is no longer than the log |
| ChatMessages.VisibleAfterAppend | Toshi/Controllers/Messaging/ChatViewModel.swift:100-102 | appending a displayable message puts it at the front of the projection, ahead of the old projection |
| ChatMessages.Distinct | Toshi/Controllers/Messaging/ChatViewModel.swift:286-288 | the set difference holds each identity of the loaded messages that was not already held exactly once, and only loaded messages |
| ChatMessages.AsWrittenNotStrict | Toshi/Controllers/Messaging/ChatViewModel.swift:288-296 | the comparator as written puts a message with attachments before itself, and two such messages of one date each before the other |
| ChatMessages.AsWrittenAgreesElsewhere | Toshi/Controllers/Messaging/ChatViewModel.swift:288-296 | the comparator as written and the intended order agree on messages of different dates and on a message without attachments |
| ChatMessages.SortsBeforeStrictWeak | Toshi/Controllers/Messaging/ChatViewModel.swift:288-296 | the intended order is irreflexive, asymmetric and transitive, and its incomparability is transitive |
| ChatMessages.KeyOrder | Toshi/Controllers/Messaging/ChatViewModel.swift:288-296 | the intended order is the order of the sort key: date first, then attachments first |
| ChatMessages.SortedMeansNoInversion | Toshi/Controllers/Messaging/ChatViewModel.swift:288-296 | in a sorted sequence no message sorts before one placed ahead of it |
| ChatMessages.Insert | Toshi/Controllers/Messaging/ChatViewModel.swift:288-296 | inserting into a sorted sequence gives a sorted permutation of it plus the message |
| ChatMessages.Sort | Toshi/Controllers/Messaging/ChatViewModel.swift:288-296 | the result is sorted and a permutation of the input |
| ChatMessages.PermutationUids | Toshi/Controllers/Messaging/ChatViewModel.swift:286-288 | permuting messages keeps their identities |
| ChatMessages.InsertDistinct | Toshi/Controllers/Messaging/ChatViewModel.swift:286-296 | inserting a message of a new identity keeps identities distinct |
| ChatMessages.SortDistinct | Toshi/Controllers/Messaging/ChatViewModel.swift:286-296 | sorting keeps identities distinct |
| ChatMessages.LoadedLogSpec | Toshi/Controllers/Messaging/ChatViewModel.swift:286-299 | the log a bulk load installs is sorted, holds each loaded identity not already held exactly once, and only loaded messages |
| ReloadQueue.EmptyValid | Toshi/Controllers/Messaging/ChatViewModel.swift:72-78 | the new serial queue satisfies the queue invariant |
| ReloadQueue.Submit | Toshi/Controllers/Messaging/ChatViewModel.swift:82-84 | submitting cancels exactly the queued operations and appends a new one with a fresh id |
| ReloadQueue.SubmitLeavesOneLive | Toshi/Controllers/Messaging/ChatViewModel.swift:82-112 | after a submission the invariant holds and the new operation is the only live one |
| ReloadQueue.LiveIsNewest | Toshi/Controllers/Messaging/ChatViewModel.swift:80-113 | at most one queued operation is live, the most recently submitted |
| ReloadQueue.Start | Toshi/Controllers/Messaging/ChatViewModel.swift:74-87 | the serial queue drops a cancelled head operation and otherwise marks the head as running; cancel flags and ids are kept |
| ReloadQueue.Finish | Toshi/Controllers/Messaging/ChatViewModel.swift:85-112 | the finished head leaves the queue and nothing runs |
| ReloadQueue.StartValid | Toshi/Controllers/Messaging/ChatViewModel.swift:74-87 | starting keeps the queue invariant |
| ReloadQueue.SubmitNLeavesOneLive | Toshi/Controllers/Messaging/ChatViewModel.swift:80-113 | after several assignments of the log in a row the invariant holds, the ids advanced by their number, and only the last operation submitted is live |
| ReloadQueue.FinishValid | Toshi/Controllers/Messaging/ChatViewModel.swift:85-112 | finishing keeps the queue invariant and the cancel flags, and shortens the queue by one |
| MessagesCollection.AfterUpdate | Token/Controllers/Messaging/MessagesCollectionViewController.swift:173-186 | no button always closes the menu; the open group button closes it; another group button opens its own sub-controls; consistent menus stay consistent |
| MessagesCollection.SelectGroupTwice | Token/Controllers/Messaging/MessagesCollectionViewController.swift:164-186 | selecting a group button that is not open opens its menu, selecting it again closes it |
| MessagesCollection.MessagesCollectionViewController.constructor | Token/Controllers/Messaging/MessagesCollectionViewController.swift:110-135 | after loading, no menu is open and there are no buttons |
| MessagesCollection.MessagesCollectionViewController.DisplayStateFor | Token/Controllers/Messaging/MessagesCollectionViewController.swift:143-159 | the source's branches give exactly the shared decision table |
| MessagesCollection.MessagesCollectionViewController.HideSubcontrolsMenu | Token/Controllers/Messaging/MessagesCollectionViewController.swift:188-201 | the sub-control list is emptied and no button is current; the buttons are untouched |
| MessagesCollection.MessagesCollectionViewController.ShowSubcontrolsMenu | Token/Controllers/Messaging/MessagesCollectionViewController.swift:203-227 | the sub-control list is the button's sub-controls reversed and the button is current |
| MessagesCollection.MessagesCollectionViewController.UpdateSubcontrols | Token/Controllers/Messaging/MessagesCollectionViewController.swift:173-186 | the menu moves as the pure transition says and stays consistent |
| MessagesCollection.MessagesCollectionViewController.DidSelectControl | Token/Controllers/Messaging/MessagesCollectionViewController.swift:164-171 | a plain button is handed on and leaves the menu alone; a group button moves the menu as the pure transition says |
| MessagesCollection.MessagesCollectionViewController.SetButtons | Token/Controllers/Messaging/MessagesCollectionViewController.swift:13-21 | new buttons close the menu and become the control items |

## Behaviour of the code worth knowing

- A bulk load assigns only the newly found messages to the log (`ChatViewModel.swift:299`).
  The messages the log already held are dropped from it, not merged with the new ones. See
  `LoadMessages` and `LoadedLogSpec`.
- An update replaces the message at its row by a newly decoded one (`ChatViewModel.swift:222`).
  The new delivery state is written only on the stored message of the replaced entry, before
  the replacement (`ChatViewModel.swift:216-219`). See `ApplyUpdate`.
- Every main block of a change batch that completes assigns the log, and so cancels the queued
  recomputations and queues a new one. A batch of several changes queues one recomputation per
  completed block, and only the last is live. See `RunBlocks` and `SubmitNLeavesOneLive`.
- The main block of a recomputation publishes `didReload` even when its operation was cancelled
  after it was dispatched. Only `didReceiveLastMessage` is guarded (`ChatViewModel.swift:104-108`).
  See `RunMainBlock`.
- A finished operation has left the queue, so a later assignment no longer cancels it
  (`FinishReloadOperation`).
- Replaying a batch is idempotent for updates only (`UpdatesIdempotent`). A replayed insert
  appends its message again (`InsertReplayAppendsAgain`).

## Findings

| source | as written | input that shows it | evidently intended | confidence | as-written member | corrected member |
|---|---|---|---|---|---|---|
| Toshi/Controllers/Messaging/ChatViewModel.swift:288-296 | on equal dates the comparator returns `message1.signalMessage.hasAttachments()`, so it holds for a message with attachments compared with itself, and both ways for two such messages of the same date; `sorted(by:)` needs a strict weak ordering | two messages with attachments and equal timestamps (or one such message compared with itself) | older first; on equal dates a message with attachments before one without, and otherwise neither before the other | not executed | ChatMessages.AsWrittenNotStrict | ChatMessages.SortsBeforeStrictWeak |

The model sorts with the corrected order (`SortsBefore`, through `Key`, `Insert` and `Sort`).
`ChatMessages.AsWrittenAgreesElsewhere` shows that the two orders differ only on the inputs
above.

## Left out

- The database (YapDatabase connections, long-lived read transactions and view mappings) is an
  input. `Store` stands for one read: whether the view extension is there, and the object at
  each row. `mappingsVersion` records what the mappings were updated from.
- Notification registration and delivery (`NotificationCenter`) are left out.
  `DatabaseDidChange` is the handler, called with the batch.
- Concurrency and timing are left out. The reload queue and the main queue are explicit state
  advanced by `RunReloadOperation`, `FinishReloadOperation` and `RunMainBlock`. The main blocks
  of a change batch are applied in order inside `DatabaseDidChange`, not interleaved with other
  main-queue work.
- The initializer's asynchronous mappings read and its call of `loadMessages` are separate
  steps: the constructor, then `LoadMessages`.
- The decoder (`interactor.handleSignalMessage`), `SofaType(sofa:)` and the Ethereum
  converters are opaque functions given to the constructor. The exchange rate is a parameter.
  Their side effects (command processing) are not modelled.
- `playSound(for:)` and `markAsReadLocally()` are recorded as events only. `wasRead` is a
  constant of the stored message.
- The `[weak self]` guards are left out: the view model is assumed to stay alive.
- `messageModels` and `MessageModel` are not part of this model (derived view state).
- Drafts (`saveDraftIfNeeded`, `reloadDraft`), `fetchAndUpdateBalance`, `contact` and the
  contacts manager are left out: none takes part in reconciliation.
- `ChatsNavigationController` is not part of this model.
- Button equality (`button == currentButton` in `displayState(for:)`, ChatViewModel.swift:246 and
  MessagesCollectionViewController.swift:145) relies on an `==` for `SofaMessage.Button` that
  the source does not define. `Sofa.Button` uses Dafny's structural equality over all four
  fields (label, value, type and sub-controls), so two buttons with the same label but
  different values count as different.
- Message identity (`Hashable` of `Message`) is not shown in the source; it is modelled as the
  stored message's `uniqueId`.
- Chat.ChatViewModel.LoadMessages: the order of messages with the same sort key is the stable
  insertion order of the loaded rows, whereas Swift's `sorted(by:)` leaves it unspecified.
- Chat.ChatViewModel.ApplyUpdate: an out-of-range row, which crashes the app in `message(at:)`,
  is modelled as a `Trapped` outcome that ends the batch.
- Layout and UIKit work in `MessagesCollectionViewController` is left out: constraints, hidden
  flags, reloads, cell transforms, the `maxWidth` measurement and the delayed height pass.
  Only the menu state (current button and sub-control items) and the control items are
  modelled.
- MessagesCollection.MessagesCollectionViewController.SetButtons: the block the `buttons`
  setter sends to the main queue runs at once, in the same step.
- `didTapControlButton` is a subclass hook: a tapped plain button is appended to
  `tappedButtons`.
- The two `DisplayState` enums, one per source file, are one datatype
  (`Selection.DisplayState`).
