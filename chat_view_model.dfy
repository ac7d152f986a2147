/**
 * The chat view model (ChatViewModel): the message log of one conversation, its visible
 * projection, the serial reload queue that recomputes the projection, and the handling of store
 * change notifications and of the bulk load. Work the source hands to other queues is modelled
 * as separate steps (`RunReloadOperation`, `FinishReloadOperation`, `RunMainBlock`) that a
 * scheduler may interleave with the others; the store, the decoder and the currency converters
 * are inputs.
 */
module Chat {
  import opened Wrappers
  import opened Sofa
  import opened Sequences
  import opened Selection
  import opened ChatMessages
  import RQ = ReloadQueue

  datatype ChangeOutcome = NoChangesForCurrentView | ChangesApplied | ChangesAborted | Trapped

  datatype LoadOutcome = Loaded | LoadAborted

  class ChatViewModel {
    /** `interactor.handleSignalMessage(_:shouldProcessCommands:)` */
    const decode: Decoder
    /** `SofaType(sofa:)` */
    const sofaType: string -> SofaType
    /** `EthereumConverter.fiatValueStringWithCode(forWei:exchangeRate:)` */
    const fiatValue: (nat, real) -> string
    /** `EthereumConverter.ethereumValueString(forWei:)` */
    const etherValue: nat -> string

    var currentButton: Option<Button>
    var messages: seq<Message>
    var visibleMessages: seq<Message>
    /** What the view mappings were last updated from. */
    var mappingsVersion: nat
    var reloadQueue: RQ.Queue
    /** The blocks reload operations have dispatched to the main queue, by operation, oldest first. */
    var mainQueue: seq<nat>
    /** Everything published to the output and every external side effect, in order. */
    var events: seq<Event>
    /** The log the visible projection was last computed from. */
    ghost var projectedFrom: seq<Message>

    ghost predicate Valid()
      reads this
    {
      && RQ.Valid(reloadQueue)
      && visibleMessages == VisibleProjection(projectedFrom)
    }

    constructor (decode: Decoder, sofaType: string -> SofaType, fiatValue: (nat, real) -> string, etherValue: nat -> string)
      ensures Valid()
      ensures this.decode == decode && this.sofaType == sofaType
      ensures this.fiatValue == fiatValue && this.etherValue == etherValue
      ensures messages == [] && visibleMessages == [] && events == [] && mainQueue == []
      ensures reloadQueue == RQ.Empty && currentButton == None
    {
      this.decode, this.sofaType, this.fiatValue, this.etherValue := decode, sofaType, fiatValue, etherValue;
      currentButton := None;
      messages, visibleMessages, projectedFrom := [], [], [];
      mappingsVersion := 0;
      reloadQueue, mainQueue, events := RQ.Empty, [], [];
      RQ.EmptyValid();
    }

    /** `displayState(for:)`, written with the source's own branches. */
    function DisplayStateFor(button: Option<Button>): (d: DisplayState)
      reads this
      ensures d == DisplayStateTable(button, currentButton)
    {
      if button.Some? && currentButton.Some? then
        if button.value == currentButton.value then Hide else HideAndShow
      else if button.None? && currentButton.None? then DoNothing
      else if button.None? && currentButton.Some? then Hide
      else Show
    }

    /** `message(at:)`; an index outside the log traps in the source. */
    function MessageAt(index: nat): (m: Message)
      reads this
      requires index < |messages|
      ensures m in messages && Uid(m) in Uids(messages)
    {
      messages[index]
    }

    /** `visibleMessage(at:)`: always a displayable message of the log the projection was computed from. */
    function VisibleMessageAt(index: nat): (m: Message)
      reads this
      requires Valid() && index < |visibleMessages|
      ensures m.isDisplayable && m in projectedFrom
    {
      VisibleProjectionSpec(projectedFrom);
      visibleMessages[index]
    }

    /** Lines 278-281: only a payment request body is decoded with `shouldProcessCommands`. */
    predicate ShouldProcess(s: SignalMessage) {
      sofaType(s.body.GetOr("")) == PaymentRequestType
    }

    method HandleSignalMessage(s: SignalMessage, shouldProcessCommands: bool) returns (m: Message)
      ensures fresh(m) && ContentOf(m) == Decode(decode, s, shouldProcessCommands)
      ensures m.fiatValueString == None && m.ethereumValueString == None
    {
      m := new Message(s, decode(s, shouldProcessCommands));
    }

    /**
     * Assigning `messages`: the new log replaces the old one, every queued reload operation is
     * cancelled and one new operation is queued.
     */
    method SetMessages(ms: seq<Message>)
      requires Valid()
      modifies this`messages, this`reloadQueue
      ensures Valid()
      ensures messages == ms && reloadQueue == RQ.Submit(old(reloadQueue))
      ensures RQ.Live(reloadQueue) == {old(reloadQueue).nextId}
      ensures visibleMessages == old(visibleMessages) && projectedFrom == old(projectedFrom)
      ensures mainQueue == old(mainQueue) && events == old(events)
      ensures mappingsVersion == old(mappingsVersion) && currentButton == old(currentButton)
    {
      RQ.SubmitLeavesOneLive(reloadQueue);
      messages := ms;
      reloadQueue := RQ.Submit(reloadQueue);
    }

    /** The display strings of a payment-shaped message are those of its amount at `rate`. */
    predicate PaymentFieldsFilled(m: Message, rate: real)
      reads m
    {
      IsPayment(m.wrapper) ==>
        && m.fiatValueString == Some(fiatValue(PaymentValue(m.wrapper), rate))
        && m.ethereumValueString == Some(etherValue(PaymentValue(m.wrapper)))
    }

    /** Lines 90-98: written in place on every payment request and payment of the log, and on nothing else. */
    method FillPaymentFields(rate: real)
      modifies set m | m in messages
      ensures forall m :: m in messages ==> PaymentFieldsFilled(m, rate)
      ensures forall m :: m in messages && !IsPayment(m.wrapper) ==>
                m.fiatValueString == old(m.fiatValueString) && m.ethereumValueString == old(m.ethereumValueString)
    {
      for i := 0 to |messages|
        invariant forall m :: m in messages[..i] ==> PaymentFieldsFilled(m, rate)
        invariant forall m :: m in messages && !IsPayment(m.wrapper) ==>
                    m.fiatValueString == old(m.fiatValueString) && m.ethereumValueString == old(m.ethereumValueString)
      {
        var message := messages[i];
        assert messages[..i + 1] == messages[..i] + [message];
        match message.wrapper
        case SofaPaymentRequest(value) =>
          message.fiatValueString := Some(fiatValue(value, rate));
          message.ethereumValueString := Some(etherValue(value));
        case SofaPayment(value) =>
          message.fiatValueString := Some(fiatValue(value, rate));
          message.ethereumValueString := Some(etherValue(value));
        case _ =>
      }
      assert messages[..|messages|] == messages;
    }

    /**
     * The reload queue's worker takes its head operation, if there is one and nothing runs. A
     * cancelled operation does nothing at all. Otherwise it fills the payment strings, makes the
     * visible projection of the current log, and dispatches its main block.
     */
    method RunReloadOperation(exchangeRate: real)
      requires Valid()
      modifies this, set m | m in messages
      ensures Valid()
      ensures messages == old(messages) && events == old(events)
      ensures mappingsVersion == old(mappingsVersion) && currentButton == old(currentButton)
      ensures old(reloadQueue.pending) == [] || old(reloadQueue.headRunning) ==>
                && reloadQueue == old(reloadQueue) && mainQueue == old(mainQueue)
                && visibleMessages == old(visibleMessages) && unchanged(set m | m in messages)
      ensures old(reloadQueue.pending) != [] && !old(reloadQueue.headRunning) ==>
                reloadQueue == RQ.Start(old(reloadQueue))
      ensures old(reloadQueue.pending) != [] && !old(reloadQueue.headRunning) && old(reloadQueue.pending[0]) in reloadQueue.cancelled ==>
                && mainQueue == old(mainQueue) && visibleMessages == old(visibleMessages)
                && unchanged(set m | m in messages)
      ensures old(reloadQueue.pending) != [] && !old(reloadQueue.headRunning) && old(reloadQueue.pending[0]) !in reloadQueue.cancelled ==>
                && mainQueue == old(mainQueue) + [old(reloadQueue.pending[0])]
                && visibleMessages == VisibleProjection(messages)
                && (forall m :: m in messages ==> PaymentFieldsFilled(m, exchangeRate))
                && (forall m :: m in messages && !IsPayment(m.wrapper) ==>
                      m.fiatValueString == old(m.fiatValueString) && m.ethereumValueString == old(m.ethereumValueString))
    {
      if reloadQueue.pending == [] || reloadQueue.headRunning {
        return;
      }
      var operation := reloadQueue.pending[0];
      RQ.StartValid(reloadQueue);
      if operation in reloadQueue.cancelled {
        reloadQueue := RQ.Start(reloadQueue);
        return;
      }
      FillPaymentFields(exchangeRate);
      visibleMessages := VisibleProjection(messages);
      projectedFrom := messages;
      mainQueue := mainQueue + [operation];
      reloadQueue := RQ.Start(reloadQueue);
    }

    /** The running reload operation finishes and leaves the queue; its cancel flag stays as it is. */
    method FinishReloadOperation()
      requires Valid()
      modifies this
      ensures Valid()
      ensures reloadQueue == if old(reloadQueue.headRunning) then RQ.Finish(old(reloadQueue)) else old(reloadQueue)
      ensures reloadQueue.cancelled == old(reloadQueue.cancelled)
      ensures messages == old(messages) && visibleMessages == old(visibleMessages) && events == old(events)
      ensures mainQueue == old(mainQueue) && mappingsVersion == old(mappingsVersion) && currentButton == old(currentButton)
    {
      if reloadQueue.headRunning {
        RQ.FinishValid(reloadQueue);
        reloadQueue := RQ.Finish(reloadQueue);
      }
    }

    /**
     * The main queue runs the oldest dispatched block: `didReload` always, then
     * `didReceiveLastMessage` only if its operation has not been cancelled meanwhile.
     */
    method RunMainBlock()
      requires Valid()
      modifies this
      ensures Valid()
      ensures old(mainQueue) == [] ==> mainQueue == [] && events == old(events)
      ensures old(mainQueue) != [] ==>
                && mainQueue == old(mainQueue[1..])
                && events == old(events) + [DidReload]
                   + (if old(mainQueue[0]) in reloadQueue.cancelled then [] else [DidReceiveLastMessage])
      ensures messages == old(messages) && visibleMessages == old(visibleMessages) && reloadQueue == old(reloadQueue)
      ensures mappingsVersion == old(mappingsVersion) && currentButton == old(currentButton)
    {
      if mainQueue == [] {
        return;
      }
      var operation := mainQueue[0];
      mainQueue := mainQueue[1..];
      events := events + [DidReload];
      if operation !in reloadQueue.cancelled {
        events := events + [DidReceiveLastMessage];
      }
    }

    /**
     * The main block of an insert: the message decoded with `shouldProcessCommands = true` is
     * appended, then the keyboard update (for a SofaMessage), the sound and the read mark follow.
     */
    method ApplyInsert(s: SignalMessage)
      requires Valid()
      modifies this`messages, this`reloadQueue, this`events
      ensures Valid()
      ensures var a := Step(decode, Contents(old(messages)), ResolvedInsert(s));
              Contents(messages) == a.log && events == old(events) + a.events
      ensures |messages| == |old(messages)| + 1 && messages[..|old(messages)|] == old(messages)
      ensures fresh(messages[|old(messages)|]) && messages[|old(messages)|].signal == s
      ensures reloadQueue == RQ.Submit(old(reloadQueue))
      ensures visibleMessages == old(visibleMessages) && projectedFrom == old(projectedFrom) && mainQueue == old(mainQueue)
      ensures mappingsVersion == old(mappingsVersion) && currentButton == old(currentButton)
    {
      var result := HandleSignalMessage(s, true);
      ghost var before := messages;
      SetMessages(messages + [result]);
      assert Contents(messages) == Contents(before) + [ContentOf(result)];
      assert messages[..|before|] == before;
      if result.wrapper.SofaMessage? {
        events := events + [KeyboardVisibilityUpdate(result.wrapper)];
      }
      events := events + [PlayedSound(Uid(result))];
      if s.direction == Incoming && !s.wasRead {
        events := events + [MarkedAsRead(s.uniqueId)];
      }
      ghost var keyboard := if result.wrapper.SofaMessage? then [KeyboardVisibilityUpdate(result.wrapper)] else [];
      ghost var read := if s.direction == Incoming && !s.wasRead then [MarkedAsRead(s.uniqueId)] else [];
      AppendAssociative(old(events), keyboard, [PlayedSound(Uid(result))]);
      AppendAssociative(old(events), keyboard + [PlayedSound(Uid(result))], read);
    }

    /**
     * The main block of an update. When the current and the new message are both outgoing, the
     * current one first takes the new delivery state; then the message decoded with
     * `shouldProcessCommands = false` replaces it. A row beyond the log traps.
     */
    method ApplyUpdate(row: nat, s: SignalMessage) returns (trapped: bool)
      requires Valid()
      modifies this`messages, this`reloadQueue
      modifies if row < |messages| && messages[row].signal.direction == Outgoing && s.direction == Outgoing
               then {messages[row].signal} else {}
      ensures Valid()
      ensures var a := Step(decode, Contents(old(messages)), ResolvedUpdate(row, s));
              trapped == a.trapped && Contents(messages) == a.log && events == old(events)
      ensures trapped <==> row >= |old(messages)|
      ensures trapped ==> messages == old(messages) && reloadQueue == old(reloadQueue)
      ensures !trapped ==>
                && |messages| == |old(messages)|
                && (forall k :: 0 <= k < |messages| && k != row ==> messages[k] == old(messages[k]))
                && fresh(messages[row]) && messages[row].signal == s
                && reloadQueue == RQ.Submit(old(reloadQueue))
      ensures !trapped && old(messages[row]).signal.direction == Outgoing && s.direction == Outgoing ==>
                old(messages[row]).signal.messageState == old(s.messageState)
      ensures !trapped && !(old(messages[row]).signal.direction == Outgoing && s.direction == Outgoing) ==>
                unchanged(old(messages[row]).signal)
      ensures visibleMessages == old(visibleMessages) && projectedFrom == old(projectedFrom) && mainQueue == old(mainQueue)
      ensures mappingsVersion == old(mappingsVersion) && currentButton == old(currentButton)
    {
      if row >= |messages| {
        return true;
      }
      var currentMessage := MessageAt(row);
      if currentMessage.signal.direction == Outgoing && s.direction == Outgoing {
        currentMessage.signal.messageState := s.messageState;
      }
      var updatedMessage := HandleSignalMessage(s, false);
      ghost var before := messages;
      SetMessages(messages[row := updatedMessage]);
      assert Contents(messages) == Contents(before)[row := ContentOf(updatedMessage)];
      trapped := false;
    }

    /** The main block of one resolved change. */
    method ApplyStep(step: Resolved) returns (trapped: bool)
      requires Valid()
      modifies this`messages, this`reloadQueue, this`events, StepTarget(Contents(messages), step)
      ensures Valid()
      ensures var a := Step(decode, Contents(old(messages)), step);
              trapped == a.trapped && Contents(messages) == a.log && events == old(events) + a.events
      ensures forall m :: m in messages ==> m in old(messages) || m.signal == step.signal
      ensures |messages| >= |old(messages)|
      ensures forall p :: 0 <= p < |old(messages)| && !(step.ResolvedUpdate? && step.row == p) ==>
                messages[p] == old(messages[p])
      ensures reloadQueue == if trapped then old(reloadQueue) else RQ.Submit(old(reloadQueue))
      ensures step.ResolvedUpdate? && step.row < |old(messages)| ==>
                var target := old(messages[step.row]).signal;
                if target in StepTarget(Contents(old(messages)), step) then target.messageState == old(step.signal.messageState)
                else target.messageState == old(target.messageState)
      ensures visibleMessages == old(visibleMessages) && projectedFrom == old(projectedFrom) && mainQueue == old(mainQueue)
      ensures mappingsVersion == old(mappingsVersion) && currentButton == old(currentButton)
    {
      match step
      case ResolvedInsert(s) =>
        ApplyInsert(s);
        trapped := false;
        assert messages == old(messages) + [messages[|old(messages)|]];
      case ResolvedUpdate(row, s) =>
        trapped := ApplyUpdate(row, s);
        if !trapped {
          forall m | m in messages
            ensures m in old(messages) || m.signal == step.signal
          {
            var k :| 0 <= k < |messages| && messages[k] == m;
            if k != row {
              assert m == old(messages[k]);
            }
          }
        }
    }

    /** The log is no shorter than `ms0`, and every row of `ms0` that no update among `steps` names holds the same object. */
    ghost predicate KeepsRows(ms0: seq<Message>, steps: seq<Resolved>, n: nat)
      reads this
    {
      && |messages| >= |ms0|
      && forall p :: 0 <= p < |ms0| && !Names(steps, n, p) ==> messages[p] == ms0[p]
    }

    /**
     * The state after running `steps` from the log `ms0`, whose contents are `log0`, with the
     * events `events0` and the reload queue `queue0` from before the run.
     */
    ghost predicate RanFrom(steps: seq<Resolved>, log0: seq<Content>, events0: seq<Event>, queue0: RQ.Queue,
                            ms0: seq<Message>, trapped: bool)
      reads this
    {
      var a := ApplySteps(decode, log0, steps);
      && trapped == a.trapped && Contents(messages) == a.log && events == events0 + a.events
      && reloadQueue == RQ.SubmitN(queue0, Ran(decode, log0, steps))
      && KeepsRows(ms0, steps, |steps|)
    }

    /**
     * The state after the first `i` blocks of `steps` completed without a trap, from the same
     * starting point as in `RanFrom`.
     */
    ghost predicate RanTo(steps: seq<Resolved>, i: nat, log0: seq<Content>, events0: seq<Event>, queue0: RQ.Queue,
                          ms0: seq<Message>)
      reads this
    {
      && i <= |steps|
      && var p := RunPrefix(decode, log0, steps, i);
         && !p.trapped && Contents(messages) == p.log && events == events0 + p.events
         && reloadQueue == RQ.SubmitN(queue0, i)
         && KeepsRows(ms0, steps, i)
    }

    /** A run whose every block completed ends in the state `RanFrom` describes. */
    ghost method RunEnds(steps: seq<Resolved>, log0: seq<Content>, events0: seq<Event>, queue0: RQ.Queue, ms0: seq<Message>)
      requires RanTo(steps, |steps|, log0, events0, queue0, ms0)
      ensures RanFrom(steps, log0, events0, queue0, ms0, false)
    {
      RunPrefixEnd(decode, log0, steps);
    }

    /**
     * The main blocks of a sequence of resolved changes, run in order until one traps. The only
     * stored messages whose delivery state they may write are the targets of the run.
     */
    method RunBlocks(steps: seq<Resolved>) returns (trapped: bool)
      requires Valid()
      modifies this`messages, this`reloadQueue, this`events, Targets(decode, Contents(messages), steps)
      ensures Valid()
      ensures var a := ApplySteps(decode, Contents(old(messages)), steps);
              trapped == a.trapped && Contents(messages) == a.log && events == old(events) + a.events
      ensures reloadQueue == RQ.SubmitN(old(reloadQueue), Ran(decode, Contents(old(messages)), steps))
      ensures forall m :: m in old(messages) && m.signal !in Targets(decode, Contents(old(messages)), steps) ==>
                m.signal.messageState == old(m.signal.messageState)
      ensures |messages| >= |old(messages)|
      ensures forall p :: 0 <= p < |old(messages)| && !Names(steps, |steps|, p) ==> messages[p] == old(messages[p])
      ensures visibleMessages == old(visibleMessages) && projectedFrom == old(projectedFrom) && mainQueue == old(mainQueue)
      ensures mappingsVersion == old(mappingsVersion) && currentButton == old(currentButton)
    {
      ghost var log0, events0, queue0, ms0 := Contents(messages), events, reloadQueue, messages;
      var i := 0;
      trapped := false;
      while i < |steps|
        invariant 0 <= i <= |steps| && !trapped && Valid()
        invariant RanTo(steps, i, log0, events0, queue0, ms0)
      {
        trapped := RunBlockAt(steps, i, log0, events0, queue0, ms0);
        if trapped {
          break;
        }
        i := i + 1;
      }
      if !trapped {
        RunEnds(steps, log0, events0, queue0, ms0);
      }
    }

    /**
     * The block at position `i` of a run from `log0` whose first `i` blocks completed: one turn of
     * the loop of `RunBlocks`, stated against the run so far. `ms0`, `events0` and `queue0` are the
     * log, the events and the reload queue from before the run.
     */
    method RunBlockAt(steps: seq<Resolved>, i: nat, ghost log0: seq<Content>, ghost events0: seq<Event>, ghost queue0: RQ.Queue,
                      ghost ms0: seq<Message>)
      returns (trapped: bool)
      requires i < |steps| && Valid()
      requires RanTo(steps, i, log0, events0, queue0, ms0)
      modifies this`messages, this`reloadQueue, this`events, Targets(decode, log0, steps)
      ensures Valid()
      ensures trapped ==> RanFrom(steps, log0, events0, queue0, ms0, true)
      ensures !trapped ==> RanTo(steps, i + 1, log0, events0, queue0, ms0)
      ensures visibleMessages == old(visibleMessages) && projectedFrom == old(projectedFrom) && mainQueue == old(mainQueue)
      ensures mappingsVersion == old(mappingsVersion) && currentButton == old(currentButton)
    {
      var step := steps[i];
      ghost var p := RunPrefix(decode, log0, steps, i);
      ghost var a := Step(decode, p.log, step);
      RunPrefixNext(decode, log0, steps, i);
      RQ.SubmitNNext(queue0, i);
      StepTargetWithin(decode, log0, steps, i);
      trapped := ApplyStep(step);
      AppendAssociative(events0, p.events, a.events);
      forall q | 0 <= q < |ms0| && !Names(steps, i + 1, q)
        ensures messages[q] == ms0[q]
      {
        assert !Names(steps, i, q);
      }
      if trapped {
        RunPrefixTraps(decode, log0, steps, i);
      }
    }

    /**
     * `yapDatabaseDidChange`. A batch that does not touch this thread's view only refreshes the
     * mappings. Otherwise the row changes are resolved against the store, stopping at the first
     * that does not resolve, and their main blocks run in order.
     */
    method DatabaseDidChange(batch: Batch, store: Store) returns (outcome: ChangeOutcome)
      requires Valid()
      modifies this
      modifies if batch.hasChangesForCurrentView then Targets(decode, Contents(messages), ResolveChanges(store, batch.changes).steps) else {}
      ensures Valid()
      ensures mappingsVersion == store.version
      ensures !batch.hasChangesForCurrentView ==>
                && outcome == NoChangesForCurrentView
                && messages == old(messages) && events == old(events) && reloadQueue == old(reloadQueue)
                && forall m :: m in old(messages) ==> m.signal.messageState == old(m.signal.messageState)
      ensures batch.hasChangesForCurrentView ==>
                var res := ResolveChanges(store, batch.changes);
                var a := ApplySteps(decode, Contents(old(messages)), res.steps);
                && Contents(messages) == a.log
                && events == old(events) + a.events
                && outcome == (if a.trapped then Trapped else if res.aborted then ChangesAborted else ChangesApplied)
      ensures batch.hasChangesForCurrentView ==>
                var res := ResolveChanges(store, batch.changes);
                var ran := Ran(decode, Contents(old(messages)), res.steps);
                && reloadQueue == RQ.SubmitN(old(reloadQueue), ran)
                && forall m :: m in old(messages) && m.signal !in Targets(decode, Contents(old(messages)), res.steps) ==>
                     m.signal.messageState == old(m.signal.messageState)
      ensures batch.hasChangesForCurrentView ==>
                var steps := ResolveChanges(store, batch.changes).steps;
                && |messages| >= |old(messages)|
                && forall p :: 0 <= p < |old(messages)| && !Names(steps, |steps|, p) ==> messages[p] == old(messages[p])
      ensures visibleMessages == old(visibleMessages) && projectedFrom == old(projectedFrom) && mainQueue == old(mainQueue)
      ensures currentButton == old(currentButton)
    {
      mappingsVersion := store.version;
      if !batch.hasChangesForCurrentView {
        return NoChangesForCurrentView;
      }
      var res := ResolveChanges(store, batch.changes);
      var trapped := RunBlocks(res.steps);
      if trapped {
        return Trapped;
      }
      outcome := if res.aborted then ChangesAborted else ChangesApplied;
    }

    /** Whether every row of the view resolves to a message (the guards of lines 275-276). */
    predicate AllRowsResolve(store: Store) {
      && (store.rows != [] ==> store.hasViewExtension)
      && forall i :: 0 <= i < |store.rows| ==> store.rows[i].Some?
    }

    /** What the bulk load decodes from a row. */
    function LoadedContent(s: SignalMessage): Content {
      Decode(decode, s, ShouldProcess(s))
    }

    /** Decodes every row of the view in order, giving up at the first guard that fails. */
    method FetchRows(store: Store) returns (complete: bool, fetched: seq<Message>)
      ensures complete <==> AllRowsResolve(store)
      ensures complete ==>
                && |fetched| == |store.rows|
                && forall i :: 0 <= i < |fetched| ==> ContentOf(fetched[i]) == LoadedContent(store.rows[i].value)
    {
      fetched := [];
      for i := 0 to |store.rows|
        invariant |fetched| == i
        invariant i > 0 ==> store.hasViewExtension
        invariant forall k :: 0 <= k < i ==> store.rows[k].Some? && ContentOf(fetched[k]) == LoadedContent(store.rows[k].value)
      {
        if !store.hasViewExtension {
          return false, [];
        }
        if store.rows[i].None? {
          return false, [];
        }
        var signalMessage := store.rows[i].value;
        var shouldProcess := false;
        if sofaType(signalMessage.body.GetOr("")) == PaymentRequestType {
          shouldProcess := true;
        }
        var message := HandleSignalMessage(signalMessage, shouldProcess);
        fetched := fetched + [message];
      }
      complete := true;
    }

    /**
     * `loadMessages`: every row is decoded; a row that does not resolve abandons the load. The log
     * is then replaced by the loaded messages not already held, sorted by date.
     */
    method LoadMessages(store: Store) returns (outcome: LoadOutcome, ghost loaded: seq<Message>)
      requires Valid()
      modifies this
      ensures Valid()
      ensures mappingsVersion == store.version
      ensures outcome == Loaded <==> AllRowsResolve(store)
      ensures outcome == LoadAborted ==> messages == old(messages) && reloadQueue == old(reloadQueue)
      ensures outcome == Loaded ==>
                && |loaded| == |store.rows|
                && (forall i :: 0 <= i < |loaded| ==> ContentOf(loaded[i]) == LoadedContent(store.rows[i].value))
                && messages == Sort(NewMessages(loaded, old(messages)))
                && Sorted(messages) && DistinctUids(messages)
                && Uids(messages) == Uids(loaded) - Uids(old(messages))
                && reloadQueue == RQ.Submit(old(reloadQueue))
      ensures visibleMessages == old(visibleMessages) && projectedFrom == old(projectedFrom)
      ensures mainQueue == old(mainQueue) && events == old(events) && currentButton == old(currentButton)
    {
      mappingsVersion := store.version;
      var complete, fetched := FetchRows(store);
      if !complete {
        return LoadAborted, [];
      }
      var newMessages := Sort(NewMessages(fetched, messages));
      LoadedLogSpec(fetched, messages);
      SetMessages(newMessages);
      outcome, loaded := Loaded, fetched;
    }
  }
}
