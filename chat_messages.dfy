/**
 * The entities of the chat view model and the pure parts of its reconciliation: resolving a change
 * batch against the store, applying resolved changes to the message log, the visible projection,
 * and the difference-and-sort of a bulk load.
 */
module ChatMessages {
  import opened Wrappers
  import opened Sofa
  import opened Sequences

  /** The class of a stored message: `TSIncomingMessage`, `TSOutgoingMessage` or another `TSMessage`. */
  datatype Direction = Incoming | Outgoing | OtherDirection

  /** `TSOutgoingMessageState` */
  datatype DeliveryState = AttemptingOut | Unsent | SentToService | Delivered

  /** A stored message (`TSMessage`), owned by the store; only its delivery state is ever written here. */
  class SignalMessage {
    const uniqueId: string
    /** The message date, as a timestamp. */
    const timestamp: int
    const body: Option<string>
    const hasAttachments: bool
    const direction: Direction
    const wasRead: bool
    var messageState: DeliveryState

    constructor (uniqueId: string, timestamp: int, body: Option<string>, hasAttachments: bool,
                 direction: Direction, wasRead: bool, messageState: DeliveryState)
      ensures this.uniqueId == uniqueId && this.timestamp == timestamp && this.body == body
      ensures this.hasAttachments == hasAttachments && this.direction == direction
      ensures this.wasRead == wasRead && this.messageState == messageState
    {
      this.uniqueId, this.timestamp, this.body := uniqueId, timestamp, body;
      this.hasAttachments, this.direction, this.wasRead := hasAttachments, direction, wasRead;
      this.messageState := messageState;
    }
  }

  /** What the decoder (`ChatsInteractor.handleSignalMessage`) derives from a stored message. */
  datatype Decoded = Decoded(wrapper: SofaWrapper, isDisplayable: bool)

  /**
   * The decoder, opaque here. Its second argument is `shouldProcessCommands`; the result may
   * depend on it.
   */
  type Decoder = (SignalMessage, bool) -> Decoded

  /** A message of the chat log; the display strings are filled in place by the reload operation. */
  class Message {
    const signal: SignalMessage
    const wrapper: SofaWrapper
    const isDisplayable: bool
    var fiatValueString: Option<string>
    var ethereumValueString: Option<string>

    constructor (signal: SignalMessage, decoded: Decoded)
      ensures this.signal == signal && wrapper == decoded.wrapper && isDisplayable == decoded.isDisplayable
      ensures fiatValueString == None && ethereumValueString == None
    {
      this.signal, wrapper, isDisplayable := signal, decoded.wrapper, decoded.isDisplayable;
      fiatValueString, ethereumValueString := None, None;
    }
  }

  /** A message's identity: that of its stored message. */
  function Uid(m: Message): string { m.signal.uniqueId }

  function Date(m: Message): int { m.signal.timestamp }

  function Uids(ms: seq<Message>): set<string> {
    set m | m in ms :: Uid(m)
  }

  predicate DistinctUids(ms: seq<Message>) {
    forall i, j :: 0 <= i < j < |ms| ==> Uid(ms[i]) != Uid(ms[j])
  }

  // ---------------------------------------------------------------------------------------------
  // Contents of the log. Decoding creates a new Message object each time, so the log after a
  // change is described by what its messages hold rather than by the objects themselves.

  datatype Content = Content(signal: SignalMessage, wrapper: SofaWrapper, isDisplayable: bool)

  function ContentOf(m: Message): Content {
    Content(m.signal, m.wrapper, m.isDisplayable)
  }

  function Contents(ms: seq<Message>): seq<Content> {
    seq(|ms|, i requires 0 <= i < |ms| => ContentOf(ms[i]))
  }

  /** The content of the message the decoder makes from `s`. */
  function Decode(decode: Decoder, s: SignalMessage, process: bool): Content {
    var d := decode(s, process);
    Content(s, d.wrapper, d.isDisplayable)
  }

  // ---------------------------------------------------------------------------------------------
  // The store and change batches

  /**
   * A read transaction on the thread's message view: `hasViewExtension` says whether the view
   * extension is available, `rows[i]` is the object at row i, `None` when it does not resolve to a
   * message. `version` stands for what the view mappings are updated from.
   */
  datatype Store = Store(version: nat, hasViewExtension: bool, rows: seq<Option<SignalMessage>>)

  /** `object(at:with:)`: a row outside the view resolves to nothing. */
  function ObjectAt(store: Store, row: nat): Option<SignalMessage> {
    if row < |store.rows| then store.rows[row] else None
  }

  /** A row change of the view: inserts carry `newIndexPath`, the others `indexPath`. */
  datatype RowChange = Insert(newRow: nat) | Update(row: nat) | Delete(row: nat) | Move(row: nat, newRow: nat)

  /** A change notification: whether it touches this thread's view at all, and its row changes. */
  datatype Batch = Batch(hasChangesForCurrentView: bool, changes: seq<RowChange>)

  /** Whether the guards of the change loop let `c` through. */
  predicate Resolves(store: Store, c: RowChange) {
    && store.hasViewExtension
    && match c
       case Insert(i) => ObjectAt(store, i).Some?
       case Update(i) => ObjectAt(store, i).Some?
       case _ => true
  }

  datatype Resolved = ResolvedInsert(signal: SignalMessage) | ResolvedUpdate(row: nat, signal: SignalMessage)

  /** The steps handed to the main queue, and whether a `guard ... return` ended the loop early. */
  datatype Resolution = Resolution(steps: seq<Resolved>, aborted: bool)

  /**
   * The loop over `rowChanges` in the read block: inserts and updates resolve their row, other
   * kinds of change are skipped, and the first change a guard rejects ends the whole loop.
   */
  function ResolveChanges(store: Store, changes: seq<RowChange>): (r: Resolution)
    ensures |r.steps| <= |changes|
    ensures r.aborted <==> exists k :: 0 <= k < |changes| && !Resolves(store, changes[k])
    ensures forall k :: 0 <= k < |r.steps| ==> Some(r.steps[k].signal) in store.rows
  {
    if changes == [] then Resolution([], false)
    else if !Resolves(store, changes[0]) then Resolution([], true)
    else
      var rest := ResolveChanges(store, changes[1..]);
      assert forall k :: 0 <= k < |changes| - 1 ==> changes[1..][k] == changes[k + 1];
      match changes[0]
      case Insert(i) => Resolution([ResolvedInsert(ObjectAt(store, i).value)] + rest.steps, rest.aborted)
      case Update(i) => Resolution([ResolvedUpdate(i, ObjectAt(store, i).value)] + rest.steps, rest.aborted)
      case _ => rest
  }

  /** A change that does not resolve discards itself and every change after it in the batch. */
  lemma {:induction false} UnresolvedDropsRest(store: Store, before: seq<RowChange>, c: RowChange, after: seq<RowChange>)
    requires !Resolves(store, c)
    ensures ResolveChanges(store, before + [c] + after) == ResolveChanges(store, before).(aborted := true)
  {
    if before == [] {
      assert before + [c] + after == [c] + after;
    } else {
      assert (before + [c] + after)[1..] == before[1..] + [c] + after;
      UnresolvedDropsRest(store, before[1..], c, after);
    }
  }

  // ---------------------------------------------------------------------------------------------
  // Applying resolved changes on the main queue

  /** What the view model publishes, and the external side effects it triggers, in order. */
  datatype Event =
    | DidReload
    | DidReceiveLastMessage
    | KeyboardVisibilityUpdate(sofaMessage: SofaWrapper)
    | PlayedSound(messageId: string)
    | MarkedAsRead(messageId: string)

  /** The log, the events so far, and whether `message(at:)` was asked for a row beyond the log. */
  datatype Applied = Applied(log: seq<Content>, events: seq<Event>, trapped: bool)

  /** The side effects of the main block of an insert, for the decoded message `c`. */
  function InsertEvents(c: Content): (ev: seq<Event>)
    ensures KeyboardVisibilityUpdate(c.wrapper) in ev <==> c.wrapper.SofaMessage?
    ensures forall e :: e in ev && e.KeyboardVisibilityUpdate? ==> e == KeyboardVisibilityUpdate(c.wrapper)
    ensures PlayedSound(c.signal.uniqueId) in ev
  {
    (if c.wrapper.SofaMessage? then [KeyboardVisibilityUpdate(c.wrapper)] else [])
    + [PlayedSound(c.signal.uniqueId)]
    + (if c.signal.direction == Incoming && !c.signal.wasRead then [MarkedAsRead(c.signal.uniqueId)] else [])
  }

  /**
   * One main block: an insert appends the message decoded with `shouldProcessCommands = true`; an
   * update replaces the message at its row by the one decoded with `false`.
   */
  function Step(decode: Decoder, log: seq<Content>, step: Resolved): Applied {
    match step
    case ResolvedInsert(s) =>
      var c := Decode(decode, s, true);
      Applied(log + [c], InsertEvents(c), false)
    case ResolvedUpdate(row, s) =>
      if row < |log| then Applied(log[row := Decode(decode, s, false)], [], false)
      else Applied(log, [], true)
  }

  /** The main blocks of a batch, run in order; a trap ends the run. */
  function ApplySteps(decode: Decoder, log: seq<Content>, steps: seq<Resolved>): Applied
    decreases |steps|
  {
    if steps == [] then Applied(log, [], false)
    else
      var a := Step(decode, log, steps[0]);
      if a.trapped then a
      else
        var rest := ApplySteps(decode, a.log, steps[1..]);
        Applied(rest.log, a.events + rest.events, rest.trapped)
  }

  /**
   * The object whose delivery state one block writes: for an update of a row in the log, the
   * message held there when it and the new one are both outgoing (lines 217-218).
   */
  function StepTarget(log: seq<Content>, step: Resolved): set<SignalMessage> {
    match step
    case ResolvedUpdate(row, s) =>
      if row < |log| && log[row].signal.direction == Outgoing && s.direction == Outgoing then {log[row].signal} else {}
    case ResolvedInsert(_) => {}
  }

  /** How many blocks of a run complete, each of them assigning the log once. */
  function Ran(decode: Decoder, log: seq<Content>, steps: seq<Resolved>): nat
    decreases |steps|
  {
    if steps == [] then 0
    else
      var a := Step(decode, log, steps[0]);
      if a.trapped then 0 else 1 + Ran(decode, a.log, steps[1..])
  }

  /** The objects whose delivery state the blocks of a run write. */
  function Targets(decode: Decoder, log: seq<Content>, steps: seq<Resolved>): set<SignalMessage>
    decreases |steps|
  {
    if steps == [] then {}
    else
      var a := Step(decode, log, steps[0]);
      if a.trapped then {} else StepTarget(log, steps[0]) + Targets(decode, a.log, steps[1..])
  }

  /** Every block completes unless one traps, and the trapping block and those after it do not. */
  lemma {:induction false} RanCountsBlocks(decode: Decoder, log: seq<Content>, steps: seq<Resolved>)
    ensures Ran(decode, log, steps) <= |steps|
    ensures Ran(decode, log, steps) == |steps| <==> !ApplySteps(decode, log, steps).trapped
    decreases |steps|
  {
    if steps != [] {
      var a := Step(decode, log, steps[0]);
      if !a.trapped {
        RanCountsBlocks(decode, a.log, steps[1..]);
      }
    }
  }

  /** The blocks from position `i` on: the block at `i`, then, unless it traps, the rest. */
  lemma ApplyStepsFrom(decode: Decoder, log: seq<Content>, steps: seq<Resolved>, i: nat)
    requires i < |steps|
    ensures var a := Step(decode, log, steps[i]);
            var rest := ApplySteps(decode, a.log, steps[i + 1..]);
            ApplySteps(decode, log, steps[i..]) == if a.trapped then a else Applied(rest.log, a.events + rest.events, rest.trapped)
    ensures var a := Step(decode, log, steps[i]);
            && Ran(decode, log, steps[i..]) == (if a.trapped then 0 else 1 + Ran(decode, a.log, steps[i + 1..]))
            && Targets(decode, log, steps[i..])
               == if a.trapped then {} else StepTarget(log, steps[i]) + Targets(decode, a.log, steps[i + 1..])
  {
    assert steps[i..][0] == steps[i] && steps[i..][1..] == steps[i + 1..];
  }

  /** The run after its first `i` blocks, built from the front as the loop that runs them does. */
  function RunPrefix(decode: Decoder, log0: seq<Content>, steps: seq<Resolved>, i: nat): Applied
    requires i <= |steps|
    decreases i
  {
    if i == 0 then Applied(log0, [], false)
    else
      var p := RunPrefix(decode, log0, steps, i - 1);
      if p.trapped then p
      else
        var a := Step(decode, p.log, steps[i - 1]);
        Applied(a.log, p.events + a.events, a.trapped)
  }

  /** The objects whose delivery state the first `i` blocks write. */
  function TargetsPrefix(decode: Decoder, log0: seq<Content>, steps: seq<Resolved>, i: nat): set<SignalMessage>
    requires i <= |steps|
    decreases i
  {
    if i == 0 then {}
    else
      var p := RunPrefix(decode, log0, steps, i - 1);
      TargetsPrefix(decode, log0, steps, i - 1) + (if p.trapped then {} else StepTarget(p.log, steps[i - 1]))
  }

  /** One more block after a prefix that does not trap. */
  lemma RunPrefixNext(decode: Decoder, log0: seq<Content>, steps: seq<Resolved>, i: nat)
    requires i < |steps| && !RunPrefix(decode, log0, steps, i).trapped
    ensures var p := RunPrefix(decode, log0, steps, i);
            var a := Step(decode, p.log, steps[i]);
            && RunPrefix(decode, log0, steps, i + 1) == Applied(a.log, p.events + a.events, a.trapped)
            && TargetsPrefix(decode, log0, steps, i + 1) == TargetsPrefix(decode, log0, steps, i) + StepTarget(p.log, steps[i])
  {}

  /**
   * Running the first `i` blocks and then the rest is running them all, when the first `i` do not
   * trap: the log, the events, the blocks that complete and the objects written all agree.
   */
  lemma {:induction false} RunPrefixSplits(decode: Decoder, log0: seq<Content>, steps: seq<Resolved>, i: nat)
    requires i <= |steps| && !RunPrefix(decode, log0, steps, i).trapped
    ensures var p := RunPrefix(decode, log0, steps, i);
            var rest := ApplySteps(decode, p.log, steps[i..]);
            && ApplySteps(decode, log0, steps) == Applied(rest.log, p.events + rest.events, rest.trapped)
            && Ran(decode, log0, steps) == i + Ran(decode, p.log, steps[i..])
            && Targets(decode, log0, steps) == TargetsPrefix(decode, log0, steps, i) + Targets(decode, p.log, steps[i..])
    decreases i
  {
    if i == 0 {
      assert steps[0..] == steps;
    } else {
      var q := RunPrefix(decode, log0, steps, i - 1);
      RunPrefixSplits(decode, log0, steps, i - 1);
      ApplyStepsFrom(decode, q.log, steps, i - 1);
      var a := Step(decode, q.log, steps[i - 1]);
      var rest := ApplySteps(decode, a.log, steps[i..]);
      AppendAssociative(q.events, a.events, rest.events);
      var before, t, after := TargetsPrefix(decode, log0, steps, i - 1), StepTarget(q.log, steps[i - 1]), Targets(decode, a.log, steps[i..]);
      assert before + (t + after) == before + t + after;
    }
  }

  /** The target of the block at `i`, reached without a trap, is among the targets of the whole run. */
  lemma StepTargetWithin(decode: Decoder, log0: seq<Content>, steps: seq<Resolved>, i: nat)
    requires i < |steps| && !RunPrefix(decode, log0, steps, i).trapped
    ensures StepTarget(RunPrefix(decode, log0, steps, i).log, steps[i]) <= Targets(decode, log0, steps)
  {
    var p := RunPrefix(decode, log0, steps, i);
    RunPrefixSplits(decode, log0, steps, i);
    ApplyStepsFrom(decode, p.log, steps, i);
  }

  /** A run whose blocks all complete ends where its prefix of full length does. */
  lemma RunPrefixEnd(decode: Decoder, log0: seq<Content>, steps: seq<Resolved>)
    requires !RunPrefix(decode, log0, steps, |steps|).trapped
    ensures ApplySteps(decode, log0, steps) == RunPrefix(decode, log0, steps, |steps|)
    ensures Ran(decode, log0, steps) == |steps| && Targets(decode, log0, steps) == TargetsPrefix(decode, log0, steps, |steps|)
  {
    RunPrefixSplits(decode, log0, steps, |steps|);
    assert steps[|steps|..] == [];
    assert RunPrefix(decode, log0, steps, |steps|).events + [] == RunPrefix(decode, log0, steps, |steps|).events;
  }

  /** A run whose block at `i` traps ends there: `i` blocks completed, and only theirs were written. */
  lemma RunPrefixTraps(decode: Decoder, log0: seq<Content>, steps: seq<Resolved>, i: nat)
    requires i < |steps| && !RunPrefix(decode, log0, steps, i).trapped && RunPrefix(decode, log0, steps, i + 1).trapped
    ensures ApplySteps(decode, log0, steps) == RunPrefix(decode, log0, steps, i + 1)
    ensures Ran(decode, log0, steps) == i && Targets(decode, log0, steps) == TargetsPrefix(decode, log0, steps, i + 1)
  {
    var p := RunPrefix(decode, log0, steps, i);
    RunPrefixSplits(decode, log0, steps, i);
    ApplyStepsFrom(decode, p.log, steps, i);
  }

  function CountInserts(steps: seq<Resolved>): nat {
    if steps == [] then 0 else (if steps[0].ResolvedInsert? then 1 else 0) + CountInserts(steps[1..])
  }

  /**
   * Updates keep the length of the log, inserts add one message each, and the messages already in
   * the log are only ever replaced by updates of their own row.
   */
  lemma {:induction false} ApplyStepsShape(decode: Decoder, log: seq<Content>, steps: seq<Resolved>)
    requires !ApplySteps(decode, log, steps).trapped
    ensures var r := ApplySteps(decode, log, steps);
            && |r.log| == |log| + CountInserts(steps)
            && forall p :: 0 <= p < |log| && (forall k :: 0 <= k < |steps| ==> steps[k] != ResolvedUpdate(p, steps[k].signal))
                 ==> r.log[p] == log[p]
    decreases |steps|
  {
    if steps != [] {
      var a := Step(decode, log, steps[0]);
      ApplyStepsShape(decode, a.log, steps[1..]);
      var r := ApplySteps(decode, log, steps);
      forall p | 0 <= p < |log| && (forall k :: 0 <= k < |steps| ==> steps[k] != ResolvedUpdate(p, steps[k].signal))
        ensures r.log[p] == log[p]
      {
        assert steps[0] != ResolvedUpdate(p, steps[0].signal);
        assert a.log[p] == log[p];
        forall k | 0 <= k < |steps| - 1 ensures steps[1..][k] != ResolvedUpdate(p, steps[1..][k].signal) {
          assert steps[1..][k] == steps[k + 1];
        }
      }
    }
  }

  predicate UpdatesOnly(steps: seq<Resolved>) {
    forall k :: 0 <= k < |steps| ==> steps[k].ResolvedUpdate?
  }

  /** The content the last update of `row` in `steps` writes, if any. */
  function Written(decode: Decoder, steps: seq<Resolved>, row: nat): Option<Content> {
    if steps == [] then None
    else match Written(decode, steps[1..], row)
      case Some(c) => Some(c)
      case None =>
        if steps[0].ResolvedUpdate? && steps[0].row == row then Some(Decode(decode, steps[0].signal, false)) else None
  }

  /**
   * A batch of updates traps exactly when one names a row beyond the log; otherwise every row holds
   * what its last update decoded, or what it held before, and nothing is published.
   */
  lemma {:induction false} UpdatesPointwise(decode: Decoder, log: seq<Content>, steps: seq<Resolved>)
    requires UpdatesOnly(steps)
    ensures var r := ApplySteps(decode, log, steps);
            && (r.trapped <==> exists k :: 0 <= k < |steps| && steps[k].row >= |log|)
            && |r.log| == |log| && r.events == []
            && (!r.trapped ==> forall p :: 0 <= p < |log| ==> r.log[p] == Written(decode, steps, p).GetOr(log[p]))
    decreases |steps|
  {
    if steps != [] {
      var a := Step(decode, log, steps[0]);
      if !a.trapped {
        assert forall k :: 0 <= k < |steps| - 1 ==> steps[1..][k] == steps[k + 1];
        UpdatesPointwise(decode, a.log, steps[1..]);
      }
    }
  }

  /** Whether one of the first `n` of `steps` is an update of row `p`. */
  predicate Names(steps: seq<Resolved>, n: nat, p: nat) {
    exists k :: 0 <= k < n && k < |steps| && steps[k].ResolvedUpdate? && steps[k].row == p
  }

  /** The messages the inserts of `steps` decode, in order. */
  function InsertedContents(decode: Decoder, steps: seq<Resolved>): seq<Content> {
    if steps == [] then []
    else (if steps[0].ResolvedInsert? then [Decode(decode, steps[0].signal, true)] else []) + InsertedContents(decode, steps[1..])
  }

  /**
   * In any batch of inserts and updates that does not trap, every row holds what its last update
   * decoded, or else what it held before or what the insert that added it decoded; the inserts
   * add their rows at the end, in order.
   */
  lemma {:induction false} MixedPointwise(decode: Decoder, log: seq<Content>, steps: seq<Resolved>)
    requires !ApplySteps(decode, log, steps).trapped
    ensures var r := ApplySteps(decode, log, steps);
            && |r.log| == |log| + CountInserts(steps)
            && forall p :: 0 <= p < |log| ==> r.log[p] == Written(decode, steps, p).GetOr(log[p])
    ensures var r := ApplySteps(decode, log, steps);
            var base := log + InsertedContents(decode, steps);
            && |r.log| == |base|
            && forall p :: 0 <= p < |base| ==> r.log[p] == Written(decode, steps, p).GetOr(base[p])
    decreases |steps|
  {
    if steps != [] {
      var a := Step(decode, log, steps[0]);
      MixedPointwise(decode, a.log, steps[1..]);
    }
  }

  /** Replaying a batch of updates that did not trap changes nothing further. */
  lemma UpdatesIdempotent(decode: Decoder, log: seq<Content>, steps: seq<Resolved>)
    requires UpdatesOnly(steps)
    requires !ApplySteps(decode, log, steps).trapped
    ensures var once := ApplySteps(decode, log, steps);
            ApplySteps(decode, once.log, steps) == once
  {
    var once := ApplySteps(decode, log, steps);
    UpdatesPointwise(decode, log, steps);
    UpdatesPointwise(decode, once.log, steps);
    var twice := ApplySteps(decode, once.log, steps);
    assert !twice.trapped;
    forall p | 0 <= p < |log| ensures twice.log[p] == once.log[p] {
      assert once.log[p] == Written(decode, steps, p).GetOr(log[p]);
    }
    assert twice.log == once.log;
  }

  /** An insert is not idempotent: delivering the same insert twice appends its message twice. */
  lemma InsertReplayAppendsAgain(decode: Decoder, log: seq<Content>, s: SignalMessage)
    ensures var c := Decode(decode, s, true);
            var once := ApplySteps(decode, log, [ResolvedInsert(s)]);
            && once.log == log + [c]
            && ApplySteps(decode, once.log, [ResolvedInsert(s)]).log == log + [c, c]
  {
  }

  // ---------------------------------------------------------------------------------------------
  // The visible projection

  /** `messages.filter { $0.isDisplayable }`, in log order. */
  function Displayable(ms: seq<Message>): (r: seq<Message>)
    ensures |r| <= |ms|
    ensures forall m :: m in r ==> m in ms && m.isDisplayable
    ensures forall m :: m in ms && m.isDisplayable ==> m in r
  {
    if ms == [] then [] else (if ms[0].isDisplayable then [ms[0]] else []) + Displayable(ms[1..])
  }

  lemma {:induction false} DisplayableAppend(a: seq<Message>, b: seq<Message>)
    ensures Displayable(a + b) == Displayable(a) + Displayable(b)
  {
    if a == [] {
      assert a + b == b;
    } else {
      assert (a + b)[1..] == a[1..] + b;
      DisplayableAppend(a[1..], b);
    }
  }

  /** `visibleMessages`: the displayable messages, newest first. */
  function VisibleProjection(ms: seq<Message>): seq<Message> {
    Reverse(Displayable(ms))
  }

  /**
   * Every visible message is displayable, the displayable messages of the log are all visible, the
   * projection is no longer than the log, and read backwards it is the log's displayable messages
   * in log order.
   */
  lemma VisibleProjectionSpec(ms: seq<Message>)
    ensures var v := VisibleProjection(ms);
            && |v| <= |ms|
            && (forall i :: 0 <= i < |v| ==> v[i].isDisplayable)
            && (forall m :: m in v ==> m in ms && m.isDisplayable)
            && (forall m :: m in ms && m.isDisplayable ==> m in v)
            && Reverse(v) == Displayable(ms)
  {
    var d := Displayable(ms);
    ReverseMembers(d);
    ReverseReverse(d);
    forall i | 0 <= i < |Reverse(d)| ensures Reverse(d)[i].isDisplayable {
      assert Reverse(d)[i] in Reverse(d);
    }
  }

  /** Appending a message to the log puts it at the front of the projection when it is displayable. */
  lemma VisibleAfterAppend(ms: seq<Message>, m: Message)
    ensures VisibleProjection(ms + [m]) == (if m.isDisplayable then [m] else []) + VisibleProjection(ms)
  {
    DisplayableAppend(ms, [m]);
    assert Displayable([m]) == if m.isDisplayable then [m] else [];
    ReverseAppend(Displayable(ms), Displayable([m]));
  }

  // ---------------------------------------------------------------------------------------------
  // Bulk load: the difference against the held messages, sorted by date

  lemma UidsCons(x: Message, s: seq<Message>)
    ensures Uids([x] + s) == {Uid(x)} + Uids(s)
  {
    forall u | u in Uids([x] + s) ensures u in {Uid(x)} + Uids(s) {
      var m :| m in [x] + s && Uid(m) == u;
      if m != x { assert m in s; }
    }
    forall u | u in Uids(s) ensures u in Uids([x] + s) {
      var m :| m in s && Uid(m) == u;
      assert m in [x] + s;
    }
  }

  /**
   * The messages of `s`, first of each identity, whose identity is not in `seen`: the elements
   * of `Set(loaded).subtracting(Set(previous))` with `seen` the identities of `previous`.
   */
  function Distinct(s: seq<Message>, seen: set<string>): (r: seq<Message>)
    ensures DistinctUids(r)
    ensures Uids(r) == Uids(s) - seen
    ensures forall m :: m in r ==> m in s
  {
    if s == [] then []
    else
      UidsCons(s[0], s[1..]);
      assert [s[0]] + s[1..] == s;
      if Uid(s[0]) in seen then Distinct(s[1..], seen)
      else
        var rest := Distinct(s[1..], seen + {Uid(s[0])});
        UidsCons(s[0], rest);
        FreshIdentityFirst(s[0], rest);
        [s[0]] + rest
  }

  lemma FreshIdentityFirst(x: Message, s: seq<Message>)
    requires DistinctUids(s) && Uid(x) !in Uids(s)
    ensures DistinctUids([x] + s)
  {
    forall y | y in s ensures Uid(y) != Uid(x) {
      assert Uid(y) in Uids(s);
    }
    DistinctCons(x, s);
  }

  function NewMessages(loaded: seq<Message>, previous: seq<Message>): seq<Message> {
    Distinct(loaded, Uids(previous))
  }

  /** The order lines 288-296 evidently mean: older first; on equal dates, a message with attachments first. */
  predicate SortsBefore(a: Message, b: Message) {
    Date(a) < Date(b) || (Date(a) == Date(b) && a.signal.hasAttachments && !b.signal.hasAttachments)
  }

  /** The comparator as written: on equal dates it answers whether the first has attachments. */
  predicate SortsBeforeAsWritten(a: Message, b: Message) {
    if Date(a) == Date(b) then a.signal.hasAttachments else Date(a) < Date(b)
  }

  /**
   * The comparator as written is not a strict weak ordering, which `sorted(by:)` demands: a message
   * with attachments sorts before itself, and two attachment-bearing messages of the same date
   * each sort before the other.
   */
  lemma AsWrittenNotStrict(a: Message, b: Message)
    requires a.signal.hasAttachments && b.signal.hasAttachments && Date(a) == Date(b)
    ensures SortsBeforeAsWritten(a, a)
    ensures SortsBeforeAsWritten(a, b) && SortsBeforeAsWritten(b, a)
  {
  }

  /** The comparator as written and the corrected one agree except between two attachment-bearing messages of one date. */
  lemma AsWrittenAgreesElsewhere(a: Message, b: Message)
    requires !(a.signal.hasAttachments && b.signal.hasAttachments && Date(a) == Date(b))
    ensures SortsBeforeAsWritten(a, b) == SortsBefore(a, b)
  {
  }

  /** The corrected comparator is a strict weak ordering: irreflexive, asymmetric, transitive, and incomparability is transitive. */
  lemma SortsBeforeStrictWeak(a: Message, b: Message, c: Message)
    ensures !SortsBefore(a, a)
    ensures SortsBefore(a, b) ==> !SortsBefore(b, a)
    ensures SortsBefore(a, b) && SortsBefore(b, c) ==> SortsBefore(a, c)
    ensures !SortsBefore(a, b) && !SortsBefore(b, a) && !SortsBefore(b, c) && !SortsBefore(c, b)
            ==> !SortsBefore(a, c) && !SortsBefore(c, a)
  {
  }

  /**
   * The sort key: twice the date, plus one for a message without attachments. A message sorts
   * before another exactly when its key is smaller.
   */
  function Key(m: Message): int {
    2 * Date(m) + if m.signal.hasAttachments then 0 else 1
  }

  lemma KeyOrder(a: Message, b: Message)
    ensures SortsBefore(a, b) <==> Key(a) < Key(b)
  {
  }

  /** `a` may stand before `b` in the sorted result (`b` does not sort before `a`). */
  predicate InOrder(a: Message, b: Message) {
    Key(a) <= Key(b)
  }

  /** Ascending dates; among equal dates, no message without attachments before one with. */
  predicate Sorted(s: seq<Message>) {
    forall i, j :: 0 <= i < j < |s| ==> InOrder(s[i], s[j])
  }

  /** Sortedness in the words of the comparator: no message sorts before one placed ahead of it. */
  lemma SortedMeansNoInversion(s: seq<Message>)
    requires Sorted(s)
    ensures forall i, j :: 0 <= i < j < |s| ==> !SortsBefore(s[j], s[i])
  {
  }

  /** Inserts `m` into a sorted sequence before the first element it may precede. */
  function Insert(m: Message, s: seq<Message>): (r: seq<Message>)
    requires Sorted(s)
    ensures Sorted(r)
    ensures multiset(r) == multiset(s) + multiset{m}
  {
    if s == [] || InOrder(m, s[0]) then
      LeastFirst(m, s);
      [m] + s
    else
      var rest := Insert(m, s[1..]);
      assert s == [s[0]] + s[1..];
      BoundedInsert(s[0], m, s[1..], rest);
      SortedCons(s[0], rest);
      [s[0]] + rest
  }

  /** A message that may precede every element of a sorted sequence keeps it sorted when put in front. */
  lemma SortedCons(x: Message, s: seq<Message>)
    requires Sorted(s) && forall y :: y in s ==> InOrder(x, y)
    ensures Sorted([x] + s)
  {
    var r := [x] + s;
    forall i, j | 0 <= i < j < |r| ensures InOrder(r[i], r[j]) {
      assert r[j] == s[j - 1];
      if i == 0 {
        assert s[j - 1] in s;
      } else {
        assert r[i] == s[i - 1];
      }
    }
  }

  /** What may precede the head of a sorted sequence may precede all of it. */
  lemma LeastFirst(m: Message, s: seq<Message>)
    requires Sorted(s) && (s == [] || InOrder(m, s[0]))
    ensures Sorted([m] + s)
  {
    forall y | y in s ensures InOrder(m, y) {
      var k :| 0 <= k < |s| && s[k] == y;
    }
    SortedCons(m, s);
  }

  /** A lower bound of `m` and of every element of `s` bounds every element of a permutation of `s + [m]`. */
  lemma BoundedInsert(lo: Message, m: Message, s: seq<Message>, r: seq<Message>)
    requires InOrder(lo, m) && (forall y :: y in s ==> InOrder(lo, y))
    requires multiset(r) == multiset(s) + multiset{m}
    ensures forall x :: x in r ==> InOrder(lo, x)
  {
    forall x | x in r ensures InOrder(lo, x) {
      assert x in multiset(r);
      if x != m {
        assert x in multiset(s);
      }
    }
  }

  /** Insertion sort by `SortsBefore`; stable, so equal messages keep their order. */
  function Sort(s: seq<Message>): (r: seq<Message>)
    ensures Sorted(r)
    ensures multiset(r) == multiset(s)
  {
    if s == [] then []
    else
      assert s == [s[0]] + s[1..];
      Insert(s[0], Sort(s[1..]))
  }

  /** Messages with the same multiset of objects have the same identities. */
  lemma PermutationUids(a: seq<Message>, b: seq<Message>)
    requires multiset(a) == multiset(b)
    ensures Uids(a) == Uids(b)
  {
    forall x | x in a ensures x in b { assert x in multiset(a); }
    forall x | x in b ensures x in a { assert x in multiset(b); }
  }

  lemma DistinctCons(x: Message, s: seq<Message>)
    requires DistinctUids(s) && forall y :: y in s ==> Uid(y) != Uid(x)
    ensures DistinctUids([x] + s)
  {
    var r := [x] + s;
    forall i, j | 0 <= i < j < |r| ensures Uid(r[i]) != Uid(r[j]) {
      assert r[j] == s[j - 1];
      if i > 0 { assert r[i] == s[i - 1]; }
    }
  }

  lemma DistinctTail(x: Message, s: seq<Message>)
    requires DistinctUids([x] + s)
    ensures DistinctUids(s) && forall y :: y in s ==> Uid(y) != Uid(x)
  {
    var r := [x] + s;
    forall i, j | 0 <= i < j < |s| ensures Uid(s[i]) != Uid(s[j]) {
      assert s[i] == r[i + 1] && s[j] == r[j + 1];
    }
    forall y | y in s ensures Uid(y) != Uid(x) {
      var k :| 0 <= k < |s| && s[k] == y;
      assert r[0] == x && r[k + 1] == y;
    }
  }

  /** Inserting a message of a new identity keeps identities distinct. */
  lemma {:induction false} InsertDistinct(m: Message, s: seq<Message>)
    requires Sorted(s) && DistinctUids(s) && Uid(m) !in Uids(s)
    ensures DistinctUids(Insert(m, s))
  {
    assert forall y :: y in s ==> Uid(y) in Uids(s);
    if s == [] || InOrder(m, s[0]) {
      DistinctCons(m, s);
    } else {
      assert s == [s[0]] + s[1..];
      DistinctTail(s[0], s[1..]);
      assert Uids(s[1..]) <= Uids(s);
      InsertDistinct(m, s[1..]);
      var rest := Insert(m, s[1..]);
      forall y | y in rest ensures Uid(y) != Uid(s[0]) {
        assert y in multiset(rest);
        if y != m {
          assert y in multiset(s[1..]);
        }
      }
      DistinctCons(s[0], rest);
    }
  }

  /** Sorting keeps identities distinct. */
  lemma {:induction false} SortDistinct(s: seq<Message>)
    requires DistinctUids(s)
    ensures DistinctUids(Sort(s))
  {
    if s != [] {
      var rest := Sort(s[1..]);
      assert s == [s[0]] + s[1..];
      DistinctTail(s[0], s[1..]);
      SortDistinct(s[1..]);
      PermutationUids(rest, s[1..]);
      assert forall y :: y in s[1..] ==> Uid(y) in Uids(s[1..]);
      InsertDistinct(s[0], rest);
    }
  }

  /**
   * The log a bulk load installs holds each loaded identity that was not already held exactly
   * once, nothing else, and is sorted.
   */
  lemma LoadedLogSpec(loaded: seq<Message>, previous: seq<Message>)
    ensures var r := Sort(NewMessages(loaded, previous));
            && Sorted(r)
            && DistinctUids(r)
            && Uids(r) == Uids(loaded) - Uids(previous)
            && (forall m :: m in r ==> m in loaded)
  {
    var d := NewMessages(loaded, previous);
    var r := Sort(d);
    SortDistinct(d);
    PermutationUids(r, d);
    forall m | m in r ensures m in d {
      assert m in multiset(r);
    }
  }
}
