/**
 * The bookkeeping of the view model's "Chat-Reload-Queue", a serial operation queue (at most one
 * operation runs at a time) whose operations carry a cancel flag. Operations are named by the
 * order in which they were added; threads are not modelled, only the order of events.
 */
module ReloadQueue {

  /**
   * `pending`: the operations still in the queue, oldest first; the head is running when
   * `headRunning`. `cancelled`: every operation whose `isCancelled` has been set; an operation
   * keeps its flag after it leaves the queue. `nextId`: the name of the next operation added.
   */
  datatype Queue = Queue(pending: seq<nat>, headRunning: bool, cancelled: set<nat>, nextId: nat)

  const Empty: Queue := Queue([], false, {}, 0)

  /** The operations named in `s`. */
  function Elements(s: seq<nat>): set<nat> {
    if s == [] then {} else {s[0]} + Elements(s[1..])
  }

  lemma ElementsMembers(s: seq<nat>)
    ensures forall x :: x in Elements(s) <==> x in s
  {
  }

  /** The queued operations that are not cancelled. */
  function Live(q: Queue): set<nat> {
    set i | 0 <= i < |q.pending| && q.pending[i] !in q.cancelled :: q.pending[i]
  }

  /**
   * The last queued operation, if any, is the most recently added one; every queued operation
   * before it is cancelled; the most recently added operation is not cancelled; names are below
   * `nextId`; only a queued operation can be running.
   */
  predicate Valid(q: Queue) {
    && (q.pending != [] ==> q.pending[|q.pending| - 1] == q.nextId - 1)
    && (forall i :: 0 <= i < |q.pending| - 1 ==> q.pending[i] in q.cancelled)
    && (forall i :: 0 <= i < |q.pending| ==> q.pending[i] < q.nextId)
    && (forall id :: id in q.cancelled ==> id < q.nextId)
    && (q.nextId > 0 ==> q.nextId - 1 !in q.cancelled)
    && (q.headRunning ==> q.pending != [])
  }

  lemma EmptyValid()
    ensures Valid(Empty) && Live(Empty) == {}
  {
  }

  /**
   * The setter of `messages`: `cancelAllOperations()` and then `addOperation` of a new one.
   * Exactly the queued operations become cancelled, the running one included.
   */
  function Submit(q: Queue): (r: Queue)
    ensures r.pending == q.pending + [q.nextId] && r.nextId == q.nextId + 1
    ensures r.cancelled == q.cancelled + Elements(q.pending)
    ensures r.headRunning == q.headRunning
  {
    Queue(q.pending + [q.nextId], q.headRunning, q.cancelled + Elements(q.pending), q.nextId + 1)
  }

  /** After a submission the only operation that may still publish is the one just added. */
  lemma SubmitLeavesOneLive(q: Queue)
    requires Valid(q)
    ensures Valid(Submit(q))
    ensures Live(Submit(q)) == {q.nextId}
  {
    var r := Submit(q);
    ElementsMembers(q.pending);
    assert r.pending[|q.pending|] == q.nextId;
    assert q.nextId in Live(r);
    forall id | id in Live(r) ensures id == q.nextId {
      var i :| 0 <= i < |r.pending| && r.pending[i] == id && id !in r.cancelled;
      assert i == |q.pending|;
    }
  }

  /** An uncancelled queued operation is always the most recently added one, so there is at most one. */
  lemma LiveIsNewest(q: Queue)
    requires Valid(q)
    ensures Live(q) <= {q.nextId - 1}
    ensures |Live(q)| <= 1
  {
    forall id | id in Live(q) ensures id == q.nextId - 1 {
      var i :| 0 <= i < |q.pending| && q.pending[i] == id && id !in q.cancelled;
    }
    if Live(q) != {} {
      assert Live(q) == {q.nextId - 1};
    }
  }

  /** The worker takes the head: a cancelled head finishes without running, any other starts running. */
  function Start(q: Queue): (r: Queue)
    requires q.pending != [] && !q.headRunning
    ensures q.pending[0] in q.cancelled ==> r.pending == q.pending[1..] && !r.headRunning
    ensures q.pending[0] !in q.cancelled ==> r.pending == q.pending && r.headRunning
    ensures r.cancelled == q.cancelled && r.nextId == q.nextId
  {
    if q.pending[0] in q.cancelled then q.(pending := q.pending[1..]) else q.(headRunning := true)
  }

  /** The running operation finishes and leaves the queue. */
  function Finish(q: Queue): (r: Queue)
    requires q.headRunning && q.pending != []
    ensures r.pending == q.pending[1..] && !r.headRunning
    ensures r.cancelled == q.cancelled && r.nextId == q.nextId
  {
    q.(pending := q.pending[1..], headRunning := false)
  }

  lemma StartValid(q: Queue)
    requires Valid(q) && q.pending != [] && !q.headRunning
    ensures Valid(Start(q))
  {
  }

  lemma FinishValid(q: Queue)
    requires Valid(q) && q.headRunning
    ensures Valid(Finish(q))
    ensures Finish(q).cancelled == q.cancelled
    ensures |Finish(q).pending| == |q.pending| - 1
  {
  }

  /** `n` assignments of the log in a row. */
  function SubmitN(q: Queue, n: nat): Queue {
    if n == 0 then q else Submit(SubmitN(q, n - 1))
  }

  lemma SubmitNNext(q: Queue, n: nat)
    ensures SubmitN(q, n + 1) == Submit(SubmitN(q, n))
  {}

  /** After `n > 0` submissions the invariant holds and only the last operation submitted is live. */
  lemma {:induction false} SubmitNLeavesOneLive(q: Queue, n: nat)
    requires Valid(q)
    ensures Valid(SubmitN(q, n)) && SubmitN(q, n).nextId == q.nextId + n
    ensures n > 0 ==> Live(SubmitN(q, n)) == {q.nextId + n - 1}
  {
    if n > 0 {
      SubmitNLeavesOneLive(q, n - 1);
      SubmitLeavesOneLive(SubmitN(q, n - 1));
    }
  }
}
