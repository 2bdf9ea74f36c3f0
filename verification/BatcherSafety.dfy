/** Every run of the batcher keeps its invariant, answers every request once, and closes. */
module BatcherSafety {
  import opened Batcher

  // ----- the invariant is kept

  lemma ConservedByWorker(s: State, step: Step)
    requires Phased(s) && Conserved(s) && Enabled(s, step) && (step.Dequeue? || step.WaitReceive?)
    ensures Conserved(Apply(s, step))
  {
    var s' := Apply(s, step);
    var front := Flatten(s.calls) + Held(s.worker);
    assert s.drained == [] && front + s.drained == front;
    assert Flatten(s.calls) + Held(s'.worker) == front + [s.queue[0]];
  }

  lemma ConservedKept(s: State, step: Step)
    requires Sized(s) && Phased(s) && Conserved(s) && Enabled(s, step)
    ensures Conserved(Apply(s, step))
  {
    var front := Flatten(s.calls) + Held(s.worker) + s.drained;
    match step
    case Enqueue => assert front + (s.queue + [|s.sent|]) == front + s.queue + [|s.sent|];
    case Dequeue => ConservedByWorker(s, step);
    case WaitReceive => ConservedByWorker(s, step);
    case FnReturns(_) => assert Flatten(s.calls) + s.worker.batch + [] == Flatten(s.calls) + Held(s.worker);
    case Drain =>
      var before := Flatten(s.calls) + Held(s.worker);
      assert before + (s.drained + [s.queue[0]]) == before + s.drained + [s.queue[0]];
    case _ =>
  }

  /** The request whose reply is sent next is the first one without a reply. */
  lemma NextReply(s: State)
    requires Phased(s) && Conserved(s) && Answered(s) && s.worker.Replying? && s.worker.next < |s.worker.batch|
    ensures var w, called := s.worker, |Flatten(s.calls)|;
            && w.batch[w.next] == called - Unsent(w) < |s.sent|
            && ReplyFor(s.calls, w.batch[w.next]) == ReplyAt(w.result, |w.batch|, w.next)
  {
    var w, n := s.worker, |s.calls| - 1;
    var flat := Flatten(s.calls);
    assert flat == Flatten(s.calls[..n]) + w.batch;
    var k := |flat| - |w.batch| + w.next;
    assert flat[k] == w.batch[w.next];
    assert Numbers(|s.sent|)[k] == flat[k];
  }

  /** The request cancelled next is the first one in the channel. */
  lemma NextDrained(s: State)
    requires Conserved(s) && s.queue != []
    ensures s.queue[0] == |Flatten(s.calls)| + |Held(s.worker)| + |s.drained| < |s.sent|
  {
    var k := |Flatten(s.calls)| + |Held(s.worker)| + |s.drained|;
    assert (Flatten(s.calls) + Held(s.worker) + s.drained + s.queue)[k] == s.queue[0];
  }

  lemma AnsweredByReply(s: State)
    requires Inv(s) && Enabled(s, SendReply)
    ensures Answered(Apply(s, SendReply))
  {
    NextReply(s);
  }

  lemma AnsweredByDrain(s: State)
    requires Inv(s) && Enabled(s, Drain)
    ensures Answered(Apply(s, Drain))
  {
    NextDrained(s);
  }

  /** Nothing is sent or called by the remaining steps. */
  predicate Silent(step: Step) {
    !step.Enqueue? && !step.Receive? && !step.FnReturns? && !step.SendReply? && !step.Drain?
  }

  lemma AnsweredBySilent(s: State, step: Step)
    requires Inv(s) && Enabled(s, step) && Silent(step)
    ensures Answered(Apply(s, step))
  {
    if step.Dequeue? || step.WaitReceive? {
      NextDrained(s);
    }
  }

  lemma AnsweredKept(s: State, step: Step)
    requires Inv(s) && Enabled(s, step)
    ensures Answered(Apply(s, step))
  {
    if Silent(step) {
      AnsweredBySilent(s, step);
    } else if step.Enqueue? || step.Receive? {
    } else if step.FnReturns? {
      var c := Call(s.worker.batch, step.result);
      forall k | 0 <= k < |Flatten(s.calls)| ensures ReplyFor(s.calls + [c], k) == ReplyFor(s.calls, k) {
        assert (s.calls + [c])[..|s.calls|] == s.calls;
      }
    } else if step.SendReply? {
      AnsweredByReply(s);
    } else {
      AnsweredByDrain(s);
    }
  }

  lemma InvKept(s: State, step: Step)
    requires Inv(s) && Enabled(s, step)
    ensures Inv(Apply(s, step))
  {
    ConservedKept(s, step);
    AnsweredKept(s, step);
  }

  /** Every state of every run satisfies the invariant. */
  lemma {:induction false} RunInv(capacity: nat, states: seq<State>, i: nat)
    requires capacity > 0 && IsRun(capacity, states) && i < |states|
    ensures Inv(states[i])
    decreases i
  {
    if i > 0 {
      RunInv(capacity, states, i - 1);
      assert Follows(states[i - 1], states[i - 1 + 1]);
      var step :| Enabled(states[i - 1], step) && states[i] == Apply(states[i - 1], step);
      InvKept(states[i - 1], step);
    }
  }

  // ----- safety of every run

  /**
   * A reply is what its call says about the request's own position: the response there, if the function
   * gave one for each request of the batch; else how many it gave; or its error.
   */
  ghost predicate Says(call: Call, i: nat, r: Reply)
    requires i < |call.batch|
  {
    match call.result
    case FnError(message) => r == Error(message)
    case Responses(values) =>
      if |values| == |call.batch| then r == Response(values[i]) else r == WrongCount(|call.batch|, |values|)
  }

  ghost predicate FromCall(s: State, id: Id, r: Reply) {
    exists j, i :: 0 <= j < |s.calls| && 0 <= i < |s.calls[j].batch| && s.calls[j].batch[i] == id && Says(s.calls[j], i, r)
  }

  lemma {:induction false} ReplyForIsFromCall(calls: seq<Call>, k: nat) returns (j: nat, i: nat)
    requires k < |Flatten(calls)|
    ensures j < |calls| && i < |calls[j].batch| && calls[j].batch[i] == Flatten(calls)[k]
    ensures Says(calls[j], i, ReplyFor(calls, k))
  {
    var n := |calls| - 1;
    var before := Flatten(calls[..n]);
    if k < |before| {
      j, i := ReplyForIsFromCall(calls[..n], k);
    } else {
      j, i := n, k - |before|;
    }
  }

  /**
   * Once closing has returned, every request ever submitted has exactly one reply:
   * its own answer from the batch it was called in, or a cancellation if it was in
   * no batch.
   */
  lemma AnsweredOnceClosed(capacity: nat, states: seq<State>, n: nat, id: Id)
    requires capacity > 0 && IsRun(capacity, states) && n < |states|
    requires states[n].closer.Closed? && id < |states[n].sent|
    ensures var s := states[n];
            && |s.sent[id]| == 1
            && if id < |Flatten(s.calls)| then FromCall(s, id, s.sent[id][0]) else s.sent[id][0] == Canceled && id in s.drained
  {
    RunInv(capacity, states, n);
    var s := states[n];
    var flat := Flatten(s.calls);
    assert (flat + Held(s.worker) + s.drained + s.queue)[id] == id;
    if id < |flat| {
      var j, i := ReplyForIsFromCall(s.calls, id);
      assert flat[id] == id;
      assert FromCall(s, id, s.sent[id][0]);
    } else {
      assert s.drained[id - |flat|] == id;
    }
  }

  /** In every state no request has more than one reply, and one it has is its own or a cancellation. */
  lemma NeverAnsweredTwice(capacity: nat, states: seq<State>, n: nat, id: Id)
    requires capacity > 0 && IsRun(capacity, states) && n < |states| && id < |states[n].sent|
    ensures var s := states[n];
            |s.sent[id]| <= 1 && (s.sent[id] != [] ==> s.sent[id][0] == Canceled || FromCall(s, id, s.sent[id][0]))
  {
    RunInv(capacity, states, n);
    var s := states[n];
    var flat := Flatten(s.calls);
    if s.sent[id] != [] && id < |flat| {
      var j, i := ReplyForIsFromCall(s.calls, id);
      assert (flat + Held(s.worker) + s.drained + s.queue)[id] == id;
      assert FromCall(s, id, s.sent[id][0]);
    }
  }

  /** Batches are never empty, never too large, and partition a prefix of the requests in order of arrival. */
  lemma BatchesInOrder(capacity: nat, states: seq<State>, n: nat)
    requires capacity > 0 && IsRun(capacity, states) && n < |states|
    ensures var s := states[n];
            && Flatten(s.calls) == Numbers(|Flatten(s.calls)|) && |Flatten(s.calls)| <= |s.sent|
            && forall j :: 0 <= j < |s.calls| ==> 0 < |s.calls[j].batch| <= s.capacity
  {
    RunInv(capacity, states, n);
    var s := states[n];
    var flat := Flatten(s.calls);
    assert forall k :: 0 <= k < |flat| ==> flat[k] == Numbers(|s.sent|)[k];
  }

  /** The worker and the closer never block on a reply channel. */
  lemma RepliesNeverBlock(capacity: nat, states: seq<State>, n: nat)
    requires capacity > 0 && IsRun(capacity, states) && n < |states|
    ensures var s := states[n];
            && (s.worker.Replying? && s.worker.next < |s.worker.batch| ==> Enabled(s, SendReply))
            && (s.closer.Draining? && s.queue != [] ==> Enabled(s, Drain))
  {
    RunInv(capacity, states, n);
    var s := states[n];
    if s.worker.Replying? && s.worker.next < |s.worker.batch| {
      NextReply(s);
    }
    if s.queue != [] {
      NextDrained(s);
    }
  }

  // ----- closing returns

  predicate ByWorkerOrCloser(step: Step) {
    !step.Enqueue? && !step.Receive?
  }

  function Work(w: Worker): nat {
    match w
    case Exited => 0
    case Waiting => 1
    case Polling(batch) => 5 * |batch| + 2
    case Replying(batch, _, next) => 3 + if next <= |batch| then |batch| - next else 0
    case Calling(batch) => |batch| + 4
  }

  /** Bounds the steps that worker and closer still take once closing has begun. */
  function Remaining(s: State): nat {
    7 * |s.queue| + Work(s.worker) +
    match s.closer
    case Open => 3
    case Cancelled => 2
    case Draining => 1
    case Closed => 0
  }

  /** Every step of worker or closer brings closing nearer. */
  lemma StepsRunOut(s: State, step: Step)
    requires Inv(s) && !s.closer.Open? && Enabled(s, step)
    ensures if ByWorkerOrCloser(step) then Remaining(Apply(s, step)) < Remaining(s) else Remaining(Apply(s, step)) == Remaining(s)
  {
  }

  /** Until closing has returned, worker or closer can always take a step. */
  lemma CloseNeverStuck(capacity: nat, states: seq<State>, n: nat) returns (step: Step)
    requires capacity > 0 && IsRun(capacity, states) && n < |states|
    requires states[n].closer.Cancelled? || states[n].closer.Draining?
    ensures ByWorkerOrCloser(step) && Enabled(states[n], step)
  {
    RunInv(capacity, states, n);
    RepliesNeverBlock(capacity, states, n);
    var s := states[n];
    match s.worker
    case Polling(batch) => step := if |batch| >= s.capacity then PollFull else if s.queue == [] then PollEmpty else Dequeue;
    case Waiting => step := WaitCancelled;
    case Calling(batch) => step := FnReturns(FnError(""));
    case Replying(batch, _, next) => step := if next < |batch| then SendReply else RepliesSent;
    case Exited => step := if s.closer.Cancelled? then Join else if s.queue == [] then CloseReturns else Drain;
  }

  /** Whatever a run has done so far, once closing has begun it can be led to its return. */
  lemma {:induction false} CloseCanReturn(capacity: nat, states: seq<State>) returns (longer: seq<State>)
    requires capacity > 0 && IsRun(capacity, states) && !states[|states| - 1].closer.Open?
    ensures IsRun(capacity, longer) && states <= longer && longer[|longer| - 1].closer.Closed?
    ensures |longer| <= |states| + Remaining(states[|states| - 1])
    decreases Remaining(states[|states| - 1])
  {
    var last := states[|states| - 1];
    if last.closer.Closed? {
      longer := states;
    } else {
      var step := CloseNeverStuck(capacity, states, |states| - 1);
      RunInv(capacity, states, |states| - 1);
      StepsRunOut(last, step);
      var more := states + [Apply(last, step)];
      assert forall i :: 0 <= i < |more| - 1 ==> Follows(more[i], more[i + 1]) by {
        forall i | 0 <= i < |more| - 1 ensures Follows(more[i], more[i + 1]) {
          if i < |states| - 1 {
            assert Follows(states[i], states[i + 1]);
          }
        }
      }
      longer := CloseCanReturn(capacity, more);
    }
  }
}
