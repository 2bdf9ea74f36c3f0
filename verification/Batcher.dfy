/**
 * The request batcher as a state machine: submitters send requests over a bounded
 * channel to one worker, which collects batches and calls a function on each;
 * closing it cancels what the worker did not get to. A step is one channel
 * operation or one call of the function.
 */
module Batcher {

  /** Requests are numbered in the order in which they enter the channel. */
  type Id = nat

  /** What the batch function returns: a list of responses or an error. */
  datatype FnResult = Responses(values: seq<string>) | FnError(message: string)

  datatype Reply = Response(value: string) | Error(message: string) | WrongCount(expected: nat, got: nat) | Canceled

  /** The reply to the request at position i of a batch of n. */
  function ReplyAt(result: FnResult, n: nat, i: nat): Reply
    requires i < n
  {
    match result
    case FnError(message) => Error(message)
    case Responses(values) => if |values| == n then Response(values[i]) else WrongCount(n, |values|)
  }

  datatype Worker =
    | Polling(batch: seq<Id>)                                   // collecting without blocking
    | Waiting                                                   // blocked on the channel or cancellation
    | Calling(batch: seq<Id>)                                   // inside the batch function
    | Replying(batch: seq<Id>, result: FnResult, next: nat)     // sending the replies from position next on
    | Exited

  datatype Closer = Open | Cancelled | Draining | Closed

  datatype Call = Call(batch: seq<Id>, result: FnResult)

  datatype State = State(
    capacity: nat,
    queue: seq<Id>,              // the request channel
    worker: Worker,
    closer: Closer,
    sent: seq<seq<Reply>>,       // all replies ever sent on each request's channel
    received: seq<nat>,          // how many of them its submitter took
    calls: seq<Call>,            // the calls of the batch function that returned
    drained: seq<Id>)            // the requests cancelled by closing

  datatype Step =
    | Enqueue | Receive(id: Id)                                                        // submitters
    | Dequeue | PollEmpty | PollFull | WaitReceive | WaitCancelled                      // worker, collecting
    | FnReturns(result: FnResult) | SendReply | RepliesSent                             // worker, answering
    | Cancel | Join | Drain | CloseReturns                                              // closing

  function Init(capacity: nat): State {
    State(capacity, [], Polling([]), Open, [], [], [], [])
  }

  /** A reply channel holds one reply. */
  predicate ReplyChannelFree(s: State, id: Id) {
    id < |s.sent| == |s.received| && |s.sent[id]| <= s.received[id]
  }

  predicate Enabled(s: State, step: Step) {
    match step
    case Enqueue => s.closer.Open? && |s.queue| < s.capacity
    case Receive(id) => id < |s.sent| == |s.received| && s.received[id] < |s.sent[id]|
    case Dequeue => s.worker.Polling? && |s.worker.batch| < s.capacity && s.queue != []
    case PollEmpty => s.worker.Polling? && |s.worker.batch| < s.capacity && s.queue == []
    case PollFull => s.worker.Polling? && |s.worker.batch| >= s.capacity
    case WaitReceive => s.worker.Waiting? && s.queue != []
    case WaitCancelled => s.worker.Waiting? && !s.closer.Open?
    case FnReturns(_) => s.worker.Calling?
    case SendReply =>
      s.worker.Replying? && s.worker.next < |s.worker.batch| && ReplyChannelFree(s, s.worker.batch[s.worker.next])
    case RepliesSent => s.worker.Replying? && s.worker.next >= |s.worker.batch|
    case Cancel => s.closer.Open?
    case Join => s.closer.Cancelled? && s.worker.Exited?
    case Drain => s.closer.Draining? && s.queue != [] && ReplyChannelFree(s, s.queue[0])
    case CloseReturns => s.closer.Draining? && s.queue == []
  }

  function Send(s: State, id: Id, r: Reply): seq<seq<Reply>>
    requires id < |s.sent|
  {
    s.sent[id := s.sent[id] + [r]]
  }

  function Apply(s: State, step: Step): State
    requires Enabled(s, step)
  {
    match step
    case Enqueue => s.(queue := s.queue + [|s.sent|], sent := s.sent + [[]], received := s.received + [0])
    case Receive(id) => s.(received := s.received[id := s.received[id] + 1])
    case Dequeue => s.(queue := s.queue[1..], worker := Polling(s.worker.batch + [s.queue[0]]))
    case PollEmpty => s.(worker := if s.worker.batch == [] then Waiting else Calling(s.worker.batch))
    case PollFull => s.(worker := if s.worker.batch == [] then Exited else Calling(s.worker.batch))
    case WaitReceive => s.(queue := s.queue[1..], worker := Polling([s.queue[0]]))
    case WaitCancelled => s.(worker := Exited)
    case FnReturns(result) =>
      s.(worker := Replying(s.worker.batch, result, 0), calls := s.calls + [Call(s.worker.batch, result)])
    case SendReply =>
      var w := s.worker;
      s.(sent := Send(s, w.batch[w.next], ReplyAt(w.result, |w.batch|, w.next)), worker := w.(next := w.next + 1))
    case RepliesSent => s.(worker := Polling([]))
    case Cancel => s.(closer := Cancelled)
    case Join => s.(closer := Draining)
    case Drain =>
      s.(queue := s.queue[1..], drained := s.drained + [s.queue[0]], sent := Send(s, s.queue[0], Canceled))
    case CloseReturns => s.(closer := Closed)
  }

  /** A run: states linked by steps, from a fresh batcher on. */
  ghost predicate IsRun(capacity: nat, states: seq<State>) {
    |states| > 0 && states[0] == Init(capacity) &&
    forall i :: 0 <= i < |states| - 1 ==> Follows(states[i], states[i + 1])
  }

  ghost predicate Follows(s: State, s': State) {
    exists step :: Enabled(s, step) && s' == Apply(s, step)
  }

  // ----- the invariant

  function Numbers(n: nat): (r: seq<Id>)
    ensures |r| == n && forall i :: 0 <= i < n ==> r[i] == i
  {
    seq(n, i => i)
  }

  function Flatten(calls: seq<Call>): seq<Id> {
    if calls == [] then [] else Flatten(calls[..|calls| - 1]) + calls[|calls| - 1].batch
  }

  /** The batch the worker holds that the function has not answered yet. */
  function Held(w: Worker): seq<Id> {
    if w.Polling? || w.Calling? then w.batch else []
  }

  /** How many replies of the last call are still to be sent. */
  function Unsent(w: Worker): int {
    if w.Replying? then |w.batch| - w.next else 0
  }

  /** The reply the function's calls give to the request at position k of the flattened batches. */
  function ReplyFor(calls: seq<Call>, k: nat): Reply
    requires k < |Flatten(calls)|
  {
    var n := |calls| - 1;
    var before := |Flatten(calls[..n])|;
    if k < before then ReplyFor(calls[..n], k) else ReplyAt(calls[n].result, |calls[n].batch|, k - before)
  }

  /** Requests are in exactly one place: answered or being answered, held, cancelled, or queued, in order of arrival. */
  ghost predicate Conserved(s: State) {
    Flatten(s.calls) + Held(s.worker) + s.drained + s.queue == Numbers(|s.sent|)
  }

  /** Every request has the replies that its place asks for. */
  ghost predicate Answered(s: State) {
    var called := |Flatten(s.calls)|;
    var held := called + |Held(s.worker)|;
    && |s.received| == |s.sent| && 0 <= Unsent(s.worker) <= called
    && held + |s.drained| <= |s.sent|
    && (forall id :: 0 <= id < called - Unsent(s.worker) ==> s.sent[id] == [ReplyFor(s.calls, id)])
    && (forall id :: called - Unsent(s.worker) <= id < held ==> s.sent[id] == [])
    && (forall id :: held <= id < held + |s.drained| ==> s.sent[id] == [Canceled])
    && (forall id :: held + |s.drained| <= id < |s.sent| ==> s.sent[id] == [])
    && (forall id :: 0 <= id < |s.sent| ==> s.received[id] <= |s.sent[id]|)
  }

  ghost predicate Sized(s: State) {
    && s.capacity > 0 && |s.queue| <= s.capacity
    && |Held(s.worker)| <= s.capacity && (s.worker.Calling? ==> s.worker.batch != [])
    && (forall j :: 0 <= j < |s.calls| ==> 0 < |s.calls[j].batch| <= s.capacity)
  }

  ghost predicate Phased(s: State) {
    && (s.worker.Replying? ==> s.calls != [] && s.calls[|s.calls| - 1] == Call(s.worker.batch, s.worker.result))
    && (s.worker.Exited? ==> !s.closer.Open?)
    && (s.closer.Draining? || s.closer.Closed? ==> s.worker.Exited?)
    && (s.drained != [] ==> s.closer.Draining? || s.closer.Closed?)
    && (s.closer.Closed? ==> s.queue == [])
  }

  ghost predicate Inv(s: State) {
    Sized(s) && Phased(s) && Conserved(s) && Answered(s)
  }
}
