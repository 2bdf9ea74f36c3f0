/**
 * The acknowledgement fan-in of the blob storage targets reader: one batch of the
 * targets input yields n targets, and each target's ack function, called any number
 * of times and concurrently, takes part in acking or nacking the batch. A step is
 * one atomic operation, one entry or exit of a once-guard, or one call of the
 * batch's own ack function.
 */
module AckFanIn {
  import opened Json

  /** One call of a target's ack function. A missing blob counts as an ack. */
  datatype Call = Call(target: nat, nack: bool)

  /** A once-guard: never entered, occupied by a call, or left. */
  datatype Once = Fresh | Running(c: nat) | Finished

  datatype PC =
    | Start
    | Nacking       // inside the nack guard
    | Marked        // the counter is set to -1, the batch not nacked yet
    | Acking        // inside the target's ack guard
    | Last          // brought the counter to zero, the batch not acked yet
    | Deleting      // batch acked, the blob may be deleted
    | Done

  datatype Event = BatchAck | BatchNack

  datatype State = State(
    calls: seq<Call>,
    pcs: seq<PC>,
    pending: int,              // the int32 counter
    nackOnce: Once,
    ackOnce: seq<Once>,        // one guard per target
    added: set<nat>,           // targets that have lowered the counter
    marked: bool,              // the counter has been set to -1
    winner: Option<nat>,       // the call that brought the counter to zero
    log: seq<Event>,           // the calls of the batch's ack function
    deleted: seq<nat>)         // the targets whose blobs were deleted

  const INT32_LIMIT: int := 0x8000_0000

  /** Adding one or taking one away on int32 wraps around. */
  function Wrap(x: int): int {
    if x < -INT32_LIMIT then x + 2 * INT32_LIMIT else if x >= INT32_LIMIT then x - 2 * INT32_LIMIT else x
  }

  /** n targets are ready, and the given calls of their ack functions are to be made. */
  predicate Ready(n: nat, calls: seq<Call>) {
    n < INT32_LIMIT && forall c :: 0 <= c < |calls| ==> calls[c].target < n
  }

  function Init(n: nat, calls: seq<Call>): State {
    State(calls, seq(|calls|, c => Start), n, Fresh, seq(n, t => Fresh), {}, false, None, [], [])
  }

  datatype Step = BeginNack(c: nat) | Mark(c: nat) | NackBatch(c: nat)
                | BeginAck(c: nat) | Add(c: nat) | AckBatch(c: nat) | FinishAck(c: nat, deleted: bool)
                | Skip(c: nat)

  predicate Shaped(s: State) {
    |s.pcs| == |s.calls| && forall c :: 0 <= c < |s.calls| ==> s.calls[c].target < |s.ackOnce|
  }

  predicate Enabled(s: State, step: Step)
    requires Shaped(s)
  {
    step.c < |s.calls| &&
    match step
    case BeginNack(c) => s.pcs[c].Start? && s.calls[c].nack && s.nackOnce.Fresh?
    case Mark(c) => s.pcs[c].Nacking?
    case NackBatch(c) => s.pcs[c].Marked?
    case BeginAck(c) => s.pcs[c].Start? && !s.calls[c].nack && s.ackOnce[s.calls[c].target].Fresh?
    case Add(c) => s.pcs[c].Acking?
    case AckBatch(c) => s.pcs[c].Last?
    case FinishAck(c, _) => s.pcs[c].Deleting?
    case Skip(c) => s.pcs[c].Start? && (if s.calls[c].nack then s.nackOnce else s.ackOnce[s.calls[c].target]).Finished?
  }

  function Apply(s: State, step: Step): State
    requires Shaped(s) && Enabled(s, step)
  {
    var c := step.c;
    var t := s.calls[c].target;
    match step
    case BeginNack(_) => s.(pcs := s.pcs[c := Nacking], nackOnce := Running(c))
    case Mark(_) => s.(pcs := s.pcs[c := Marked], pending := -1, marked := true)
    case NackBatch(_) => s.(pcs := s.pcs[c := Done], nackOnce := Finished, log := s.log + [BatchNack])
    case BeginAck(_) => s.(pcs := s.pcs[c := Acking], ackOnce := s.ackOnce[t := Running(c)])
    case Add(_) =>
      var s' := s.(pending := Wrap(s.pending - 1), added := s.added + {t});
      if s'.pending == 0 then s'.(pcs := s.pcs[c := Last], winner := Some(c))
      else s'.(pcs := s.pcs[c := Done], ackOnce := s.ackOnce[t := Finished])
    case AckBatch(_) => s.(pcs := s.pcs[c := Deleting], log := s.log + [BatchAck])
    case FinishAck(_, deleted) =>
      s.(pcs := s.pcs[c := Done], ackOnce := s.ackOnce[t := Finished], deleted := if deleted then s.deleted + [t] else s.deleted)
    case Skip(_) => s.(pcs := s.pcs[c := Done])
  }

  ghost predicate Follows(s: State, s': State) {
    Shaped(s) && exists step :: Enabled(s, step) && s' == Apply(s, step)
  }

  ghost predicate IsRun(n: nat, calls: seq<Call>, states: seq<State>) {
    |states| > 0 && states[0] == Init(n, calls) &&
    forall i :: 0 <= i < |states| - 1 ==> Follows(states[i], states[i + 1])
  }

  // ----- the invariant

  function Count(s: State, e: Event): nat {
    multiset(s.log)[e]
  }

  predicate InAckGuard(pc: PC) { pc.Acking? || pc.Last? || pc.Deleting? }
  predicate InNackGuard(pc: PC) { pc.Nacking? || pc.Marked? }

  /** A call inside a guard is the one that occupies it. */
  ghost predicate Guarded(s: State) {
    && Shaped(s)
    && (forall c :: 0 <= c < |s.calls| && InAckGuard(s.pcs[c]) ==> !s.calls[c].nack && s.ackOnce[s.calls[c].target] == Running(c))
    && (forall c :: 0 <= c < |s.calls| && InNackGuard(s.pcs[c]) ==> s.calls[c].nack && s.nackOnce == Running(c))
  }

  /** An ack call for the target has been made. */
  ghost predicate AckCalled(s: State, t: nat)
    requires Shaped(s)
  {
    exists c :: 0 <= c < |s.calls| && s.calls[c] == Call(t, false) && !s.pcs[c].Start?
  }

  /** A target lowers the counter at most once, in the first ack call that enters its guard. */
  ghost predicate AddedOnce(s: State) {
    && Shaped(s)
    && (forall t :: t in s.added ==> t < |s.ackOnce| && !s.ackOnce[t].Fresh? && AckCalled(s, t))
    && (forall c :: 0 <= c < |s.calls| && s.pcs[c].Acking? ==> s.calls[c].target !in s.added)
  }

  /** The counter holds the targets to come, until a nack takes it below zero for good. */
  ghost predicate Counter(s: State) {
    && |s.ackOnce| < INT32_LIMIT
    && (if s.marked then -1 - |s.added| <= s.pending <= -1 else s.pending == |s.ackOnce| - |s.added|)
  }

  ghost predicate NackCalled(s: State) {
    exists c :: 0 <= c < |s.calls| && s.calls[c].nack
  }

  /** The batch is nacked when the nack guard is left, after the counter was marked. */
  ghost predicate NackedOnce(s: State) {
    && Shaped(s)
    && Count(s, BatchNack) == (if s.nackOnce.Finished? then 1 else 0)
    && (s.marked || s.nackOnce.Finished? || s.nackOnce.Running? ==> NackCalled(s))
    && (s.marked ==> !s.nackOnce.Fresh?)
    && (s.nackOnce.Finished? ==> s.marked)
    && (forall c :: 0 <= c < |s.calls| && s.pcs[c].Marked? ==> s.marked)
  }

  /** The batch is acked by the one call that brought the counter to zero, all targets having lowered it. */
  ghost predicate AckedOnce(s: State) {
    && Shaped(s)
    && (forall c :: 0 <= c < |s.calls| && (s.pcs[c].Last? || s.pcs[c].Deleting?) ==> s.winner == Some(c))
    && (s.winner.None? ==> Count(s, BatchAck) == 0 && |s.deleted| == 0)
    && (s.winner.Some? ==>
          && s.winner.value < |s.calls|
          && var pc := s.pcs[s.winner.value];
             && (pc.Last? || pc.Deleting? || pc.Done?)
             && Count(s, BatchAck) == (if pc.Last? then 0 else 1)
             && |s.deleted| <= (if pc.Done? then 1 else 0)
             && (forall t :: t in s.deleted ==> t == s.calls[s.winner.value].target)
             && |s.added| == |s.ackOnce|)
  }

  ghost predicate Inv(s: State) {
    Guarded(s) && AddedOnce(s) && Counter(s) && NackedOnce(s) && AckedOnce(s)
  }

  // ----- the invariant is kept

  ghost function Targets(n: nat): (r: set<nat>)
    ensures |r| == n && forall t :: t in r <==> 0 <= t < n
  {
    if n == 0 then {} else Targets(n - 1) + {n - 1}
  }

  lemma SubsetSize<T>(a: set<T>, b: set<T>)
    requires a <= b
    ensures |a| <= |b| && (|a| == |b| ==> a == b)
  {
    assert b == a + (b - a);
    assert |b| == |a| + |b - a|;
  }

  lemma AddedSize(s: State)
    requires AddedOnce(s)
    ensures |s.added| <= |s.ackOnce| && (|s.added| == |s.ackOnce| ==> s.added == Targets(|s.ackOnce|))
  {
    assert s.added <= Targets(|s.ackOnce|);
    SubsetSize(s.added, Targets(|s.ackOnce|));
  }

  /** A call about to lower the counter finds it above the limit of int32, and not all targets counted yet. */
  lemma BeforeAdd(s: State, c: nat)
    requires Inv(s) && Enabled(s, Add(c))
    ensures |s.added| < |s.ackOnce| && s.winner.None?
    ensures Wrap(s.pending - 1) == s.pending - 1
    ensures s.calls[c].target !in s.added
  {
    AddedSize(s);
    assert s.calls[c].target in Targets(|s.ackOnce|);
  }

  lemma GuardedKept(s: State, step: Step)
    requires Guarded(s) && Enabled(s, step)
    ensures Guarded(Apply(s, step))
  {
  }

  lemma AckCallStays(s: State, step: Step, t: nat)
    requires Shaped(s) && Enabled(s, step) && AckCalled(s, t)
    ensures AckCalled(Apply(s, step), t)
  {
    var c :| 0 <= c < |s.calls| && s.calls[c] == Call(t, false) && !s.pcs[c].Start?;
    assert Apply(s, step).calls[c] == Call(t, false) && !Apply(s, step).pcs[c].Start?;
  }

  lemma AddedOnceKept(s: State, step: Step)
    requires Guarded(s) && AddedOnce(s) && Enabled(s, step)
    ensures AddedOnce(Apply(s, step))
  {
    var s' := Apply(s, step);
    assert Shaped(s');
    forall t | t in s'.added ensures t < |s'.ackOnce| && !s'.ackOnce[t].Fresh? && AckCalled(s', t) {
      if t in s.added {
        AckCallStays(s, step, t);
      } else {
        assert s'.calls[step.c] == Call(t, false) && !s'.pcs[step.c].Start?;
      }
    }
  }

  lemma CounterKept(s: State, step: Step)
    requires Inv(s) && Enabled(s, step)
    ensures Counter(Apply(s, step))
  {
    if step.Add? {
      BeforeAdd(s, step.c);
    }
  }

  lemma NackCallStays(s: State, step: Step)
    requires Shaped(s) && Enabled(s, step)
    ensures NackCalled(s) <==> NackCalled(Apply(s, step))
    ensures step.BeginNack? ==> NackCalled(s)
  {
    assert Apply(s, step).calls == s.calls;
    assert step.BeginNack? ==> s.calls[step.c].nack;
  }

  lemma NackedOnceKept(s: State, step: Step)
    requires Guarded(s) && NackedOnce(s) && Enabled(s, step)
    ensures NackedOnce(Apply(s, step))
  {
    NackCallStays(s, step);
  }

  lemma AckedOnceByAdd(s: State, c: nat)
    requires Inv(s) && Enabled(s, Add(c))
    ensures AckedOnce(Apply(s, Add(c)))
  {
    BeforeAdd(s, c);
  }

  lemma AckedOnceByWinner(s: State, step: Step)
    requires AckedOnce(s) && Enabled(s, step) && (step.AckBatch? || step.FinishAck?)
    ensures AckedOnce(Apply(s, step))
  {
  }

  lemma AckedOnceByOthers(s: State, step: Step)
    requires AckedOnce(s) && Enabled(s, step) && !step.Add? && !step.AckBatch? && !step.FinishAck?
    ensures AckedOnce(Apply(s, step))
  {
  }

  lemma AckedOnceKept(s: State, step: Step)
    requires Inv(s) && Enabled(s, step)
    ensures AckedOnce(Apply(s, step))
  {
    if step.Add? {
      AckedOnceByAdd(s, step.c);
    } else if step.AckBatch? || step.FinishAck? {
      AckedOnceByWinner(s, step);
    } else {
      AckedOnceByOthers(s, step);
    }
  }

  lemma InvKept(s: State, step: Step)
    requires Inv(s) && Enabled(s, step)
    ensures Inv(Apply(s, step))
  {
    GuardedKept(s, step);
    AddedOnceKept(s, step);
    CounterKept(s, step);
    NackedOnceKept(s, step);
    AckedOnceKept(s, step);
  }

  lemma TargetsStay(s: State, step: Step)
    requires Shaped(s) && Enabled(s, step)
    ensures Apply(s, step).calls == s.calls && |Apply(s, step).ackOnce| == |s.ackOnce|
  {
  }

  lemma FollowsKeeps(s: State, s': State)
    requires Inv(s) && Follows(s, s')
    ensures Inv(s') && s'.calls == s.calls && |s'.ackOnce| == |s.ackOnce|
  {
    var step :| Enabled(s, step) && s' == Apply(s, step);
    TargetsStay(s, step);
    InvKept(s, step);
  }

  lemma InitInv(n: nat, calls: seq<Call>)
    requires Ready(n, calls)
    ensures Inv(Init(n, calls))
  {
  }

  /** Every state of every run satisfies the invariant. */
  lemma {:induction false} RunInv(n: nat, calls: seq<Call>, states: seq<State>, i: nat)
    requires Ready(n, calls) && IsRun(n, calls, states) && i < |states|
    ensures Inv(states[i]) && states[i].calls == calls && |states[i].ackOnce| == n
    decreases i
  {
    if i == 0 {
      InitInv(n, calls);
    } else {
      RunInv(n, calls, states, i - 1);
      assert Follows(states[i - 1], states[i - 1 + 1]);
      FollowsKeeps(states[i - 1], states[i]);
    }
  }

  // ----- what every run keeps

  /** Over all interleavings and repeated calls the batch is acked at most once and nacked at most once. */
  lemma AtMostOnce(n: nat, calls: seq<Call>, states: seq<State>, i: nat)
    requires Ready(n, calls) && IsRun(n, calls, states) && i < |states|
    ensures Count(states[i], BatchAck) <= 1 && Count(states[i], BatchNack) <= 1
  {
    RunInv(n, calls, states, i);
  }

  /** The batch is acked only after an ack call for every one of its targets has been made. */
  lemma AckedAfterAll(n: nat, calls: seq<Call>, states: seq<State>, i: nat, t: nat)
    requires Ready(n, calls) && IsRun(n, calls, states) && i < |states|
    requires Count(states[i], BatchAck) > 0 && t < n
    ensures Shaped(states[i]) && AckCalled(states[i], t)
  {
    RunInv(n, calls, states, i);
    AddedSize(states[i]);
    assert t in Targets(n);
  }

  /** The int32 counter never wraps around. */
  lemma CounterNeverWraps(n: nat, calls: seq<Call>, states: seq<State>, i: nat, c: nat)
    requires Ready(n, calls) && IsRun(n, calls, states) && i < |states|
    ensures Shaped(states[i]) && (Enabled(states[i], Add(c)) ==> Wrap(states[i].pending - 1) == states[i].pending - 1)
  {
    RunInv(n, calls, states, i);
    if Enabled(states[i], Add(c)) {
      BeforeAdd(states[i], c);
    }
  }

  /** However many targets a batch has, at most one blob is deleted, that of the target acked last. */
  lemma AtMostOneDelete(n: nat, calls: seq<Call>, states: seq<State>, i: nat)
    requires Ready(n, calls) && IsRun(n, calls, states) && i < |states|
    ensures |states[i].deleted| <= Count(states[i], BatchAck) <= 1
    ensures forall t :: t in states[i].deleted ==>
              states[i].winner.Some? && states[i].winner.value < |calls| && t == calls[states[i].winner.value].target
  {
    RunInv(n, calls, states, i);
  }

  ghost predicate AllAcked(n: nat, calls: seq<Call>) {
    forall t :: 0 <= t < n ==> Call(t, false) in calls
  }

  /** Every target has an ack call and some target a nack call: the calls contradict each other. */
  ghost predicate Contradictory(n: nat, calls: seq<Call>) {
    && AllAcked(n, calls)
    && (exists t :: 0 <= t < n && Call(t, true) in calls)
  }

  lemma AckedOnlyIfAllAcked(n: nat, calls: seq<Call>, states: seq<State>, i: nat)
    requires Ready(n, calls) && IsRun(n, calls, states) && i < |states| && Count(states[i], BatchAck) > 0
    ensures AllAcked(n, calls)
  {
    RunInv(n, calls, states, i);
    var s := states[i];
    forall t | 0 <= t < n ensures Call(t, false) in calls {
      AckedAfterAll(n, calls, states, i, t);
      var c :| 0 <= c < |s.calls| && s.calls[c] == Call(t, false) && !s.pcs[c].Start?;
      assert calls[c] == Call(t, false);
    }
  }

  /** The batch is both acked and nacked only if the calls contradict each other. */
  lemma BothOnlyIfContradictory(n: nat, calls: seq<Call>, states: seq<State>, i: nat)
    requires Ready(n, calls) && IsRun(n, calls, states) && i < |states|
    requires Count(states[i], BatchAck) > 0 && Count(states[i], BatchNack) > 0
    ensures Contradictory(n, calls)
  {
    RunInv(n, calls, states, i);
    var s := states[i];
    AckedOnlyIfAllAcked(n, calls, states, i);
    var c :| 0 <= c < |s.calls| && s.calls[c].nack;
    assert calls[c] == Call(calls[c].target, true);
  }

  /** If each target resolves once, the batch is never both acked and nacked. */
  lemma NeverBoth(n: nat, calls: seq<Call>, states: seq<State>, i: nat)
    requires Ready(n, calls) && IsRun(n, calls, states) && i < |states|
    requires forall c, d :: 0 <= c < d < |calls| ==> calls[c].target != calls[d].target
    ensures Count(states[i], BatchAck) == 0 || Count(states[i], BatchNack) == 0
  {
    if Count(states[i], BatchAck) > 0 && Count(states[i], BatchNack) > 0 {
      BothOnlyIfContradictory(n, calls, states, i);
      var t :| 0 <= t < n && Call(t, true) in calls;
      assert Call(t, false) in calls;
      var c :| 0 <= c < |calls| && calls[c] == Call(t, true);
      var d :| 0 <= d < |calls| && calls[d] == Call(t, false);
      assert false;
    }
  }

  // ----- contradictory calls do get the batch acked after it was nacked

  /** The first ack call for a target. */
  function Pick(calls: seq<Call>, t: nat): (c: nat)
    requires Call(t, false) in calls
    ensures c < |calls| && calls[c] == Call(t, false)
  {
    if calls[0] == Call(t, false) then 0 else 1 + Pick(calls[1..], t)
  }

  /** The state in which the picked calls of the first k targets are through, and nothing else has happened. */
  ghost function AfterAcks(n: nat, calls: seq<Call>, k: nat): State
    requires AllAcked(n, calls)
    requires k <= n && Ready(n, calls)
  {
    var pcs := seq(|calls|, c requires 0 <= c < |calls| =>
      if !calls[c].nack && calls[c].target < k && Pick(calls, calls[c].target) == c then Done else Start);
    State(calls, pcs, n - k, Fresh, seq(n, t => if t < k then Finished else Fresh), Targets(k), false, None, [], [])
  }

  lemma Extend(n: nat, calls: seq<Call>, states: seq<State>, step: Step) returns (longer: seq<State>)
    requires IsRun(n, calls, states) && Shaped(states[|states| - 1]) && Enabled(states[|states| - 1], step)
    ensures IsRun(n, calls, longer) && longer[|longer| - 1] == Apply(states[|states| - 1], step)
  {
    var last := states[|states| - 1];
    longer := states + [Apply(last, step)];
    forall i | 0 <= i < |longer| - 1 ensures Follows(longer[i], longer[i + 1]) {
      if i < |states| - 1 {
        assert Follows(states[i], states[i + 1]);
      }
    }
  }

  lemma OneMoreAck(n: nat, calls: seq<Call>, k: nat)
    requires AllAcked(n, calls)
    requires k + 1 < n && Ready(n, calls)
    ensures var s, c := AfterAcks(n, calls, k), Pick(calls, k);
            && Shaped(s) && Enabled(s, BeginAck(c))
            && var s' := Apply(s, BeginAck(c));
               Shaped(s') && Enabled(s', Add(c)) && Apply(s', Add(c)) == AfterAcks(n, calls, k + 1)
  {
    var s, c, next := AfterAcks(n, calls, k), Pick(calls, k), AfterAcks(n, calls, k + 1);
    var s' := Apply(Apply(s, BeginAck(c)), Add(c));
    assert s'.pending == n - k - 1 > 0;
    assert s'.pcs == next.pcs && s'.ackOnce == next.ackOnce && s'.added == next.added;
  }

  lemma {:induction false} RunOfAcks(n: nat, calls: seq<Call>, k: nat) returns (states: seq<State>)
    requires AllAcked(n, calls)
    requires k < n && Ready(n, calls)
    ensures IsRun(n, calls, states) && states[|states| - 1] == AfterAcks(n, calls, k)
  {
    if k == 0 {
      states := [Init(n, calls)];
      assert Init(n, calls) == AfterAcks(n, calls, 0);
    } else {
      states := RunOfAcks(n, calls, k - 1);
      OneMoreAck(n, calls, k - 1);
      states := Extend(n, calls, states, BeginAck(Pick(calls, k - 1)));
      states := Extend(n, calls, states, Add(Pick(calls, k - 1)));
    }
  }

  /** All targets are acked, and the last call has brought the counter to zero but not acked the batch yet. */
  lemma RunToLast(n: nat, calls: seq<Call>) returns (states: seq<State>)
    requires Ready(n, calls) && n > 0 && AllAcked(n, calls)
    ensures IsRun(n, calls, states)
    ensures var s, c := states[|states| - 1], Pick(calls, n - 1);
            && Shaped(s) && s.calls == calls && s.pcs[c].Last? && s.nackOnce.Fresh? && s.log == []
            && forall x :: 0 <= x < |calls| && calls[x].nack ==> s.pcs[x].Start?
  {
    var c := Pick(calls, n - 1);
    states := RunOfAcks(n, calls, n - 1);
    states := Extend(n, calls, states, BeginAck(c));
    states := Extend(n, calls, states, Add(c));
  }

  /** Contradictory calls can interleave so that the batch is acked after it was nacked. */
  lemma AckAfterNackReachable(n: nat, calls: seq<Call>) returns (states: seq<State>)
    requires Ready(n, calls) && Contradictory(n, calls)
    ensures IsRun(n, calls, states) && states[|states| - 1].log == [BatchNack, BatchAck]
  {
    var t :| 0 <= t < n && Call(t, true) in calls;
    var x :| 0 <= x < |calls| && calls[x] == Call(t, true);
    states := RunToLast(n, calls);
    states := Extend(n, calls, states, BeginNack(x));
    states := Extend(n, calls, states, Mark(x));
    states := Extend(n, calls, states, NackBatch(x));
    states := Extend(n, calls, states, AckBatch(Pick(calls, n - 1)));
  }

  /**
   * The batch can see both an ack and a nack if and only if the calls contradict each
   * other: every target acked in some call, and some target nacked in another.
   */
  lemma BothReachableIff(n: nat, calls: seq<Call>)
    requires Ready(n, calls)
    ensures (exists states, i: nat :: SeesBoth(n, calls, states, i)) <==> Contradictory(n, calls)
  {
    if Contradictory(n, calls) {
      var states := AckAfterNackReachable(n, calls);
      assert SeesBoth(n, calls, states, |states| - 1);
    }
    forall states, i: nat | SeesBoth(n, calls, states, i) ensures Contradictory(n, calls) {
      BothOnlyIfContradictory(n, calls, states, i);
    }
  }

  ghost predicate SeesBoth(n: nat, calls: seq<Call>, states: seq<State>, i: nat) {
    IsRun(n, calls, states) && i < |states| && Count(states[i], BatchAck) > 0 && Count(states[i], BatchNack) > 0
  }

  // ----- what is deleted

  ghost predicate DeletesAll(n: nat, calls: seq<Call>, states: seq<State>, i: nat) {
    IsRun(n, calls, states) && i < |states| && forall t :: 0 <= t < n ==> t in states[i].deleted
  }

  /** When every target is acked, some run deletes the blob of the target acked last. */
  lemma DeleteReachable(n: nat, calls: seq<Call>) returns (states: seq<State>)
    requires Ready(n, calls) && n > 0 && AllAcked(n, calls)
    ensures IsRun(n, calls, states) && n - 1 in states[|states| - 1].deleted
  {
    var c := Pick(calls, n - 1);
    states := RunToLast(n, calls);
    states := Extend(n, calls, states, AckBatch(c));
    states := Extend(n, calls, states, FinishAck(c, true));
  }

  lemma OneTargetDeleted(n: nat, calls: seq<Call>, states: seq<State>, i: nat, t: nat, u: nat)
    requires Ready(n, calls) && IsRun(n, calls, states) && i < |states|
    requires t in states[i].deleted && u in states[i].deleted
    ensures t == u
  {
    AtMostOneDelete(n, calls, states, i);
  }

  lemma DeletesAllOnlyIf(n: nat, calls: seq<Call>, states: seq<State>, i: nat)
    requires Ready(n, calls) && DeletesAll(n, calls, states, i)
    ensures n == 0 || (n == 1 && Call(0, false) in calls)
  {
    if n > 1 {
      OneTargetDeleted(n, calls, states, i, 0, 1);
    } else if n == 1 {
      assert 0 in states[i].deleted;
      AtMostOneDelete(n, calls, states, i);
      AckedOnlyIfAllAcked(n, calls, states, i);
    }
  }

  /** Some run deletes the blobs of all targets exactly when there is none, or one that is acked. */
  lemma DeletesAllIff(n: nat, calls: seq<Call>)
    requires Ready(n, calls)
    ensures (exists states, i: nat :: DeletesAll(n, calls, states, i)) <==>
            n == 0 || (n == 1 && Call(0, false) in calls)
  {
    if n == 0 {
      assert DeletesAll(n, calls, [Init(n, calls)], 0);
    } else if n == 1 && Call(0, false) in calls {
      var states := DeleteReachable(n, calls);
      assert DeletesAll(n, calls, states, |states| - 1);
    }
    forall states, i: nat | DeletesAll(n, calls, states, i) ensures n == 0 || (n == 1 && Call(0, false) in calls) {
      DeletesAllOnlyIf(n, calls, states, i);
    }
  }

  // ----- when all calls have returned

  /** Calls that returned have left their mark: a nack a nacked batch, an ack its target counted. */
  ghost predicate Settled(s: State) {
    && Shaped(s)
    && (forall c :: 0 <= c < |s.calls| && s.pcs[c].Done? && s.calls[c].nack ==> s.nackOnce.Finished?)
    && (forall c :: 0 <= c < |s.calls| && s.pcs[c].Done? && !s.calls[c].nack ==> s.calls[c].target in s.added)
    && (forall t :: 0 <= t < |s.ackOnce| && s.ackOnce[t].Finished? ==> t in s.added)
    && (forall c :: 0 <= c < |s.calls| && (s.pcs[c].Last? || s.pcs[c].Deleting?) ==> s.calls[c].target in s.added)
    && (!s.marked && |s.added| == |s.ackOnce| > 0 ==> s.winner.Some?)
  }

  lemma SettledByAdd(s: State, c: nat)
    requires Inv(s) && Settled(s) && Enabled(s, Add(c))
    ensures Settled(Apply(s, Add(c)))
  {
    BeforeAdd(s, c);
  }

  lemma SettledByNack(s: State, step: Step)
    requires Inv(s) && Settled(s) && Enabled(s, step) && (step.BeginNack? || step.Mark? || step.NackBatch?)
    ensures Settled(Apply(s, step))
  {
  }

  lemma SettledByAck(s: State, step: Step)
    requires Inv(s) && Settled(s) && Enabled(s, step) && (step.BeginAck? || step.AckBatch? || step.FinishAck?)
    ensures Settled(Apply(s, step))
  {
  }

  lemma SettledKept(s: State, step: Step)
    requires Inv(s) && Settled(s) && Enabled(s, step)
    ensures Settled(Apply(s, step))
  {
    if step.Add? {
      SettledByAdd(s, step.c);
    } else if step.BeginAck? || step.AckBatch? || step.FinishAck? {
      SettledByAck(s, step);
    } else if !step.Skip? {
      SettledByNack(s, step);
    }
  }

  lemma {:induction false} RunSettled(n: nat, calls: seq<Call>, states: seq<State>, i: nat)
    requires Ready(n, calls) && IsRun(n, calls, states) && i < |states|
    ensures Settled(states[i])
    decreases i
  {
    if i > 0 {
      RunSettled(n, calls, states, i - 1);
      RunInv(n, calls, states, i - 1);
      assert Follows(states[i - 1], states[i - 1 + 1]);
      var step :| Enabled(states[i - 1], step) && states[i] == Apply(states[i - 1], step);
      SettledKept(states[i - 1], step);
    }
  }

  lemma {:induction false} OnlyTwoKinds(log: seq<Event>)
    ensures |log| == multiset(log)[BatchAck] + multiset(log)[BatchNack]
  {
    if log != [] {
      var init, last := log[..|log| - 1], log[|log| - 1];
      OnlyTwoKinds(init);
      assert log == init + [last] && multiset(log) == multiset(init) + multiset{last};
      assert last == BatchAck || last == BatchNack;
    }
  }

  ghost predicate AllDone(s: State) {
    |s.pcs| == |s.calls| && forall c :: 0 <= c < |s.pcs| ==> s.pcs[c].Done?
  }

  lemma AllAdded(s: State)
    requires Inv(s) && Settled(s) && AllDone(s) && AllAcked(|s.ackOnce|, s.calls)
    ensures |s.added| == |s.ackOnce|
  {
    var n := |s.ackOnce|;
    forall t | t in Targets(n) ensures t in s.added {
      var c :| 0 <= c < |s.calls| && s.calls[c] == Call(t, false);
      assert s.pcs[c].Done?;
    }
    AddedSize(s);
    SubsetSize(Targets(n), s.added);
  }

  lemma AckResolved(s: State)
    requires Inv(s) && Settled(s) && AllDone(s) && |s.added| == |s.ackOnce| > 0 && !NackCalled(s)
    ensures s.log == [BatchAck]
  {
    assert !s.marked && !s.nackOnce.Finished?;
    assert s.winner.Some? && s.pcs[s.winner.value].Done?;
    assert Count(s, BatchAck) == 1 && Count(s, BatchNack) == 0;
    OnlyTwoKinds(s.log);
    assert s.log[0] in multiset(s.log);
  }

  /**
   * When every call has returned, a batch with a nacked target has been nacked, once; and one whose targets
   * were all acked and none nacked has been acked, once, and nothing else.
   */
  lemma ResolvedWhenDone(n: nat, calls: seq<Call>, states: seq<State>, i: nat)
    requires Ready(n, calls) && IsRun(n, calls, states) && i < |states| && AllDone(states[i])
    ensures (exists c :: 0 <= c < |calls| && calls[c].nack) ==> Count(states[i], BatchNack) == 1
    ensures n > 0 && AllAcked(n, calls) && (forall c :: 0 <= c < |calls| ==> !calls[c].nack) ==> states[i].log == [BatchAck]
  {
    RunInv(n, calls, states, i);
    RunSettled(n, calls, states, i);
    var s := states[i];
    if n > 0 && AllAcked(n, calls) && forall c :: 0 <= c < |calls| ==> !calls[c].nack {
      AllAdded(s);
      assert !NackCalled(s);
      AckResolved(s);
    }
  }
}
