/**
 * The capped pool as a state machine over the steps of concurrent callers. A step
 * is one operation on the queue channel, the allocation counter or the lock, or
 * one return of the constructor.
 */
module CappedPool {
  import opened Json

  type Thread = nat

  /** Items are numbered in the order in which they were constructed. */
  type Item = nat

  /** Where a caller of Acquire stands. */
  datatype PC =
    | Idle
    | Missed                  // found the queue empty
    | Below                   // saw the count below the capacity, not holding the lock
    | Locked                  // holds the lock, count not looked at again yet
    | Creating(id: int)       // inside the constructor
    | Created(item: Item)     // constructed, not counted yet
    | Counted(item: Item)     // counted, still holding the lock
    | Failed                  // constructor failed, still holding the lock
    | Waiting                 // blocked on the queue or on cancellation
  {
    predicate HoldsLock() {
      Locked? || Creating? || Created? || Counted? || Failed?
    }

    /** The item a caller has constructed but not returned yet. */
    function InFlight(): multiset<Item> {
      if Created? || Counted? then multiset{item} else multiset{}
    }
  }

  datatype State = State(
    capacity: nat,
    count: int,                  // the counter of allocated items
    queue: seq<Item>,            // the channel of free items
    lock: Option<Thread>,        // who holds the mutex
    threads: map<Thread, PC>,
    held: multiset<Item>,        // items handed out and not released
    first: Item,                 // number of the first item since the last reset
    ids: seq<int>)               // constructor ids of the items since then
  {
    function At(t: Thread): PC {
      if t in threads then threads[t] else Idle
    }

    function Move(t: Thread, pc: PC): State {
      this.(threads := threads[t := pc])
    }
  }

  datatype Step =
    | TryTake(t: Thread) | TryMiss(t: Thread) | Check(t: Thread)
    | Lock(t: Thread) | Recheck(t: Thread)
    | Construct(t: Thread) | ConstructFails(t: Thread) | Count(t: Thread) | Unlock(t: Thread)
    | WaitTake(t: Thread) | WaitCancelled(t: Thread)
    | Release(item: Item)

  function Init(capacity: nat): State {
    State(capacity, 0, [], None, map[], multiset{}, 0, [])
  }

  predicate Enabled(s: State, step: Step) {
    match step
    case TryTake(t) => s.At(t).Idle? && s.queue != []
    case TryMiss(t) => s.At(t).Idle? && s.queue == []
    case Check(t) => s.At(t).Missed?
    case Lock(t) => s.At(t).Below? && s.lock.None?
    case Recheck(t) => s.At(t).Locked?
    case Construct(t) => s.At(t).Creating?
    case ConstructFails(t) => s.At(t).Creating?
    case Count(t) => s.At(t).Created?
    case Unlock(t) => s.At(t).Counted? || s.At(t).Failed?
    case WaitTake(t) => s.At(t).Waiting? && s.queue != []
    case WaitCancelled(t) => s.At(t).Waiting?
    case Release(item) => item in s.held && |s.queue| < s.capacity
  }

  /** Hands the oldest free item to a caller. */
  function Take(s: State, t: Thread): State
    requires s.queue != []
  {
    s.(queue := s.queue[1..], held := s.held + multiset{s.queue[0]}).Move(t, Idle)
  }

  function Apply(s: State, step: Step): State
    requires Enabled(s, step)
  {
    match step
    case TryTake(t) => Take(s, t)
    case TryMiss(t) => s.Move(t, Missed)
    case Check(t) => s.Move(t, if s.count >= s.capacity then Waiting else Below)
    case Lock(t) => s.(lock := Some(t)).Move(t, Locked)
    case Recheck(t) =>
      if s.count >= s.capacity then s.(lock := None).Move(t, Waiting) else s.Move(t, Creating(s.count))
    case Construct(t) => s.(ids := s.ids + [s.At(t).id]).Move(t, Created(s.first + |s.ids|))
    case ConstructFails(t) => s.Move(t, Failed)
    case Count(t) => s.(count := s.count + 1).Move(t, Counted(s.At(t).item))
    case Unlock(t) => s.(lock := None, held := s.held + s.At(t).InFlight()).Move(t, Idle)
    case WaitTake(t) => Take(s, t)
    case WaitCancelled(t) => s.Move(t, Idle)
    case Release(item) => s.(queue := s.queue + [item], held := s.held - multiset{item})
  }

  ghost predicate Follows(s: State, s': State) {
    exists step :: Enabled(s, step) && s' == Apply(s, step)
  }

  ghost predicate IsRun(capacity: nat, states: seq<State>) {
    |states| > 0 && states[0] == Init(capacity) &&
    forall i :: 0 <= i < |states| - 1 ==> Follows(states[i], states[i + 1])
  }

  // ----- the invariant

  /** The item of the caller inside the lock, if it has one. */
  function InFlight(s: State): multiset<Item> {
    if s.lock.Some? then s.At(s.lock.value).InFlight() else multiset{}
  }

  /** The lock is held by the one caller whose position says so. */
  ghost predicate Exclusive(s: State) {
    forall t: Thread :: s.lock == Some(t) <==> s.At(t).HoldsLock()
  }

  /** The counter, the constructor ids and the item numbers agree, and the capacity is kept. */
  ghost predicate Counting(s: State) {
    && (forall i :: 0 <= i < |s.ids| ==> s.ids[i] == i)
    && |s.ids| <= s.capacity
    && s.count == |s.ids| - (if s.lock.Some? && s.At(s.lock.value).Created? then 1 else 0)
    && (forall t :: s.At(t).Creating? ==> s.At(t).id == s.count < s.capacity)
    && (forall t :: s.At(t).Created? || s.At(t).Counted? ==> s.At(t).item == s.first + |s.ids| - 1 && s.ids != [])
  }

  /** Every item is in exactly one place: free, handed out, or in the hands of its maker. */
  ghost predicate Unique(s: State) {
    && (forall x :: multiset(s.queue)[x] + s.held[x] + InFlight(s)[x] == if s.first <= x < s.first + |s.ids| then 1 else 0)
    && |s.queue| + |s.held| + |InFlight(s)| == |s.ids|
  }

  ghost predicate Inv(s: State) {
    Exclusive(s) && Counting(s) && Unique(s)
  }

  lemma OthersStay(s: State, step: Step)
    requires Enabled(s, step)
    ensures if step.Release? then forall u :: Apply(s, step).At(u) == s.At(u)
            else forall u :: u != step.t ==> Apply(s, step).At(u) == s.At(u)
  {
  }

  lemma ExclusiveKept(s: State, step: Step)
    requires Exclusive(s) && Enabled(s, step)
    ensures Exclusive(Apply(s, step))
  {
    OthersStay(s, step);
  }

  /** The step is taken by the caller inside the lock. */
  predicate Inside(step: Step) {
    step.Recheck? || step.Construct? || step.ConstructFails? || step.Count? || step.Unlock?
  }

  lemma CountingKept(s: State, step: Step)
    requires Exclusive(s) && Counting(s) && Enabled(s, step)
    ensures Counting(Apply(s, step))
  {
    if !Inside(step) {
      OthersStay(s, step);
    } else if step.Construct? || step.Count? {
      OthersStay(s, step);
      assert s.lock == Some(step.t);
    } else {
      OthersStay(s, step);
      assert s.lock == Some(step.t);
    }
  }

  lemma ReleaseKeeps(s: State, item: Item)
    requires Unique(s) && Enabled(s, Release(item))
    ensures Unique(Apply(s, Release(item)))
  {
    var s' := Apply(s, Release(item));
    assert multiset(s'.queue) == multiset(s.queue) + multiset{item};
    assert |s'.held| == |s.held| - 1;
    assert InFlight(s') == InFlight(s);
  }

  lemma UnlockKeeps(s: State, t: Thread)
    requires Inv(s) && Enabled(s, Unlock(t))
    ensures Unique(Apply(s, Unlock(t)))
  {
    assert InFlight(Apply(s, Unlock(t))) == multiset{} && InFlight(s) == s.At(t).InFlight();
  }

  predicate IsMove(step: Step) {
    !step.TryTake? && !step.WaitTake? && !step.Release? && !step.Construct? && !step.Unlock?
  }

  lemma InFlightOutside(s: State, step: Step)
    requires Exclusive(s) && Enabled(s, step) && IsMove(step) && !Inside(step)
    ensures InFlight(Apply(s, step)) == InFlight(s)
  {
    OthersStay(s, step);
    assert s.lock != Some(step.t);
  }

  lemma InFlightInside(s: State, step: Step)
    requires Exclusive(s) && Enabled(s, step) && IsMove(step) && Inside(step)
    ensures InFlight(Apply(s, step)) == InFlight(s)
  {
    assert s.lock == Some(step.t);
  }

  lemma MoveKeeps(s: State, step: Step)
    requires Exclusive(s) && Unique(s) && Enabled(s, step) && IsMove(step)
    ensures Unique(Apply(s, step))
  {
    if Inside(step) {
      InFlightInside(s, step);
    } else {
      InFlightOutside(s, step);
    }
    ExchangedUnique(s, Apply(s, step));
  }

  lemma InFlightOfOthers(s: State, step: Step)
    requires Exclusive(s) && Enabled(s, step) && (step.TryTake? || step.WaitTake?)
    ensures InFlight(Apply(s, step)) == InFlight(s)
  {
    assert s.lock != Some(step.t);
  }

  /** Items may change hands as long as the same ones are free or handed out together. */
  lemma ExchangedUnique(s: State, s': State)
    requires Unique(s) && multiset(s'.queue) + s'.held == multiset(s.queue) + s.held
    requires |s'.queue| + |s'.held| == |s.queue| + |s.held| && InFlight(s') == InFlight(s)
    requires s'.first == s.first && s'.ids == s.ids
    ensures Unique(s')
  {
    forall x: Item
      ensures multiset(s'.queue)[x] + s'.held[x] + InFlight(s')[x] == if s.first <= x < s.first + |s.ids| then 1 else 0
    {
      assert (multiset(s'.queue) + s'.held)[x] == (multiset(s.queue) + s.held)[x];
    }
  }

  lemma TakeKeeps(s: State, step: Step)
    requires Exclusive(s) && Unique(s) && Enabled(s, step) && (step.TryTake? || step.WaitTake?)
    ensures Unique(Apply(s, step))
  {
    assert s.queue == [s.queue[0]] + s.queue[1..];
    InFlightOfOthers(s, step);
    ExchangedUnique(s, Apply(s, step));
  }

  lemma UniqueKept(s: State, step: Step)
    requires Inv(s) && Enabled(s, step)
    ensures Unique(Apply(s, step))
  {
    if IsMove(step) {
      MoveKeeps(s, step);
    } else if step.Release? {
      ReleaseKeeps(s, step.item);
    } else if step.Construct? {
      var s' := Apply(s, Construct(step.t));
      assert InFlight(s) == multiset{} && InFlight(s') == multiset{s.first + |s.ids|};
    } else if step.Unlock? {
      UnlockKeeps(s, step.t);
    } else {
      TakeKeeps(s, step);
    }
  }

  /** Every state of every run without a reset satisfies the invariant. */
  lemma {:induction false} RunInv(capacity: nat, states: seq<State>, i: nat)
    requires IsRun(capacity, states) && i < |states|
    ensures Inv(states[i]) && states[i].capacity == capacity
    decreases i
  {
    if i > 0 {
      RunInv(capacity, states, i - 1);
      assert Follows(states[i - 1], states[i - 1 + 1]);
      var step :| Enabled(states[i - 1], step) && states[i] == Apply(states[i - 1], step);
      ExclusiveKept(states[i - 1], step);
      CountingKept(states[i - 1], step);
      UniqueKept(states[i - 1], step);
    }
  }

  // ----- what every run keeps

  /** The count is what is queued, handed out or just constructed, and stays within the capacity. */
  lemma CountedOnce(capacity: nat, states: seq<State>, i: nat)
    requires IsRun(capacity, states) && i < |states|
    ensures var s := states[i];
            && |s.queue| + |s.held| + |InFlight(s)| == |s.ids| <= capacity
            && s.count <= |s.ids| <= s.count + 1 && (s.count < |s.ids| ==> |InFlight(s)| == 1)
  {
    RunInv(capacity, states, i);
  }

  /** No item is handed out twice, and none is handed out while it is free. */
  lemma NeverShared(capacity: nat, states: seq<State>, i: nat, item: Item)
    requires IsRun(capacity, states) && i < |states| && item in states[i].held
    ensures states[i].held[item] == 1 && item !in states[i].queue
  {
    RunInv(capacity, states, i);
  }

  /** Constructors that succeed get the ids 0, 1, 2 and so on. */
  lemma IdsInOrder(capacity: nat, states: seq<State>, i: nat, j: nat)
    requires IsRun(capacity, states) && i < |states| && j < |states[i].ids|
    ensures states[i].ids[j] == j < capacity
  {
    RunInv(capacity, states, i);
  }

  /** Releasing an item that was handed out never blocks. */
  lemma ReleaseNeverBlocks(capacity: nat, states: seq<State>, i: nat, item: Item)
    requires IsRun(capacity, states) && i < |states| && item in states[i].held
    ensures Enabled(states[i], Release(item))
  {
    RunInv(capacity, states, i);
    var s := states[i];
    assert |s.held| > 0;
  }

  // ----- waiting

  /** Callers wait only while everything the capacity allows is constructed. */
  ghost predicate Patient(s: State) {
    forall t :: s.At(t).Waiting? ==> s.count >= s.capacity
  }

  lemma PatientKept(s: State, step: Step)
    requires Patient(s) && Enabled(s, step)
    ensures Patient(Apply(s, step))
  {
    OthersStay(s, step);
  }

  /** No caller ever waits for an item that it could have had made. */
  lemma {:induction false} WaitsOnlyWhenFull(capacity: nat, states: seq<State>, i: nat)
    requires IsRun(capacity, states) && i < |states|
    ensures Patient(states[i])
    decreases i
  {
    if i > 0 {
      WaitsOnlyWhenFull(capacity, states, i - 1);
      assert Follows(states[i - 1], states[i - 1 + 1]);
      var step :| Enabled(states[i - 1], step) && states[i] == Apply(states[i - 1], step);
      PatientKept(states[i - 1], step);
    }
  }

  // ----- first in, first out

  /** An item given back, or handed out again. */
  datatype Event = Gave(item: Item) | Got(item: Item)

  /** What a step does to the items in use, as far as they have been used before. */
  ghost predicate Tells(s: State, step: Step, events: seq<Event>)
    requires Enabled(s, step)
  {
    match step
    case Release(item) => events == [Gave(item)]
    case TryTake(_) => |events| == 1 && events[0].Got? && Apply(s, step).held == s.held + multiset{events[0].item}
    case WaitTake(_) => |events| == 1 && events[0].Got? && Apply(s, step).held == s.held + multiset{events[0].item}
    case _ => events == []
  }

  function Gaves(events: seq<Event>): seq<Item> {
    if events == [] then []
    else Gaves(events[..|events| - 1]) + if events[|events| - 1].Gave? then [events[|events| - 1].item] else []
  }

  function Gots(events: seq<Event>): seq<Item> {
    if events == [] then []
    else Gots(events[..|events| - 1]) + if events[|events| - 1].Got? then [events[|events| - 1].item] else []
  }

  lemma OneEvent(events: seq<Event>, e: Event)
    ensures Gaves(events + [e]) == Gaves(events) + if e.Gave? then [e.item] else []
    ensures Gots(events + [e]) == Gots(events) + if e.Got? then [e.item] else []
  {
    assert (events + [e])[..|events|] == events;
  }

  lemma SameItem(held: multiset<Item>, x: Item, y: Item)
    requires held + multiset{x} == held + multiset{y}
    ensures x == y
  {
    assert (held + multiset{x})[x] == (held + multiset{y})[x];
  }

  /** The events of a run, step by step. */
  ghost predicate History(states: seq<State>, steps: seq<Step>, events: seq<Event>)
    decreases |steps|
  {
    && |states| == |steps| + 1
    && if steps == [] then events == []
       else
         var n := |steps| - 1;
         exists before, last ::
           && History(states[..n + 1], steps[..n], before) && events == before + last
           && Enabled(states[n], steps[n]) && states[n + 1] == Apply(states[n], steps[n]) && Tells(states[n], steps[n], last)
  }

  lemma OneGaves(e: Event)
    ensures Gaves([e]) == (if e.Gave? then [e.item] else []) && Gots([e]) == if e.Got? then [e.item] else []
  {
    assert [e][..0] == [];
  }

  lemma TakenOldest(s: State, step: Step, last: seq<Event>)
    requires Enabled(s, step) && Tells(s, step, last) && (step.TryTake? || step.WaitTake?)
    ensures Gaves(last) == [] && Gots(last) + Apply(s, step).queue == s.queue
  {
    SameItem(s.held, last[0].item, s.queue[0]);
    assert last == [last[0]] && last[0] == Got(s.queue[0]);
    OneGaves(last[0]);
    assert s.queue == [s.queue[0]] + s.queue[1..];
  }

  lemma QueueStep(s: State, step: Step, given: seq<Item>, got: seq<Item>, last: seq<Event>)
    requires Enabled(s, step) && Tells(s, step, last) && given == got + s.queue
    ensures given + Gaves(last) == got + Gots(last) + Apply(s, step).queue
  {
    var queue := Apply(s, step).queue;
    if step.TryTake? || step.WaitTake? {
      TakenOldest(s, step, last);
      assert got + (Gots(last) + queue) == got + Gots(last) + queue;
    } else if step.Release? {
      OneGaves(last[0]);
      assert got + (s.queue + [step.item]) == got + s.queue + [step.item];
    }
  }

  lemma HistoryMore(events: seq<Event>, last: seq<Event>)
    requires |last| <= 1
    ensures Gaves(events + last) == Gaves(events) + Gaves(last) && Gots(events + last) == Gots(events) + Gots(last)
  {
    if last == [] {
      assert events + last == events;
    } else {
      assert last == [] + [last[0]];
      OneEvent(events, last[0]);
      OneEvent([], last[0]);
    }
  }

  /** Items are handed out again in the order in which they were given back; those not handed out yet are in the queue. */
  lemma {:induction false} FirstInFirstOut(states: seq<State>, steps: seq<Step>, events: seq<Event>)
    requires History(states, steps, events) && states[0].queue == []
    ensures Gaves(events) == Gots(events) + states[|steps|].queue
    decreases |steps|
  {
    if steps != [] {
      var n := |steps| - 1;
      var before, last :| History(states[..n + 1], steps[..n], before) && events == before + last
        && Enabled(states[n], steps[n]) && states[n + 1] == Apply(states[n], steps[n]) && Tells(states[n], steps[n], last);
      FirstInFirstOut(states[..n + 1], steps[..n], before);
      QueueStep(states[n], steps[n], Gaves(before), Gots(before), last);
      HistoryMore(before, last);
    }
  }

  // ----- reset

  /** The pool after a reset: nothing counted, nothing free, a new generation of items to come. */
  function AfterReset(s: State): State {
    s.(count := 0, queue := [], first := s.first + |s.ids|, ids := [])
  }

  /** Takes the lock, so nobody else holds it. */
  method Reset(s: State) returns (r: State)
    requires s.lock.None?
    ensures r == AfterReset(s)
  {
    r := s.(count := 0, first := s.first + |s.ids|, ids := []);
    while r.queue != []
      invariant r == s.(count := 0, first := s.first + |s.ids|, ids := [], queue := r.queue)
      decreases |r.queue|
    {
      r := r.(queue := r.queue[1..]);
    }
  }

  /** A reset re-establishes the invariant exactly when no item is handed out. */
  lemma ResetIff(s: State)
    requires Inv(s) && s.lock.None?
    ensures Inv(AfterReset(s)) <==> s.held == multiset{}
  {
    var r := AfterReset(s);
    assert forall t :: r.At(t) == s.At(t);
    if s.held == multiset{} {
      assert Unique(r);
    }
  }

  // ----- what a reset leads to

  ghost predicate IsPath(states: seq<State>) {
    |states| > 0 && forall i :: 0 <= i < |states| - 1 ==> Follows(states[i], states[i + 1])
  }

  ghost predicate IsPathTo(states: seq<State>, s: State, s': State) {
    IsPath(states) && states[0] == s && states[|states| - 1] == s'
  }

  ghost predicate Reachable(s: State, s': State) {
    exists states :: IsPathTo(states, s, s')
  }

  /** Some caller has an item it cannot give back, because the queue is full. */
  ghost predicate Stuck(s: State) {
    exists item :: item in s.held && !Enabled(s, Release(item))
  }

  lemma ReachItself(s: State)
    ensures Reachable(s, s)
  {
    assert IsPathTo([s], s, s);
  }

  lemma ReachOneMore(s: State, a: State, step: Step)
    requires Reachable(s, a) && Enabled(a, step)
    ensures Reachable(s, Apply(a, step))
  {
    var states :| IsPathTo(states, s, a);
    var more := states + [Apply(a, step)];
    forall i | 0 <= i < |more| - 1 ensures Follows(more[i], more[i + 1]) {
      if i < |states| - 1 {
        assert Follows(states[i], states[i + 1]);
      } else {
        assert Enabled(more[i], step);
      }
    }
    assert IsPathTo(more, s, Apply(a, step));
  }

  lemma {:induction false} PathInv(states: seq<State>, i: nat)
    requires IsPath(states) && i < |states| && Inv(states[0])
    ensures Inv(states[i])
    decreases i
  {
    if i > 0 {
      PathInv(states, i - 1);
      assert Follows(states[i - 1], states[i - 1 + 1]);
      var step :| Enabled(states[i - 1], step) && states[i] == Apply(states[i - 1], step);
      ExclusiveKept(states[i - 1], step);
      CountingKept(states[i - 1], step);
      UniqueKept(states[i - 1], step);
    }
  }

  lemma InvNeverStuck(s: State)
    requires Inv(s)
    ensures !Stuck(s)
  {
    forall item | item in s.held ensures Enabled(s, Release(item)) {
      assert |s.held| > 0;
    }
  }

  /** Nothing is free, the lock is free, and the caller is idle. */
  ghost predicate Ready(s: State, t: Thread, count: int, held: nat) {
    s.queue == [] && s.lock.None? && s.At(t).Idle? && s.count == count && |s.held| == held
  }

  /** A caller that finds nothing free and room under the capacity can have an item made. */
  lemma MakeOne(s: State, a: State, t: Thread, count: int, held: nat) returns (b: State)
    requires Reachable(s, a) && Ready(a, t, count, held) && count < a.capacity
    ensures Reachable(s, b) && Ready(b, t, count + 1, held + 1) && b.capacity == a.capacity
  {
    b := a;
    ReachOneMore(s, b, TryMiss(t));
    b := Apply(b, TryMiss(t));
    ReachOneMore(s, b, Check(t));
    b := Apply(b, Check(t));
    b := MakeBelow(s, b, t);
  }

  lemma MakeBelow(s: State, a: State, t: Thread) returns (b: State)
    requires Reachable(s, a) && a.At(t).Below? && a.lock.None? && a.queue == [] && a.count < a.capacity
    ensures Reachable(s, b) && Ready(b, t, a.count + 1, |a.held| + 1) && b.capacity == a.capacity
  {
    b := a;
    ReachOneMore(s, b, Lock(t));
    b := Apply(b, Lock(t));
    ReachOneMore(s, b, Recheck(t));
    b := Apply(b, Recheck(t));
    ReachOneMore(s, b, Construct(t));
    b := Apply(b, Construct(t));
    ReachOneMore(s, b, Count(t));
    b := Apply(b, Count(t));
    ReachOneMore(s, b, Unlock(t));
    b := Apply(b, Unlock(t));
  }

  lemma {:induction false} MakeMany(s: State, a: State, t: Thread, count: nat, held: nat) returns (b: State)
    requires Reachable(s, a) && Ready(a, t, count, held) && count <= a.capacity
    ensures Reachable(s, b) && Ready(b, t, a.capacity, held + (a.capacity - count)) && b.capacity == a.capacity
    decreases a.capacity - count
  {
    b := a;
    if count < a.capacity {
      b := MakeOne(s, a, t, count, held);
      b := MakeMany(s, b, t, count + 1, held + 1);
    }
  }

  /** Items can be given back until the queue is full. */
  lemma {:induction false} GiveBack(s: State, a: State) returns (b: State)
    requires Reachable(s, a) && |a.queue| <= a.capacity && |a.held| >= a.capacity - |a.queue|
    ensures Reachable(s, b) && b.capacity == a.capacity == |b.queue| && |b.held| == |a.held| - (a.capacity - |a.queue|)
    decreases a.capacity - |a.queue|
  {
    b := a;
    if |a.queue| < a.capacity {
      var item :| item in a.held;
      ReachOneMore(s, a, Release(item));
      b := GiveBack(s, Apply(a, Release(item)));
    }
  }

  lemma {:induction false} FreshThread(threads: set<Thread>) returns (t: Thread)
    ensures forall u :: u in threads ==> u < t
  {
    if threads == {} {
      t := 0;
    } else {
      var u :| u in threads;
      var above := FreshThread(threads - {u});
      t := if u < above then above else u + 1;
      forall v | v in threads ensures v < t {
        assert v == u || v in threads - {u};
      }
    }
  }

  /** After a reset, some run leaves a caller stuck with its item exactly when an item was handed out. */
  lemma ResetSticksIff(s: State)
    requires Inv(s) && s.lock.None?
    ensures (exists s' :: Reachable(AfterReset(s), s') && Stuck(s')) <==> s.held != multiset{}
  {
    var r := AfterReset(s);
    if s.held == multiset{} {
      ResetIff(s);
      forall s' | Reachable(r, s') ensures !Stuck(s') {
        var states :| IsPathTo(states, r, s');
        PathInv(states, |states| - 1);
        InvNeverStuck(s');
      }
    } else {
      ReachItself(r);
      var t := FreshThread(r.threads.Keys);
      assert r.At(t).Idle?;
      var full := MakeMany(r, r, t, 0, |r.held|);
      var last := GiveBack(r, full);
      var item :| item in last.held;
      assert Stuck(last);
    }
  }

  /** While fewer items are handed out than the capacity, a caller that finds the lock free can be served. */
  lemma AcquireServed(s: State, t: Thread) returns (s': State)
    requires Inv(s) && s.lock.None? && s.At(t).Idle? && |s.held| < s.capacity
    ensures Reachable(s, s') && s'.At(t).Idle? && |s'.held| == |s.held| + 1
  {
    ReachItself(s);
    if s.queue != [] {
      ReachOneMore(s, s, TryTake(t));
      s' := Apply(s, TryTake(t));
    } else {
      s' := MakeOne(s, s, t, s.count, |s.held|);
    }
  }
}
