/**
 * The pool of named items as a state machine over the steps of concurrent callers.
 * Its mutex is a channel holding one token, and each name has a channel of its own
 * that holds its item while no one uses it.
 */
module IndexedPool {

  type Thread = nat

  /** Items are numbered in the order in which they were constructed. */
  type Item = nat

  datatype PC =
    | Idle
    | Looking(name: string)       // in Acquire, holding the token
    | Waiting(name: string)       // blocked on the name's channel or on cancellation
    | Made(item: Item)            // constructed and registered an item, holding the token
    | Failed                      // constructor failed, holding the token
    | Releasing(item: Item)       // in Release, holding the token
    | Released                    // item given back, holding the token
  {
    predicate HoldsToken() {
      !Idle? && !Waiting?
    }

    /** The item is in the hands of this caller inside the critical section. */
    predicate Carries(x: Item) {
      (Made? || Releasing?) && item == x
    }
  }

  datatype State = State(
    tokens: nat,                        // the tokens in the mutex channel
    items: map<string, seq<Item>>,      // the channel of each registered name
    threads: map<Thread, PC>,
    held: multiset<Item>,               // items handed out and not given back
    names: seq<string>)                 // the name each item was constructed for
  {
    function At(t: Thread): PC {
      if t in threads then threads[t] else Idle
    }

    function Move(t: Thread, pc: PC): State {
      this.(threads := threads[t := pc])
    }
  }

  datatype Step =
    | AcquireLock(t: Thread, name: string) | Found(t: Thread) | Construct(t: Thread) | ConstructFails(t: Thread)
    | TakeItem(t: Thread) | WaitCancelled(t: Thread)
    | ReleaseLock(t: Thread, item: Item) | GiveBack(t: Thread)
    | Unlock(t: Thread)

  function Init(): State {
    State(1, map[], map[], multiset{}, [])
  }

  /** Sending the token back needs room in the mutex channel. */
  predicate CanUnlock(s: State) { s.tokens < 1 }

  /** Only a holder releases, and under the name it acquired the item by. */
  predicate Enabled(s: State, step: Step) {
    match step
    case AcquireLock(t, _) => s.At(t).Idle? && s.tokens > 0
    case Found(t) => s.At(t).Looking? && s.At(t).name in s.items && CanUnlock(s)
    case Construct(t) => s.At(t).Looking? && s.At(t).name !in s.items
    case ConstructFails(t) => s.At(t).Looking? && s.At(t).name !in s.items
    case TakeItem(t) => s.At(t).Waiting? && s.At(t).name in s.items && s.items[s.At(t).name] != []
    case WaitCancelled(t) => s.At(t).Waiting?
    case ReleaseLock(t, item) => s.At(t).Idle? && s.tokens > 0 && item in s.held
    case GiveBack(t) =>
      s.At(t).Releasing? && s.At(t).item < |s.names| && s.names[s.At(t).item] in s.items
      && |s.items[s.names[s.At(t).item]]| < 1
    case Unlock(t) => (s.At(t).Made? || s.At(t).Failed? || s.At(t).Released?) && CanUnlock(s)
  }

  function Apply(s: State, step: Step): State
    requires Enabled(s, step)
  {
    match step
    case AcquireLock(t, name) => s.(tokens := s.tokens - 1).Move(t, Looking(name))
    case Found(t) => s.(tokens := s.tokens + 1).Move(t, Waiting(s.At(t).name))
    case Construct(t) =>
      s.(items := s.items[s.At(t).name := []], names := s.names + [s.At(t).name]).Move(t, Made(|s.names|))
    case ConstructFails(t) => s.Move(t, Failed)
    case TakeItem(t) =>
      var ch := s.items[s.At(t).name];
      s.(items := s.items[s.At(t).name := ch[1..]], held := s.held + multiset{ch[0]}).Move(t, Idle)
    case WaitCancelled(t) => s.Move(t, Idle)
    case ReleaseLock(t, item) => s.(tokens := s.tokens - 1, held := s.held - multiset{item}).Move(t, Releasing(item))
    case GiveBack(t) =>
      var item := s.At(t).item;
      s.(items := s.items[s.names[item] := s.items[s.names[item]] + [item]]).Move(t, Released)
    case Unlock(t) =>
      s.(tokens := s.tokens + 1, held := if s.At(t).Made? then s.held + multiset{s.At(t).item} else s.held).Move(t, Idle)
  }

  ghost predicate Follows(s: State, s': State) {
    exists step :: Enabled(s, step) && s' == Apply(s, step)
  }

  ghost predicate IsRun(states: seq<State>) {
    |states| > 0 && states[0] == Init() &&
    forall i :: 0 <= i < |states| - 1 ==> Follows(states[i], states[i + 1])
  }

  // ----- the invariant

  /** There is one token: in the channel, or with exactly one caller. */
  ghost predicate OneToken(s: State) {
    && s.tokens <= 1
    && (forall t, u :: s.At(t).HoldsToken() && s.At(u).HoldsToken() ==> t == u)
    && (s.tokens == 1 ==> forall t :: !s.At(t).HoldsToken())
    && (s.tokens == 0 ==> exists t :: s.At(t).HoldsToken())
  }

  /** Each registered name was constructed once. */
  ghost predicate Registered(s: State) {
    && (forall j, k :: 0 <= j < |s.names| && 0 <= k < |s.names| && s.names[j] == s.names[k] ==> j == k)
    && (forall n :: n in s.items <==> n in s.names)
  }

  ghost predicate Carried(s: State, x: Item) {
    exists t :: s.At(t).Carries(x)
  }

  /** An item is in its channel, handed out, or carried inside the critical section: one of the three. */
  ghost predicate Placed(s: State, x: Item)
    requires x < |s.names| && s.names[x] in s.items
  {
    var ch := s.items[s.names[x]];
    || (ch == [x] && s.held[x] == 0 && !Carried(s, x))
    || (ch == [] && s.held[x] == 1 && !Carried(s, x))
    || (ch == [] && s.held[x] == 0 && Carried(s, x))
  }

  ghost predicate AllPlaced(s: State)
    requires Registered(s)
  {
    && (forall x :: 0 <= x < |s.names| ==> Placed(s, x))
    && (forall x: Item :: x in s.held || Carried(s, x) ==> x < |s.names|)
  }

  ghost predicate Inv(s: State) {
    OneToken(s) && Registered(s) && AllPlaced(s)
  }

  lemma OthersStay(s: State, step: Step)
    requires Enabled(s, step)
    ensures var s' := Apply(s, step);
            step.t in s'.threads && s'.At(step.t) == s'.threads[step.t] && forall u :: u != step.t ==> s'.At(u) == s.At(u)
  {
  }

  lemma OneTokenKept(s: State, step: Step)
    requires OneToken(s) && Enabled(s, step)
    ensures OneToken(Apply(s, step))
  {
    OthersStay(s, step);
    var s' := Apply(s, step);
    if s'.tokens == 0 {
      assert step.AcquireLock? || step.ReleaseLock? ==> s'.At(step.t).HoldsToken();
    }
  }

  /** What a step does to who carries an item. */
  lemma CarriedAfter(s: State, step: Step, x: Item)
    requires Inv(s) && Enabled(s, step)
    ensures var s' := Apply(s, step);
            Carried(s', x) <==> s'.At(step.t).Carries(x) || (Carried(s, x) && !s.At(step.t).Carries(x))
  {
    var s' := Apply(s, step);
    OthersStay(s, step);
    if Carried(s, x) {
      var t :| s.At(t).Carries(x);
      if t != step.t {
        assert s'.At(t).Carries(x);
      }
    }
    if s'.At(step.t).Carries(x) {
      assert Carried(s', x);
    }
  }

  /** The item in a name's channel is the one constructed for the name. */
  lemma ChannelHolds(s: State, n: string)
    requires Registered(s) && AllPlaced(s) && n in s.items && s.items[n] != []
    ensures var x := s.items[n][0];
            x < |s.names| && s.names[x] == n && s.items[n] == [x] && s.held[x] == 0 && !Carried(s, x)
  {
    var k :| 0 <= k < |s.names| && s.names[k] == n;
    assert Placed(s, k);
  }

  /** Steps that move no item. */
  predicate MovesNothing(step: Step) {
    step.AcquireLock? || step.Found? || step.ConstructFails? || step.WaitCancelled?
  }

  lemma PlacedStays(s: State, step: Step, x: Item)
    requires Inv(s) && Enabled(s, step) && MovesNothing(step) && x < |s.names|
    ensures Placed(Apply(s, step), x)
  {
    CarriedAfter(s, step, x);
    assert Placed(s, x);
  }

  lemma PlacedByTake(s: State, t: Thread, x: Item)
    requires Inv(s) && Enabled(s, TakeItem(t)) && x < |s.names|
    ensures Placed(Apply(s, TakeItem(t)), x)
  {
    CarriedAfter(s, TakeItem(t), x);
    assert Placed(s, x);
    ChannelHolds(s, s.At(t).name);
  }

  lemma PlacedByGiveBack(s: State, t: Thread, x: Item)
    requires Inv(s) && Enabled(s, GiveBack(t)) && x < |s.names|
    ensures Placed(Apply(s, GiveBack(t)), x)
  {
    CarriedAfter(s, GiveBack(t), x);
    assert Placed(s, x);
    assert s.At(t).Carries(s.At(t).item) && Placed(s, s.At(t).item);
  }

  lemma PlacedByHandOver(s: State, step: Step, x: Item)
    requires Inv(s) && Enabled(s, step) && (step.Unlock? || step.ReleaseLock?) && x < |s.names|
    ensures Placed(Apply(s, step), x)
  {
    CarriedAfter(s, step, x);
    assert Placed(s, x);
    if step.Unlock? && s.At(step.t).Made? {
      assert s.At(step.t).Carries(s.At(step.t).item);
    }
  }

  lemma PlacedByConstruct(s: State, t: Thread, x: Item)
    requires Inv(s) && Enabled(s, Construct(t)) && Registered(Apply(s, Construct(t))) && x <= |s.names|
    ensures Placed(Apply(s, Construct(t)), x)
  {
    CarriedAfter(s, Construct(t), x);
    if x < |s.names| {
      assert Placed(s, x);
    }
  }

  lemma PlacedKept(s: State, step: Step, x: Item)
    requires Inv(s) && Enabled(s, step) && Registered(Apply(s, step)) && x < |Apply(s, step).names|
    ensures Placed(Apply(s, step), x)
  {
    match step
    case TakeItem(t) => PlacedByTake(s, t, x);
    case GiveBack(t) => PlacedByGiveBack(s, t, x);
    case Unlock(_) => PlacedByHandOver(s, step, x);
    case ReleaseLock(_, _) => PlacedByHandOver(s, step, x);
    case Construct(t) => PlacedByConstruct(s, t, x);
    case _ => PlacedStays(s, step, x);
  }

  lemma AllPlacedKept(s: State, step: Step)
    requires Inv(s) && Enabled(s, step) && Registered(Apply(s, step))
    ensures AllPlaced(Apply(s, step))
  {
    var s' := Apply(s, step);
    forall x | 0 <= x < |s'.names| ensures Placed(s', x) {
      PlacedKept(s, step, x);
    }
    forall x: Item | x in s'.held || Carried(s', x) ensures x < |s'.names| {
      CarriedAfter(s, step, x);
      if step.TakeItem? {
        ChannelHolds(s, s.At(step.t).name);
      } else if step.Unlock? && s.At(step.t).Made? {
        assert s.At(step.t).Carries(s.At(step.t).item);
      }
    }
  }

  lemma InvKept(s: State, step: Step)
    requires Inv(s) && Enabled(s, step)
    ensures Inv(Apply(s, step))
  {
    OneTokenKept(s, step);
    AllPlacedKept(s, step);
  }

  /** Every state of every run without a reset satisfies the invariant. */
  lemma {:induction false} RunInv(states: seq<State>, i: nat)
    requires IsRun(states) && i < |states|
    ensures Inv(states[i])
    decreases i
  {
    if i > 0 {
      RunInv(states, i - 1);
      assert Follows(states[i - 1], states[i - 1 + 1]);
      var step :| Enabled(states[i - 1], step) && states[i] == Apply(states[i - 1], step);
      InvKept(states[i - 1], step);
    }
  }

  // ----- what every run keeps

  /** Each registered name has exactly one item, and it is queued, with one user, or in transit. */
  lemma OneItemPerName(states: seq<State>, i: nat, n: string) returns (x: Item)
    requires IsRun(states) && i < |states| && n in states[i].items
    ensures var s := states[i];
            && x < |s.names| && s.names[x] == n && (forall y: Item :: y < |s.names| && s.names[y] == n ==> y == x)
            && Placed(s, x)
  {
    RunInv(states, i);
    var s := states[i];
    x :| 0 <= x < |s.names| && s.names[x] == n;
  }

  /** No item is handed to two callers, and an item that is handed out is not in its channel. */
  lemma NeverShared(states: seq<State>, i: nat, x: Item)
    requires IsRun(states) && i < |states| && x in states[i].held
    ensures var s := states[i];
            s.held[x] == 1 && x < |s.names| && s.names[x] in s.items && s.items[s.names[x]] == []
  {
    RunInv(states, i);
    assert Placed(states[i], x);
  }

  /** Whoever holds the token can always give it back, and a release never blocks while holding it. */
  lemma NeverBlocksInside(states: seq<State>, i: nat, t: Thread)
    requires IsRun(states) && i < |states| && states[i].At(t).HoldsToken()
    ensures CanUnlock(states[i])
    ensures states[i].At(t).Releasing? ==> Enabled(states[i], GiveBack(t))
  {
    RunInv(states, i);
    var s := states[i];
    if s.At(t).Releasing? {
      assert s.At(t).Carries(s.At(t).item) && Carried(s, s.At(t).item);
      assert Placed(s, s.At(t).item);
    }
  }

  /** The token is never lost: someone can take it, or someone holds it and can move on. */
  lemma TokenConserved(states: seq<State>, i: nat)
    requires IsRun(states) && i < |states|
    ensures var s := states[i];
            if s.tokens == 1 then forall t :: !s.At(t).HoldsToken()
            else s.tokens == 0 && exists t, step :: s.At(t).HoldsToken() && Enabled(s, step) && step.t == t
  {
    RunInv(states, i);
    var s := states[i];
    if s.tokens == 0 {
      var t :| s.At(t).HoldsToken();
      NeverBlocksInside(states, i, t);
      var step := match s.At(t)
        case Looking(name) => if name in s.items then Found(t) else ConstructFails(t)
        case Releasing(_) => GiveBack(t)
        case _ => Unlock(t);
      assert Enabled(s, step) && step.t == t;
    }
  }

  /** Whatever a caller gets is the item of the name it asked for: taken from that name's channel, or constructed for it. */
  lemma HandedByName(states: seq<State>, i: nat, step: Step)
    requires IsRun(states) && i < |states| && Enabled(states[i], step)
    ensures var s, s' := states[i], Apply(states[i], step);
            match step
            case TakeItem(t) => exists x: Item :: x < |s.names| && s.names[x] == s.At(t).name && s'.held == s.held + multiset{x}
            case Construct(t) => s'.At(t).Made? && s'.At(t).item < |s'.names| && s'.names[s'.At(t).item] == s.At(t).name && s'.held == s.held
            case Unlock(t) => s'.held == if s.At(t).Made? then s.held + multiset{s.At(t).item} else s.held
            case ReleaseLock(_, item) => s'.held == s.held - multiset{item}
            case _ => s'.held == s.held
  {
    RunInv(states, i);
    var s := states[i];
    if step.TakeItem? {
      ChannelHolds(s, s.At(step.t).name);
      var x := s.items[s.At(step.t).name][0];
      assert Apply(s, step).held == s.held + multiset{x};
    }
  }
}
