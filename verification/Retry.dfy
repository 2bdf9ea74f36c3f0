/**
 * Retrying an HTTP request: the run of one request through the retrying transport, against
 * whatever the network, the clock and the caller's context do.
 */
module Retry {
  import opened Json

  const SECOND := 1000000000  // nanoseconds

  /**
   * A Retry-After header (section 10.2.3 of RFC 9110): a number of seconds, or a date, so many
   * nanoseconds ahead. For any other text it is given what number is read from it, if any.
   */
  datatype RetryAfter = Absent | Seconds(n: nat) | Date(ahead: int) | Other(read: Option<int64>)
  {
    /** The number the code reads, which is at most 64 bits wide. */
    function Read(): Option<int64> {
      match this
      case Seconds(n) => if n < 0x8000_0000_0000_0000 then Some(n as int64) else None
      case Other(read) => read
      case _ => None
    }

    /** The nanoseconds the server wants to be left alone for. */
    function Wanted(): Option<int> {
      match this
      case Seconds(n) => Some(n * SECOND)
      case Date(ahead) => Some(ahead)
      case _ => None
    }
  }

  /** An outcome of one send. */
  datatype Reply = NetworkError | Response(status: int, retryAfter: RetryAfter)

  /** A request: whether it has a body, and whether the body can be had again. */
  datatype Request = Request(hasBody: bool, getBody: bool)

  /** Everything outside the transport, by attempt. */
  datatype World = World(
    reply: nat -> Reply,          // what a send brings
    bodyFails: nat -> bool,       // whether restoring the body fails
    jitter: nat -> real -> real,  // the random part of a wait, given the delay it is for
    cancelled: nat -> bool)       // whether the context ends during a wait

  /** Jitter stays within half the delay either way. */
  ghost predicate Jitters(jitter: real -> real) {
    forall d :: d > 0.0 ==> -d / 2.0 <= jitter(d) <= d / 2.0
  }

  datatype Event = Send(attempt: nat) | Drain(attempt: nat) | Wait(attempt: nat)

  /** What the caller gets: the reply to an attempt, the error of restoring the body, or the context's error. */
  datatype Outcome = Returned(attempt: nat) | BodyError(attempt: nat) | Cancelled(attempt: nat)

  datatype Trace = Trace(outcome: Outcome, log: seq<Event>)

  // ----- configuration

  datatype RetryConfig = RetryConfig(
    maxRetries: int, retry: seq<int>, drop: seq<int>, success: seq<int>, initialInterval: int, maxInterval: int)

  datatype Backoff = Backoff(maxRetries: int, initialInterval: int, maxInterval: int)

  datatype Transport = Transport(
    maxRetries: int, retry: seq<int>, drop: seq<int>, success: seq<int>, initialInterval: int, maxInterval: int)
  {
    ghost predicate Valid() {
      && maxRetries > 0 && initialInterval > 0 && maxInterval > 0
      && Sorted(retry) && Sorted(drop) && Sorted(success)
    }
  }

  ghost predicate Sorted(xs: seq<int>) {
    forall i, j :: 0 <= i < j < |xs| ==> xs[i] <= xs[j]
  }

  function Insert(x: int, xs: seq<int>): seq<int> {
    if xs == [] || x <= xs[0] then [x] + xs else [xs[0]] + Insert(x, xs[1..])
  }

  function Sort(xs: seq<int>): seq<int> {
    if xs == [] then [] else Insert(xs[0], Sort(xs[1..]))
  }

  lemma {:induction false} InsertKeeps(x: int, xs: seq<int>)
    ensures multiset(Insert(x, xs)) == multiset(xs) + multiset{x}
  {
    if xs != [] && x > xs[0] {
      InsertKeeps(x, xs[1..]);
      assert xs == [xs[0]] + xs[1..];
    }
  }

  lemma SortedCons(x: int, xs: seq<int>)
    requires Sorted(xs) && (xs != [] ==> x <= xs[0])
    ensures Sorted([x] + xs)
  {
  }

  lemma {:induction false} InsertSorts(x: int, xs: seq<int>)
    requires Sorted(xs)
    ensures Sorted(Insert(x, xs))
  {
    if xs == [] || x <= xs[0] {
      SortedCons(x, xs);
    } else {
      InsertSorts(x, xs[1..]);
      SortedCons(xs[0], Insert(x, xs[1..]));
    }
  }

  lemma {:induction false} SortSorts(xs: seq<int>)
    ensures Sorted(Sort(xs)) && multiset(Sort(xs)) == multiset(xs)
  {
    if xs != [] {
      SortSorts(xs[1..]);
      InsertKeeps(xs[0], Sort(xs[1..]));
      InsertSorts(xs[0], Sort(xs[1..]));
      assert xs == [xs[0]] + xs[1..];
    }
  }

  function OrElse(x: int, fallback: int): int {
    if x <= 0 then fallback else x
  }

  /** The transport for a retry configuration, or for the field settings alone, when only 429 is retried. */
  function NewTransport(fields: Backoff, config: Option<RetryConfig>): Transport {
    match config
    case Some(c) =>
      Transport(OrElse(c.maxRetries, 3), Sort(c.retry), Sort(c.drop), Sort(c.success),
                OrElse(if c.initialInterval == 0 then fields.initialInterval else c.initialInterval, SECOND),
                OrElse(if c.maxInterval == 0 then fields.maxInterval else c.maxInterval, 30 * SECOND))
    case None =>
      Transport(OrElse(fields.maxRetries, 3), [429], [], [],
                OrElse(fields.initialInterval, SECOND), OrElse(fields.maxInterval, 30 * SECOND))
  }

  /** A setting, or what stands in for it when it is not positive. */
  ghost predicate Set(x: int, setting: int, standIn: int) {
    if setting > 0 then x == setting else x == standIn
  }

  /**
   * Every configuration gives a transport that retries, waits and has its lists in order, with the same
   * statuses, or 429 alone without a list; with 3 retries, 1 second and 30 seconds where nothing is set.
   */
  lemma NewTransportValid(fields: Backoff, config: Option<RetryConfig>)
    ensures var t := NewTransport(fields, config);
            && t.Valid()
            && (config.None? ==>
                  && t.retry == [429] && t.drop == [] && t.success == [] && Set(t.maxRetries, fields.maxRetries, 3)
                  && Set(t.initialInterval, fields.initialInterval, 1000000000) && Set(t.maxInterval, fields.maxInterval, 30000000000))
            && (config.Some? ==>
                  && Set(t.maxRetries, config.value.maxRetries, 3)
                  && Set(t.initialInterval, if config.value.initialInterval == 0 then fields.initialInterval else config.value.initialInterval,
                         1000000000)
                  && Set(t.maxInterval, if config.value.maxInterval == 0 then fields.maxInterval else config.value.maxInterval, 30000000000))
            && (config.Some? ==>
                  && multiset(t.retry) == multiset(config.value.retry)
                  && multiset(t.drop) == multiset(config.value.drop)
                  && multiset(t.success) == multiset(config.value.success))
  {
    if config.Some? {
      SortSorts(config.value.retry);
      SortSorts(config.value.drop);
      SortSorts(config.value.success);
    }
  }

  method Contains(sorted: seq<int>, v: int) returns (found: bool)
    requires Sorted(sorted)
    ensures found <==> v in sorted
  {
    var i, j := 0, |sorted|;
    while i < j
      invariant 0 <= i <= j <= |sorted|
      invariant forall k :: 0 <= k < i ==> sorted[k] < v
      invariant forall k :: j <= k < |sorted| ==> v <= sorted[k]
    {
      var h := (i + j) / 2;
      if sorted[h] < v {
        i := h + 1;
      } else {
        j := h;
      }
    }
    found := i < |sorted| && sorted[i] == v;
  }

  // ----- waiting

  function Doubled(interval: real, attempt: nat): real {
    if attempt == 0 then interval else 2.0 * Doubled(interval, attempt - 1)
  }

  function CalculateBackoff(t: Transport, attempt: nat, jitter: real -> real): int {
    var grown := Doubled(t.initialInterval as real, attempt);
    var delay := if grown > t.maxInterval as real then t.maxInterval as real else grown;
    var jittered := delay + jitter(delay);
    (if jittered < 0.0 then 0.0 else jittered).Floor
  }

  /** Nanoseconds in the seconds asked for, as the 64-bit product the code computes. */
  function Asked(seconds: int64): int {
    Wrap64(seconds as int * SECOND) as int
  }

  function Delay(t: Transport, attempt: nat, jitter: real -> real, reply: Reply): int {
    var delay := CalculateBackoff(t, attempt, jitter);
    if reply.Response? && reply.retryAfter.Read().Some? && reply.retryAfter.Read().value > 0 then
      var asked := Asked(reply.retryAfter.Read().value);
      var capped := if asked < t.maxInterval then asked else t.maxInterval;
      if capped > delay then capped else delay
    else delay
  }

  // ----- the run

  predicate Retryable(t: Transport, reply: Reply) {
    reply.Response? ==> reply.status in t.retry && reply.status !in t.drop && reply.status !in t.success
  }

  /** The events of an attempt that is followed by a wait. */
  function Round(w: World, attempt: nat): seq<Event> {
    [Send(attempt)] + (if w.reply(attempt).Response? then [Drain(attempt)] else []) + [Wait(attempt)]
  }

  /** What happens from the given attempt on. */
  function Run(t: Transport, req: Request, w: World, attempt: nat): Trace
    requires attempt <= t.maxRetries
    decreases t.maxRetries - attempt
  {
    if attempt > 0 && req.getBody && w.bodyFails(attempt) then Trace(BodyError(attempt), [])
    else if attempt > 0 && !req.getBody && req.hasBody then Trace(Returned(attempt - 1), [])
    else if !Retryable(t, w.reply(attempt)) || attempt == t.maxRetries then Trace(Returned(attempt), [Send(attempt)])
    else if w.cancelled(attempt) then Trace(Cancelled(attempt), Round(w, attempt))
    else
      var rest := Run(t, req, w, attempt + 1);
      Trace(rest.outcome, Round(w, attempt) + rest.log)
  }

  function After(log: seq<Event>, rest: Trace): Trace {
    Trace(rest.outcome, log + rest.log)
  }

  lemma RoundIs(t: Transport, req: Request, w: World, log: seq<Event>, attempt: nat)
    requires attempt < t.maxRetries && Retryable(t, w.reply(attempt))
    requires attempt > 0 ==> if req.getBody then !w.bodyFails(attempt) else !req.hasBody
    ensures Round(w, attempt) ==
            if w.reply(attempt).Response? then [Send(attempt), Drain(attempt), Wait(attempt)]
            else [Send(attempt), Wait(attempt)]
    ensures After(log, Run(t, req, w, attempt)) ==
            if w.cancelled(attempt) then Trace(Cancelled(attempt), log + Round(w, attempt))
            else After(log + Round(w, attempt), Run(t, req, w, attempt + 1))
  {
  }

  method Classify(t: Transport, reply: Reply) returns (retry: bool)
    requires t.Valid()
    ensures reply.NetworkError? ==> retry
    ensures reply.Response? ==> (retry <==> reply.status in t.retry && reply.status !in t.drop && reply.status !in t.success)
  {
    if reply.NetworkError? {
      return true;
    }
    var success := Contains(t.success, reply.status);
    if success {
      return false;
    }
    var drop := Contains(t.drop, reply.status);
    if drop {
      return false;
    }
    retry := Contains(t.retry, reply.status);
  }

  method RoundTrip(t: Transport, req: Request, w: World) returns (outcome: Outcome, log: seq<Event>)
    requires t.Valid()
    ensures Trace(outcome, log) == Run(t, req, w, 0)
  {
    log := [];
    var attempt := 0;
    while true
      invariant 0 <= attempt <= t.maxRetries
      invariant Run(t, req, w, 0) == After(log, Run(t, req, w, attempt))
      decreases t.maxRetries - attempt
    {
      if attempt > 0 {
        if req.getBody {
          if w.bodyFails(attempt) {
            assert log + [] == log;
            return BodyError(attempt), log;
          }
        } else if req.hasBody {
          assert log + [] == log;
          return Returned(attempt - 1), log;
        }
      }
      var reply := w.reply(attempt);
      var retry := Classify(t, reply);
      if !retry || attempt == t.maxRetries {
        return Returned(attempt), log + [Send(attempt)];
      }
      RoundIs(t, req, w, log, attempt);
      if reply.Response? {
        log := log + [Send(attempt), Drain(attempt), Wait(attempt)];
      } else {
        log := log + [Send(attempt), Wait(attempt)];
      }
      if w.cancelled(attempt) {
        return Cancelled(attempt), log;
      }
      attempt := attempt + 1;
    }
  }

  // ----- what is sent

  /** What is worth another attempt: a network error, or a status to retry on that is neither dropped nor a success. */
  ghost predicate Worth(t: Transport, reply: Reply) {
    match reply
    case NetworkError => true
    case Response(status, _) => status in t.retry && status !in t.drop && status !in t.success
  }

  /** Whether attempt a is followed by another. */
  ghost predicate Resent(t: Transport, req: Request, w: World, a: nat) {
    && Worth(t, w.reply(a)) && !w.cancelled(a)
    && if req.getBody then !w.bodyFails(a + 1) else !req.hasBody
  }

  lemma {:induction false} SentFrom(t: Transport, req: Request, w: World, attempt: nat, k: nat)
    requires attempt <= t.maxRetries && attempt <= k
    requires attempt > 0 ==> Resent(t, req, w, attempt - 1)
    ensures Send(k) in Run(t, req, w, attempt).log <==>
            k <= t.maxRetries && forall a :: attempt <= a < k ==> Resent(t, req, w, a)
    decreases t.maxRetries - attempt
  {
    if attempt < k && !Resent(t, req, w, attempt) {
      if Retryable(t, w.reply(attempt)) && attempt < t.maxRetries && !w.cancelled(attempt) {
        assert Run(t, req, w, attempt + 1).log == [];
      }
    } else if attempt < k && attempt < t.maxRetries {
      SentFrom(t, req, w, attempt + 1, k);
    }
  }

  /**
   * Attempt k is made exactly when the retries allow it and every earlier attempt brought a
   * network error or a retryable status, was not cancelled and left a body that could be restored.
   */
  lemma SentIff(t: Transport, req: Request, w: World, k: nat)
    requires t.Valid()
    ensures Send(k) in Run(t, req, w, 0).log <==>
            k <= t.maxRetries && forall a :: 0 <= a < k ==> Resent(t, req, w, a)
  {
    SentFrom(t, req, w, 0, k);
  }

  /** A response that is a success, or dropped, or not to be retried on is never followed by another attempt. */
  lemma NotFollowed(t: Transport, req: Request, w: World, a: nat, k: nat)
    requires t.Valid() && w.reply(a).Response? && a < k
    requires var status := w.reply(a).status; status in t.success || status in t.drop || status !in t.retry
    ensures Send(k) !in Run(t, req, w, 0).log
  {
    SentIff(t, req, w, k);
    assert !Resent(t, req, w, a);
  }

  /** What the attempt made last leads to, given that it was made. */
  ghost function Ending(t: Transport, req: Request, w: World, k: nat): Outcome {
    if k == t.maxRetries || !Worth(t, w.reply(k)) then Returned(k)
    else if w.cancelled(k) then Cancelled(k)
    else if req.getBody then BodyError(k + 1)
    else Returned(k)
  }

  lemma {:induction false} EndsFrom(t: Transport, req: Request, w: World, attempt: nat, k: nat)
    requires attempt <= k && attempt <= t.maxRetries
    requires attempt > 0 ==> Resent(t, req, w, attempt - 1)
    requires Send(k) in Run(t, req, w, attempt).log && Send(k + 1) !in Run(t, req, w, attempt).log
    ensures Run(t, req, w, attempt).outcome == Ending(t, req, w, k)
    decreases t.maxRetries - attempt
  {
    SentFrom(t, req, w, attempt, k);
    SentFrom(t, req, w, attempt, k + 1);
    if attempt < k {
      assert Resent(t, req, w, attempt);
      EndsFrom(t, req, w, attempt + 1, k);
    } else if k < t.maxRetries {
      assert !Resent(t, req, w, k);
    }
  }

  /** The outcome is what the last attempt made leads to. */
  lemma OutcomeIs(t: Transport, req: Request, w: World, k: nat)
    requires t.Valid() && Send(k) in Run(t, req, w, 0).log && Send(k + 1) !in Run(t, req, w, 0).log
    ensures Run(t, req, w, 0).outcome == Ending(t, req, w, k)
  {
    EndsFrom(t, req, w, 0, k);
  }

  lemma {:induction false} WaitsAfterFrom(t: Transport, req: Request, w: World, attempt: nat, a: nat)
    requires attempt <= a && attempt <= t.maxRetries
    ensures var log := Run(t, req, w, attempt).log;
            && (Wait(a) in log <==> Send(a) in log && a < t.maxRetries && Worth(t, w.reply(a)))
            && (Drain(a) in log <==> Wait(a) in log && w.reply(a).Response?)
    decreases t.maxRetries - attempt
  {
    var log := Run(t, req, w, attempt).log;
    if |log| > 1 && !w.cancelled(attempt) {
      var rest := Run(t, req, w, attempt + 1).log;
      assert log == Round(w, attempt) + rest;
      if attempt < a {
        WaitsAfterFrom(t, req, w, attempt + 1, a);
      } else {
        NothingEarlier(t, req, w, attempt + 1, a);
      }
    }
  }

  lemma {:induction false} NothingEarlier(t: Transport, req: Request, w: World, attempt: nat, a: nat)
    requires a < attempt <= t.maxRetries
    ensures var log := Run(t, req, w, attempt).log;
            Send(a) !in log && Wait(a) !in log && Drain(a) !in log
    decreases t.maxRetries - attempt
  {
    if |Run(t, req, w, attempt).log| > 1 && !w.cancelled(attempt) {
      NothingEarlier(t, req, w, attempt + 1, a);
    }
  }

  /** An attempt is waited after exactly when it is worth another and one is left; a response is then drained, and only then. */
  lemma WaitsIff(t: Transport, req: Request, w: World, a: nat)
    requires t.Valid()
    ensures var log := Run(t, req, w, 0).log;
            && (Wait(a) in log <==> Send(a) in log && a < t.maxRetries && Worth(t, w.reply(a)))
            && (Drain(a) in log <==> Wait(a) in log && w.reply(a).Response?)
  {
    WaitsAfterFrom(t, req, w, 0, a);
  }

  /** A body that cannot be had again is sent at most once. */
  lemma BodySentOnce(t: Transport, req: Request, w: World, k: nat)
    requires t.Valid() && req.hasBody && !req.getBody
    ensures Send(k) in Run(t, req, w, 0).log <==> k == 0
  {
    SentIff(t, req, w, k);
    assert !Resent(t, req, w, 0);
  }

  function Sends(log: seq<Event>): seq<nat> {
    if log == [] then []
    else (if log[0].Send? then [log[0].attempt] else []) + Sends(log[1..])
  }

  lemma EventThen(t: Transport, w: World, e: Event, log: seq<Event>)
    ensures Sends([e] + log) == (if e.Send? then [e.attempt] else []) + Sends(log)
    ensures TotalWait(t, w, [e] + log) == (if e.Wait? then Duration(t, w, e.attempt) else 0) + TotalWait(t, w, log)
  {
    assert ([e] + log)[1..] == log;
  }

  lemma RoundThen(t: Transport, w: World, attempt: nat, log: seq<Event>)
    ensures Sends(Round(w, attempt) + log) == [attempt] + Sends(log)
    ensures TotalWait(t, w, Round(w, attempt) + log) == Duration(t, w, attempt) + TotalWait(t, w, log)
  {
    EventThen(t, w, Wait(attempt), log);
    var tail := [Wait(attempt)] + log;
    if w.reply(attempt).Response? {
      EventThen(t, w, Drain(attempt), tail);
      tail := [Drain(attempt)] + tail;
    }
    EventThen(t, w, Send(attempt), tail);
    assert Round(w, attempt) + log == [Send(attempt)] + tail;
  }

  /** The attempts are made one after another, each once, and no more than one over the retries. */
  lemma {:induction false} SendsInOrder(t: Transport, req: Request, w: World, attempt: nat)
    requires attempt <= t.maxRetries
    ensures var sends := Sends(Run(t, req, w, attempt).log);
            && attempt + |sends| <= t.maxRetries + 1
            && forall i :: 0 <= i < |sends| ==> sends[i] == attempt + i
    decreases t.maxRetries - attempt
  {
    var run := Run(t, req, w, attempt);
    if |run.log| > 1 {
      if w.cancelled(attempt) {
        RoundThen(t, w, attempt, []);
        assert Round(w, attempt) + [] == Round(w, attempt);
      } else {
        RoundThen(t, w, attempt, Run(t, req, w, attempt + 1).log);
        SendsInOrder(t, req, w, attempt + 1);
      }
    }
  }

  // ----- how long it waits

  /** How long the wait after an attempt lasts. */
  function Duration(t: Transport, w: World, attempt: nat): int {
    Delay(t, attempt, w.jitter(attempt), w.reply(attempt))
  }

  function TotalWait(t: Transport, w: World, log: seq<Event>): int {
    if log == [] then 0
    else (if log[0].Wait? then Duration(t, w, log[0].attempt) else 0) + TotalWait(t, w, log[1..])
  }

  lemma {:induction false} DoubledGrows(interval: real, attempt: nat)
    requires interval > 0.0
    ensures Doubled(interval, attempt) >= interval
  {
    if attempt > 0 {
      DoubledGrows(interval, attempt - 1);
    }
  }

  /** The code's jitter: a draw between 0 and 1, less a half, times the delay. */
  function Drawn(draw: real, delay: real): real {
    (draw - 0.5) * delay
  }

  lemma DrawJitters(draw: real)
    requires 0.0 <= draw < 1.0
    ensures Jitters((delay: real) => Drawn(draw, delay))
  {
    var jitter := (delay: real) => Drawn(draw, delay);
    forall d | d > 0.0 ensures -d / 2.0 <= jitter(d) <= d / 2.0 {
      assert jitter(d) == Drawn(draw, d);
    }
  }

  /** The backoff before jitter. */
  function Base(t: Transport, attempt: nat): real {
    var grown := Doubled(t.initialInterval as real, attempt);
    if grown > t.maxInterval as real then t.maxInterval as real else grown
  }

  /** The backoff is between half and one and a half times the doubled interval, capped, in whole nanoseconds. */
  lemma BackoffBounds(t: Transport, attempt: nat, jitter: real -> real)
    requires t.Valid() && Jitters(jitter)
    ensures var backoff := CalculateBackoff(t, attempt, jitter);
            && Base(t, attempt) - 2.0 < 2.0 * backoff as real <= 3.0 * Base(t, attempt)
            && 0 <= 2 * backoff <= 3 * t.maxInterval
  {
    DoubledGrows(t.initialInterval as real, attempt);
    var delay := Base(t, attempt);
  }

  function Pow2(n: nat): nat {
    if n == 0 then 1 else 2 * Pow2(n - 1)
  }

  lemma {:induction false} DoubledIs(interval: real, attempt: nat)
    ensures Doubled(interval, attempt) == interval * Pow2(attempt) as real
  {
    if attempt > 0 {
      DoubledIs(interval, attempt - 1);
      assert 2.0 * (interval * Pow2(attempt - 1) as real) == interval * (2.0 * Pow2(attempt - 1) as real);
    }
  }

  /** The backoff is 2^attempt times the first interval, or the longest one if that is less, and the jitter, in whole nanoseconds. */
  lemma BackoffIs(t: Transport, attempt: nat, jitter: real -> real)
    requires t.Valid() && Jitters(jitter)
    ensures var grown := t.initialInterval as real * Pow2(attempt) as real;
            var delay := if grown <= t.maxInterval as real then grown else t.maxInterval as real;
            var backoff := CalculateBackoff(t, attempt, jitter) as real;
            backoff <= delay + jitter(delay) < backoff + 1.0
  {
    DoubledIs(t.initialInterval as real, attempt);
    DoubledGrows(t.initialInterval as real, attempt);
    var delay := Base(t, attempt);
    assert delay > 0.0 && delay + jitter(delay) >= 0.0;
  }

  /**
   * A wait lasts for the backoff, or for the seconds the server asks for, up to the longest interval, if
   * that is longer; a header that is no number of 64 bits counts for nothing.
   */
  lemma DelayIs(t: Transport, attempt: nat, jitter: real -> real, status: int, header: RetryAfter)
    requires t.Valid()
    ensures Delay(t, attempt, jitter, NetworkError) == CalculateBackoff(t, attempt, jitter)
    ensures header.Absent? || header.Date? || header == Seconds(0) || (header.Seconds? && header.n >= 0x8000_0000_0000_0000) ==>
              Delay(t, attempt, jitter, Response(status, header)) == CalculateBackoff(t, attempt, jitter)
    ensures header.Seconds? && 0 < header.n <= 9223372036 ==>
              var backoff := CalculateBackoff(t, attempt, jitter);
              var asked := if header.n * 1000000000 <= t.maxInterval then header.n * 1000000000 else t.maxInterval;
              Delay(t, attempt, jitter, Response(status, header)) == if asked <= backoff then backoff else asked
  {
  }

  /** A wait is never negative nor longer than one and a half times the longest interval. */
  lemma DelayBounds(t: Transport, attempt: nat, jitter: real -> real, reply: Reply)
    requires t.Valid() && Jitters(jitter)
    ensures 0 <= 2 * Delay(t, attempt, jitter, reply) <= 3 * t.maxInterval
  {
    BackoffBounds(t, attempt, jitter);
  }

  function Times(n: nat, x: int): int {
    if n == 0 then 0 else x + Times(n - 1, x)
  }

  lemma {:induction false} TimesIs(n: nat, x: int)
    ensures Times(n, x) == n * x
  {
    if n > 0 {
      TimesIs(n - 1, x);
    }
  }

  lemma {:induction false} WaitsFrom(t: Transport, req: Request, w: World, attempt: nat)
    requires t.Valid() && attempt <= t.maxRetries && forall a :: Jitters(w.jitter(a))
    ensures 0 <= 2 * TotalWait(t, w, Run(t, req, w, attempt).log) <= Times(t.maxRetries - attempt, 3 * t.maxInterval)
    decreases t.maxRetries - attempt
  {
    var run := Run(t, req, w, attempt);
    DelayBounds(t, attempt, w.jitter(attempt), w.reply(attempt));
    if attempt < t.maxRetries {
      WaitsFrom(t, req, w, attempt + 1);
      RoundThen(t, w, attempt, []);
      assert Round(w, attempt) + [] == Round(w, attempt);
      RoundThen(t, w, attempt, Run(t, req, w, attempt + 1).log);
    }
  }

  /** All waits together take at most one and a half times the longest interval per retry. */
  lemma WaitBounded(t: Transport, req: Request, w: World)
    requires t.Valid() && forall a :: Jitters(w.jitter(a))
    ensures 0 <= 2 * TotalWait(t, w, Run(t, req, w, 0).log) <= t.maxRetries * (3 * t.maxInterval)
  {
    WaitsFrom(t, req, w, 0);
    TimesIs(t.maxRetries, 3 * t.maxInterval);
  }

  /** A wait after a response is as long as the server wants, or as long as the longest interval. */
  ghost predicate Honoured(t: Transport, attempt: nat, header: RetryAfter, status: int, jitter: real -> real)
    requires header.Wanted().Some?
  {
    var wait := Delay(t, attempt, jitter, Response(status, header));
    wait >= header.Wanted().value || wait >= t.maxInterval
  }

  /** The shortest backoff that jitter can give. */
  function Least(t: Transport, attempt: nat): int {
    (Base(t, attempt) / 2.0).Floor
  }

  lemma LeastIs(t: Transport, attempt: nat)
    requires t.Valid()
    ensures Jitters((delay: real) => -delay / 2.0)
    ensures CalculateBackoff(t, attempt, (delay: real) => -delay / 2.0) == Least(t, attempt) < t.maxInterval
    ensures forall jitter :: Jitters(jitter) ==> CalculateBackoff(t, attempt, jitter) >= Least(t, attempt) >= 0
  {
    DoubledGrows(t.initialInterval as real, attempt);
    var jitter := (delay: real) => -delay / 2.0;
    forall d | d > 0.0 ensures -d / 2.0 <= jitter(d) <= d / 2.0 {
    }
    assert Base(t, attempt) > 0.0;
  }

  /**
   * A server is left alone for as long as it wants, up to the longest interval and whatever the
   * jitter, exactly in these cases: it gives seconds that fit 64 bits of nanoseconds; it gives more,
   * still a 64-bit number, and what is left of the product reaches the longest interval anyway; or it
   * gives a date, which the code does not read, and the shortest backoff lasts until then.
   */
  lemma RetryAfterIff(t: Transport, attempt: nat, header: RetryAfter, status: int)
    requires t.Valid() && t.maxInterval < 0x8000_0000_0000_0000 && header.Wanted().Some?
    ensures (forall jitter :: Jitters(jitter) ==> Honoured(t, attempt, header, status, jitter)) <==>
            match header
            case Seconds(n) => n <= 9223372036 || (n < 0x8000_0000_0000_0000 && Asked(n as int64) >= t.maxInterval)
            case Date(ahead) => ahead <= Least(t, attempt)
            case _ => true
  {
    LeastIs(t, attempt);
    var jitter := (delay: real) => -delay / 2.0;
    if header.Date? {
      assert Delay(t, attempt, jitter, Response(status, header)) == Least(t, attempt);
      assert Honoured(t, attempt, header, status, jitter) <==> header.ahead <= Least(t, attempt);
    } else if header.n <= 9223372036 || (header.n < 0x8000_0000_0000_0000 && Asked(header.n as int64) >= t.maxInterval) {
      forall jitter | Jitters(jitter) ensures Honoured(t, attempt, header, status, jitter) {
      }
    } else {
      assert !Honoured(t, attempt, header, status, jitter);
    }
  }

  /** A server asking for 9223372037 seconds is not waited for: the product wraps below zero. */
  lemma RetryAfterWraps(t: Transport, attempt: nat, jitter: real -> real, status: int)
    requires t.Valid() && Jitters(jitter)
    ensures Delay(t, attempt, jitter, Response(status, Seconds(9223372037))) == CalculateBackoff(t, attempt, jitter)
  {
    BackoffBounds(t, attempt, jitter);
    assert Asked(9223372037) < 0;
  }

  // ----- what is drained

  ghost predicate DrainedBefore(w: World, log: seq<Event>, i: nat)
    requires i < |log|
  {
    log[i].Wait? && w.reply(log[i].attempt).Response? ==> i > 0 && log[i - 1] == Drain(log[i].attempt)
  }

  /** A response is read to its end and closed before the wait that follows it. */
  lemma {:induction false} DrainedBeforeWait(t: Transport, req: Request, w: World, attempt: nat, i: nat)
    requires attempt <= t.maxRetries && i < |Run(t, req, w, attempt).log|
    ensures DrainedBefore(w, Run(t, req, w, attempt).log, i)
    decreases t.maxRetries - attempt
  {
    var log, round := Run(t, req, w, attempt).log, Round(w, attempt);
    if |log| > 1 && i >= |round| {
      DrainedBeforeWait(t, req, w, attempt + 1, i - |round|);
    }
  }

  /** The case in which the response handed back has been drained and closed. */
  ghost predicate GivenUp(t: Transport, req: Request, w: World) {
    && req.hasBody && !req.getBody
    && w.reply(0).Response? && Worth(t, w.reply(0)) && !w.cancelled(0)
  }

  lemma {:induction false} ReturnedOpen(t: Transport, req: Request, w: World, attempt: nat)
    requires attempt <= t.maxRetries && (req.getBody || !req.hasBody)
    ensures var run := Run(t, req, w, attempt);
            run.outcome.Returned? ==> run.outcome.attempt >= attempt && Drain(run.outcome.attempt) !in run.log
    decreases t.maxRetries - attempt
  {
    var run := Run(t, req, w, attempt);
    if |run.log| > 1 && !w.cancelled(attempt) {
      ReturnedOpen(t, req, w, attempt + 1);
    }
  }

  /**
   * The response handed back can still be read, unless the request has a body that cannot be
   * had again and its only response was retryable: then the transport drains it, waits, and
   * returns it closed.
   */
  lemma ReturnedDrainedIff(t: Transport, req: Request, w: World)
    requires t.Valid()
    ensures var run := Run(t, req, w, 0);
            run.outcome.Returned? && Drain(run.outcome.attempt) in run.log <==> GivenUp(t, req, w)
  {
    if req.getBody || !req.hasBody {
      ReturnedOpen(t, req, w, 0);
    } else if Retryable(t, w.reply(0)) && !w.cancelled(0) {
      var run := Run(t, req, w, 0);
      assert Run(t, req, w, 1) == Trace(Returned(0), []);
      assert run == Trace(Returned(0), Round(w, 0));
      if w.reply(0).Response? {
        assert run.log[1] == Drain(0);
      }
    }
  }
}
