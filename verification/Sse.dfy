/** The parser of the A2A client's server-sent event stream. */
module Sse {
  import opened Json

  // ----- white space

  predicate IsSpace(c: char) {
    || '\t' <= c <= '\r' || c == ' ' || c == '\U{0085}' || c == '\U{00A0}' || c == '\U{1680}'
    || '\U{2000}' <= c <= '\U{200A}' || c == '\U{2028}' || c == '\U{2029}' || c == '\U{202F}'
    || c == '\U{205F}' || c == '\U{3000}'
  }

  function TrimLeft(s: string): string {
    if s != [] && IsSpace(s[0]) then TrimLeft(s[1..]) else s
  }

  function TrimRight(s: string): string {
    if s != [] && IsSpace(s[|s| - 1]) then TrimRight(s[..|s| - 1]) else s
  }

  function Trim(s: string): string {
    TrimRight(TrimLeft(s))
  }

  lemma {:induction false} TrimLeftShrinks(s: string)
    ensures TrimLeft(s) == s || |TrimLeft(s)| < |s|
  {
    if s != [] && IsSpace(s[0]) {
      TrimLeftShrinks(s[1..]);
    }
  }

  lemma {:induction false} TrimRightShrinks(s: string)
    ensures TrimRight(s) == s || |TrimRight(s)| < |s|
  {
    if s != [] && IsSpace(s[|s| - 1]) {
      TrimRightShrinks(s[..|s| - 1]);
    }
  }

  lemma TrimShrinks(s: string)
    ensures Trim(s) == s || |Trim(s)| < |s|
  {
    TrimLeftShrinks(s);
    TrimRightShrinks(TrimLeft(s));
  }

  lemma TrimPadding(s: string)
    ensures Trim(" " + s) == Trim(s)
  {
    assert (" " + s)[1..] == s;
  }

  // ----- the parser

  datatype Parser = Parser(kind: string, data: string)

  datatype Event = Event(kind: string, data: string)

  const IDLE := Parser("", "")

  /** Data lines are joined by line breaks, but one is dropped while there is nothing to join it to. */
  function AddData(data: string, line: string): string {
    if |data| > 0 then data + "\n" + line else line
  }

  function Next(p: Parser, line: string): Parser {
    if "event:" <= line then p.(kind := Trim(line[6..]))
    else if "data:" <= line then p.(data := AddData(p.data, Trim(line[5..])))
    else if line == "" && |p.data| > 0 then IDLE
    else p
  }

  function Dispatched(p: Parser, line: string): seq<Event> {
    if line == "" && |p.data| > 0 then [Event(p.kind, p.data)] else []
  }

  function After(p: Parser, lines: seq<string>): Parser {
    if lines == [] then p else Next(After(p, lines[..|lines| - 1]), lines[|lines| - 1])
  }

  /** The events dispatched by a parser over some lines. */
  function Events(p: Parser, lines: seq<string>): seq<Event> {
    if lines == [] then []
    else
      var init := lines[..|lines| - 1];
      Events(p, init) + Dispatched(After(p, init), lines[|lines| - 1])
  }

  // ----- delivery

  datatype Parsed<T> = Item(item: T) | Ignored | Malformed

  datatype Yield<T> = Delivered(item: T) | ParseError(kind: string) | ReadError | ContextError

  /** What is outside the parser: the decoding of events, the receiver, the context and the connection. */
  datatype Stream<!T> = Stream(
    lines: seq<string>,
    decode: Event -> Parsed<T>,
    wantsMore: nat -> bool,    // whether the receiver goes on after the n-th item
    cancelled: nat -> bool,    // whether the context has ended when line n is read
    broken: bool)              // whether reading ends in an error

  datatype Delivery<T> = Delivery(out: seq<Yield<T>>, stopped: bool)

  /** Delivering events in order, until one is malformed or the receiver has enough. */
  function Deliver<T>(s: Stream<T>, events: seq<Event>): Delivery<T> {
    if events == [] then Delivery([], false)
    else
      var before, last := Deliver(s, events[..|events| - 1]), events[|events| - 1];
      if before.stopped then before
      else
        match s.decode(last)
        case Item(x) => Delivery(before.out + [Delivered(x)], !s.wantsMore(|before.out|))
        case Ignored => before
        case Malformed => Delivery(before.out + [ParseError(last.kind)], true)
  }

  /** The number of lines read before the context is seen to have ended. */
  function Alive<T>(s: Stream<T>, n: nat): (r: nat)
    requires n <= |s.lines|
    ensures n <= r <= |s.lines|
    ensures forall i :: n <= i < r ==> !s.cancelled(i)
    ensures r < |s.lines| ==> s.cancelled(r)
    decreases |s.lines| - n
  {
    if n < |s.lines| && !s.cancelled(n) then Alive(s, n + 1) else n
  }

  function Yields<T>(s: Stream<T>): seq<Yield<T>> {
    var n := Alive(s, 0);
    var d := Deliver(s, Events(IDLE, s.lines[..n]));
    if d.stopped then d.out
    else if n < |s.lines| then d.out + [ContextError]
    else if s.broken then d.out + [ReadError]
    else d.out
  }

  lemma {:induction false} StoppedStays<T>(s: Stream<T>, events: seq<Event>, more: seq<Event>)
    requires Deliver(s, events).stopped
    ensures Deliver(s, events + more) == Deliver(s, events)
  {
    if more == [] {
      assert events + more == events;
    } else {
      var init := more[..|more| - 1];
      StoppedStays(s, events, init);
      assert (events + more)[..|events + more| - 1] == events + init;
    }
  }

  // ----- splitting a stream

  lemma {:induction false} SplitAfter(p: Parser, a: seq<string>, b: seq<string>)
    ensures After(p, a + b) == After(After(p, a), b)
  {
    if b == [] {
      assert a + b == a;
    } else {
      SplitAfter(p, a, b[..|b| - 1]);
      assert (a + b)[..|a + b| - 1] == a + b[..|b| - 1];
    }
  }

  lemma {:induction false} Split(p: Parser, a: seq<string>, b: seq<string>)
    ensures After(p, a + b) == After(After(p, a), b)
    ensures Events(p, a + b) == Events(p, a) + Events(After(p, a), b)
  {
    SplitAfter(p, a, b);
    if b == [] {
      assert a + b == a;
    } else {
      Split(p, a, b[..|b| - 1]);
      assert (a + b)[..|a + b| - 1] == a + b[..|b| - 1];
    }
  }

  lemma LineThen(p: Parser, lines: seq<string>, i: nat)
    requires i < |lines|
    ensures After(p, lines[..i + 1]) == Next(After(p, lines[..i]), lines[i])
    ensures Events(p, lines[..i + 1]) == Events(p, lines[..i]) + Dispatched(After(p, lines[..i]), lines[i])
    ensures Dispatched(After(p, lines[..i]), lines[i]) == [] ==> Events(p, lines[..i + 1]) == Events(p, lines[..i])
  {
    assert lines[..i + 1][..i] == lines[..i];
  }

  lemma DeliverOneMore<T>(s: Stream<T>, events: seq<Event>, e: Event)
    requires !Deliver(s, events).stopped
    ensures var d := Deliver(s, events);
            Deliver(s, events + [e]) ==
            match s.decode(e)
            case Item(x) => Delivery(d.out + [Delivered(x)], !s.wantsMore(|d.out|))
            case Ignored => d
            case Malformed => Delivery(d.out + [ParseError(e.kind)], true)
  {
    assert (events + [e])[..|events|] == events;
  }

  /** Once delivery has stopped, the rest of the stream does not matter. */
  lemma StoppedEarly<T>(s: Stream<T>, i: nat)
    requires i <= Alive(s, 0) && Deliver(s, Events(IDLE, s.lines[..i])).stopped
    ensures Yields(s) == Deliver(s, Events(IDLE, s.lines[..i])).out
  {
    var n := Alive(s, 0);
    Split(IDLE, s.lines[..i], s.lines[i..n]);
    assert s.lines[..n] == s.lines[..i] + s.lines[i..n];
    StoppedStays(s, Events(IDLE, s.lines[..i]), Events(After(IDLE, s.lines[..i]), s.lines[i..n]));
  }

  lemma CancelledAt<T>(s: Stream<T>, i: nat, out: seq<Yield<T>>)
    requires i <= Alive(s, 0) && i < |s.lines| && s.cancelled(i)
    requires Deliver(s, Events(IDLE, s.lines[..i])) == Delivery(out, false)
    ensures Yields(s) == out + [ContextError]
  {
    assert Alive(s, 0) == i;
  }

  lemma ReadToEnd<T>(s: Stream<T>, out: seq<Yield<T>>)
    requires Alive(s, 0) == |s.lines|
    requires Deliver(s, Events(IDLE, s.lines[..|s.lines|])) == Delivery(out, false)
    ensures Yields(s) == if s.broken then out + [ReadError] else out
  {
  }

  /** One line taken in, with the event it dispatches, if any. */
  method TakeLine(p: Parser, lines: seq<string>, i: nat) returns (q: Parser, e: seq<Event>)
    requires i < |lines| && p == After(IDLE, lines[..i])
    ensures q == After(IDLE, lines[..i + 1])
    ensures |e| <= 1 && Events(IDLE, lines[..i + 1]) == Events(IDLE, lines[..i]) + e
  {
    LineThen(IDLE, lines, i);
    var line := lines[i];
    q, e := p, [];
    if "event:" <= line {
      q := p.(kind := Trim(line[6..]));
    } else if "data:" <= line {
      var data := Trim(line[5..]);
      q := p.(data := if |p.data| > 0 then p.data + "\n" + data else data);
    } else if line == "" && |p.data| > 0 {
      e := [Event(p.kind, p.data)];
      q := IDLE;
    }
  }

  method Offer<T>(s: Stream<T>, ghost events: seq<Event>, out: seq<Yield<T>>, e: Event)
    returns (more: seq<Yield<T>>, stop: bool)
    requires Deliver(s, events) == Delivery(out, false)
    ensures Deliver(s, events + [e]) == Delivery(more, stop)
  {
    DeliverOneMore(s, events, e);
    match s.decode(e)
    case Malformed =>
      more, stop := out + [ParseError(e.kind)], true;
    case Item(x) =>
      more, stop := out + [Delivered(x)], !s.wantsMore(|out|);
    case Ignored =>
      more, stop := out, false;
  }

  /** The parser has taken i lines and yielded what they bring, without being stopped. */
  ghost predicate Reached<T>(s: Stream<T>, i: nat, p: Parser, out: seq<Yield<T>>) {
    && i <= Alive(s, 0)
    && p == After(IDLE, s.lines[..i])
    && Deliver(s, Events(IDLE, s.lines[..i])) == Delivery(out, false)
  }

  method Advance<T>(s: Stream<T>, i: nat, p: Parser, out: seq<Yield<T>>)
    returns (q: Parser, more: seq<Yield<T>>, stop: bool)
    requires Reached(s, i, p, out) && i < |s.lines| && !s.cancelled(i)
    ensures if stop then more == Yields(s) else Reached(s, i + 1, q, more)
  {
    ghost var events := Events(IDLE, s.lines[..i]);
    var e;
    q, e := TakeLine(p, s.lines, i);
    if e == [] {
      assert events + e == events;
      return q, out, false;
    }
    assert e == [e[0]];
    more, stop := Offer(s, events, out, e[0]);
    if stop {
      StoppedEarly(s, i + 1);
    }
  }

  method ParseStream<T>(s: Stream<T>) returns (out: seq<Yield<T>>)
    ensures out == Yields(s)
  {
    var p := IDLE;
    out := [];
    for i := 0 to |s.lines|
      invariant Reached(s, i, p, out)
    {
      if s.cancelled(i) {
        CancelledAt(s, i, out);
        return out + [ContextError];
      }
      var stop;
      p, out, stop := Advance(s, i, p, out);
      if stop {
        return;
      }
    }
    ReadToEnd(s, out);
    if s.broken {
      out := out + [ReadError];
    }
  }

  lemma One(p: Parser, line: string)
    ensures After(p, [line]) == Next(p, line)
    ensures Events(p, [line]) == Dispatched(p, line)
  {
    assert [line][..0] == [];
  }

  lemma DataLine(p: Parser, line: string)
    ensures Next(p, "data: " + line) == p.(data := AddData(p.data, Trim(line)))
    ensures Dispatched(p, "data: " + line) == []
  {
    var printed := "data: " + line;
    assert printed[0] == 'd' && "event:"[0] == 'e';
    assert "data:" <= printed && printed[5..] == " " + line;
    TrimPadding(line);
  }

  lemma EndsIff<T>(a: seq<T>, end: seq<T>, b: seq<T>, x: T)
    requires |a| <= |b| && |end| <= 1
    ensures a + end == b + [x] <==> a == b && end == [x]
  {
    if a + end == b + [x] {
      assert |a| == |b| && |end| == 1;
      assert a == (a + end)[..|a|] && b == (b + [x])[..|b|];
      assert end[0] == (a + end)[|a|];
    }
  }

  lemma Witness(p: Parser)
    ensures Events(p, ["data: " + "x", ""]) == [Event(p.kind, AddData(p.data, "x"))]
  {
    assert TrimLeft("x") == "x";
    DataLine(p, "x");
    var line := "data: " + "x";
    One(p, line);
    One(p.(data := AddData(p.data, "x")), "");
    Split(p, [line], [""]);
    assert [line] + [""] == [line, ""];
  }

  ghost predicate Joins(a: seq<string>, b: seq<string>) {
    Events(IDLE, a + b) == Events(IDLE, a) + Events(IDLE, b)
  }

  lemma Probe(p: Parser) returns (b: seq<string>)
    ensures Events(p, b) == [Event(p.kind, AddData(p.data, "x"))]
    ensures Events(IDLE, b) == [Event("", "x")]
  {
    b := ["data: " + "x", ""];
    Witness(p);
    Witness(IDLE);
  }

  lemma NotIdle(a: seq<string>)
    requires After(IDLE, a) != IDLE
    ensures exists b :: !Joins(a, b)
  {
    var p := After(IDLE, a);
    var b := Probe(p);
    Split(IDLE, a, b);
    assert Event(p.kind, AddData(p.data, "x")) != Event("", "x");
    EndsIff(Events(IDLE, a), Events(p, b), Events(IDLE, a), Event("", "x"));
    assert !Joins(a, b);
  }

  lemma JoinsIdle(a: seq<string>, b: seq<string>)
    requires After(IDLE, a) == IDLE
    ensures Joins(a, b)
  {
    Split(IDLE, a, b);
  }

  ghost predicate JoinsAll(a: seq<string>) {
    forall b :: Joins(a, b)
  }

  lemma IdleJoinsAll(a: seq<string>)
    requires After(IDLE, a) == IDLE
    ensures JoinsAll(a)
  {
    forall b ensures Joins(a, b) {
      JoinsIdle(a, b);
    }
  }

  /** Parsing a concatenation is concatenating the parses, whatever follows, exactly when the first part ends idle. */
  lemma ConcatIff(a: seq<string>)
    ensures JoinsAll(a) <==> After(IDLE, a) == IDLE
  {
    if After(IDLE, a) == IDLE {
      IdleJoinsAll(a);
    } else {
      NotIdle(a);
    }
  }

  /** Lines without a blank one dispatch nothing, so an event that is not ended is never delivered. */
  lemma {:induction false} Unterminated(p: Parser, lines: seq<string>)
    requires "" !in lines
    ensures Events(p, lines) == []
  {
    if lines != [] {
      Unterminated(p, lines[..|lines| - 1]);
    }
  }

  lemma UnterminatedTail(a: seq<string>, tail: seq<string>)
    requires "" !in tail
    ensures Events(IDLE, a + tail) == Events(IDLE, a)
  {
    Split(IDLE, a, tail);
    Unterminated(After(IDLE, a), tail);
  }
}
