/** What the event stream parser does with each line and each event, and with the length and the edges of a text. */
module SseMeaning {
  import opened Sse
  import opened SseRoundTrip

  // ----- texts

  /** The white space of Unicode. */
  const White: set<char> := {
    '\t', '\n', '\U{000B}', '\U{000C}', '\r', ' ', '\U{0085}', '\U{00A0}', '\U{1680}', '\U{2000}', '\U{2001}', '\U{2002}',
    '\U{2003}', '\U{2004}', '\U{2005}', '\U{2006}', '\U{2007}', '\U{2008}', '\U{2009}', '\U{200A}', '\U{2028}', '\U{2029}',
    '\U{202F}', '\U{205F}', '\U{3000}'}

  lemma WhiteIs(c: char)
    ensures IsSpace(c) <==> c in White
  {
    if '\U{2000}' <= c <= '\U{200A}' {
      assert c as int - 0x2000 in {0, 1, 2, 3, 4, 5, 6, 7, 8, 9, 10};
    }
  }

  ghost predicate AllWhite(s: string) {
    forall i :: 0 <= i < |s| ==> IsSpace(s[i])
  }

  lemma WhiteThen(s: string, n: nat)
    requires s != "" && IsSpace(s[0]) && n <= |s| - 1 && AllWhite(s[1..][..n])
    ensures AllWhite(s[..n + 1]) && s[1..][n..] == s[n + 1..]
  {
    var white := s[..n + 1];
    forall i | 0 <= i < |white| ensures IsSpace(white[i]) {
      if i > 0 {
        assert white[i] == s[1..][..n][i - 1];
      }
    }
  }

  lemma {:induction false} TrimLeftIs(s: string) returns (n: nat)
    ensures n <= |s| && AllWhite(s[..n]) && TrimLeft(s) == s[n..]
    ensures TrimLeft(s) != "" ==> !IsSpace(TrimLeft(s)[0])
  {
    if s != "" && IsSpace(s[0]) {
      var m := TrimLeftIs(s[1..]);
      WhiteThen(s, m);
      n := m + 1;
    } else {
      n := 0;
    }
  }

  lemma {:induction false} TrimRightIs(s: string) returns (n: nat)
    ensures n <= |s| && AllWhite(s[n..]) && TrimRight(s) == s[..n]
    ensures TrimRight(s) != "" ==> !IsSpace(TrimRight(s)[|TrimRight(s)| - 1])
  {
    n := |s|;
    if s != "" {
      if IsSpace(s[|s| - 1]) {
        var init := s[..|s| - 1];
        n := TrimRightIs(init);
        assert s[n..] == init[n..] + [s[|s| - 1]];
      } else {
        assert s[..n] == s;
      }
    }
  }

  /** Trimming takes away the white space at both ends, all of it and nothing else. */
  lemma TrimIs(s: string) returns (before: string, after: string)
    ensures s == before + Trim(s) + after && AllWhite(before) && AllWhite(after)
    ensures Trim(s) != "" ==> !IsSpace(Trim(s)[0]) && !IsSpace(Trim(s)[|Trim(s)| - 1])
  {
    var i := TrimLeftIs(s);
    var t := TrimLeft(s);
    var j := TrimRightIs(t);
    before, after := s[..i], t[j..];
    assert t == t[..j] + t[j..] && s == s[..i] + s[i..];
    assert Trim(s) != "" ==> Trim(s)[0] == t[0];
  }

  /** Bytes of UTF-8: one to four for each character, by its code point. */
  lemma {:induction false} BytesAre(a: string, b: string)
    ensures Bytes(a + b) == Bytes(a) + Bytes(b)
  {
    if a == "" {
      assert a + b == b;
    } else {
      BytesAre(a[1..], b);
      assert (a + b)[1..] == a[1..] + b;
    }
  }

  lemma BytesOfOne(c: char)
    ensures Bytes([c]) == if c <= '\U{007F}' then 1 else if c <= '\U{07FF}' then 2 else if c <= '\U{FFFF}' then 3 else 4
  {
    assert [c][1..] == "";
  }

  /** A line may end in a carriage return and a line break as well as in a line break. */
  lemma ReturnDropped(line: string, rest: string)
    requires '\n' !in line && (line == "" || line[|line| - 1] != '\r') && Bytes(line) + 1 < 65536
    ensures Scanned(line + "\r" + "\n" + rest) == Scanned(line + "\n" + rest)
    ensures Scanned(line + "\n" + rest) == Scan([line] + Scanned(rest).lines, Scanned(rest).broken)
  {
    var longer := line + "\r";
    BytesAre(line, "\r");
    BytesOfOne('\r');
    ScannedFirst(longer, rest);
    ScannedFirst(line, rest);
    assert longer[..|line|] == line;
  }

  // ----- lines

  predicate Tells(line: string) {
    "event:" <= line || "data:" <= line || line == ""
  }

  /** A type line sets the type, a data line adds to the data, white space around either being dropped. */
  lemma LineIs(p: Parser, x: string)
    ensures Next(p, "event:" + x) == Parser(Trim(x), p.data) && Dispatched(p, "event:" + x) == []
    ensures Next(p, "data:" + x) == Parser(p.kind, if p.data == "" then Trim(x) else p.data + "\n" + Trim(x))
    ensures Dispatched(p, "data:" + x) == []
  {
    assert ("event:" + x)[6..] == x && ("data:" + x)[5..] == x;
    assert ("data:" + x)[0] == 'd' && "event:"[0] == 'e';
  }

  /** A blank line dispatches the event if there is data and is ignored if there is none; any other line is ignored. */
  lemma OtherLineIs(p: Parser, line: string)
    ensures p.data != "" ==> Next(p, "") == Parser("", "") && Dispatched(p, "") == [Event(p.kind, p.data)]
    ensures p.data == "" ==> Next(p, "") == p && Dispatched(p, "") == []
    ensures !Tells(line) ==> Next(p, line) == p && Dispatched(p, line) == []
  {
  }

  function Kept(lines: seq<string>): seq<string> {
    if lines == [] then []
    else Kept(lines[..|lines| - 1]) + if Tells(lines[|lines| - 1]) then [lines[|lines| - 1]] else []
  }

  /** Lines of any other kind, comments among them, make no difference. */
  lemma {:induction false} OthersIgnored(p: Parser, lines: seq<string>)
    ensures After(p, lines) == After(p, Kept(lines)) && Events(p, lines) == Events(p, Kept(lines))
  {
    if lines != [] {
      var init, last := lines[..|lines| - 1], lines[|lines| - 1];
      OthersIgnored(p, init);
      assert lines == init + [last];
      LastLine(p, init, last);
      if Tells(last) {
        LastLine(p, Kept(init), last);
      } else {
        OtherLineIs(After(p, init), last);
        assert Kept(lines) == Kept(init);
      }
    }
  }

  // ----- delivery

  /** Events handed over one by one, the receiver having had n items before. */
  function Forward<T>(s: Stream<T>, events: seq<Event>, n: nat): Delivery<T> {
    if events == [] then Delivery([], false)
    else
      match s.decode(events[0])
      case Ignored => Forward(s, events[1..], n)
      case Malformed => Delivery([ParseError(events[0].kind)], true)
      case Item(x) =>
        if !s.wantsMore(n) then Delivery([Delivered(x)], true)
        else
          var rest := Forward(s, events[1..], n + 1);
          Delivery([Delivered(x)] + rest.out, rest.stopped)
  }

  function Onto<T>(before: Delivery<T>, rest: Delivery<T>): Delivery<T> {
    if before.stopped then before else Delivery(before.out + rest.out, rest.stopped)
  }

  lemma {:induction false} ForwardFrom<T>(s: Stream<T>, a: seq<Event>, b: seq<Event>)
    ensures Deliver(s, a + b) == Onto(Deliver(s, a), Forward(s, b, |Deliver(s, a).out|))
    decreases |b|
  {
    var before := Deliver(s, a);
    if b == [] {
      assert a + b == a && before.out + [] == before.out;
    } else if before.stopped {
      StoppedStays(s, a, b);
    } else {
      var e := b[0];
      DeliverOneMore(s, a, e);
      ForwardFrom(s, a + [e], b[1..]);
      assert a + [e] + b[1..] == a + b;
      match s.decode(e)
      case Item(x) =>
        if s.wantsMore(|before.out|) {
          Regroup(before.out, [Delivered(x)], Forward(s, b[1..], |before.out| + 1).out);
        }
      case _ =>
    }
  }

  /** How far lines are read: to the first at which the context has ended. */
  ghost predicate ReadTo<T>(s: Stream<T>, n: nat) {
    n <= |s.lines| && (forall i :: 0 <= i < n ==> !s.cancelled(i)) && (n < |s.lines| ==> s.cancelled(n))
  }

  /**
   * The receiver gets the items of the events read, in order, to the first malformed one, which is
   * reported, or to the last one it wants. If neither comes, what ended the reading is reported: the
   * context, or an error of the connection.
   */
  lemma YieldsAre<T>(s: Stream<T>) returns (n: nat)
    ensures ReadTo(s, n)
    ensures var d := Forward(s, Events(IDLE, s.lines[..n]), 0);
            Yields(s) == d.out + if d.stopped then [] else if n < |s.lines| then [ContextError] else if s.broken then [ReadError] else []
  {
    n := Alive(s, 0);
    var events := Events(IDLE, s.lines[..n]);
    ForwardFrom(s, [], events);
    assert [] + events == events;
    var d := Forward(s, events, 0);
    assert [] + d.out == d.out && d.out + [] == d.out;
  }
}
