/** Printing events as a text and parsing the text back. */
module SseRoundTrip {
  import opened Sse

  // ----- printing and reading line by line

  /** An event to print, its data line by line. */
  datatype Source = Source(kind: string, data: seq<string>)

  function Join(lines: seq<string>): string {
    if lines == [] then ""
    else if |lines| == 1 then lines[0]
    else Join(lines[..|lines| - 1]) + "\n" + lines[|lines| - 1]
  }

  function DataLines(data: seq<string>): seq<string> {
    if data == [] then [] else DataLines(data[..|data| - 1]) + ["data: " + data[|data| - 1]]
  }

  function Print(e: Source): seq<string> {
    ["event: " + e.kind] + DataLines(e.data) + [""]
  }

  function PrintAll(es: seq<Source>): seq<string> {
    if es == [] then [] else PrintAll(es[..|es| - 1]) + Print(es[|es| - 1])
  }

  function Meant(es: seq<Source>): seq<Event> {
    seq(|es|, i requires 0 <= i < |es| => Event(es[i].kind, Join(es[i].data)))
  }

  /** The data gathered from printed data lines. */
  function Gathered(data: seq<string>): string {
    if data == [] then "" else AddData(Gathered(data[..|data| - 1]), Trim(data[|data| - 1]))
  }

  predicate Plain(e: Source) {
    && Trim(e.kind) == e.kind
    && e.data != [] && e.data[0] != "" && Trimmed(e.data)
  }

  lemma EventLine(p: Parser, kind: string)
    ensures Next(p, "event: " + kind) == p.(kind := Trim(kind))
    ensures Dispatched(p, "event: " + kind) == []
  {
    var printed := "event: " + kind;
    assert "event:" <= printed && printed[6..] == " " + kind;
    TrimPadding(kind);
  }

  lemma {:induction false} DataRead(kind: string, data: seq<string>)
    ensures After(Parser(kind, ""), DataLines(data)) == Parser(kind, Gathered(data))
    ensures Events(Parser(kind, ""), DataLines(data)) == []
  {
    if data != [] {
      var init := data[..|data| - 1];
      DataRead(kind, init);
      DataLine(Parser(kind, Gathered(init)), data[|data| - 1]);
      LineThen(Parser(kind, ""), DataLines(data), |DataLines(init)|);
      assert DataLines(data)[..|DataLines(init)|] == DataLines(init);
      assert DataLines(data)[..|DataLines(init)| + 1] == DataLines(data);
    }
  }

  /** A printed event is read as at most one event; nothing is left over but perhaps a type. */
  lemma PrintRead(kind: string, e: Source)
    ensures After(Parser(kind, ""), Print(e)).data == ""
    ensures Events(Parser(kind, ""), Print(e)) ==
            if Gathered(e.data) == "" then [] else [Event(Trim(e.kind), Gathered(e.data))]
  {
    var p, q := Parser(kind, ""), Parser(Trim(e.kind), "");
    var first, blank := ["event: " + e.kind], [""];
    EventLine(p, e.kind);
    One(p, first[0]);
    DataRead(Trim(e.kind), e.data);
    One(Parser(Trim(e.kind), Gathered(e.data)), "");
    Split(p, first, DataLines(e.data));
    Split(p, first + DataLines(e.data), blank);
  }

  predicate Trimmed(data: seq<string>) {
    forall i :: 0 <= i < |data| ==> Trim(data[i]) == data[i]
  }

  lemma TrimmedOneMore(data: seq<string>, last: string)
    ensures Trimmed(data + [last]) <==> Trimmed(data) && Trim(last) == last
  {
    assert (data + [last])[|data|] == last;
    if Trimmed(data + [last]) {
      forall i | 0 <= i < |data| ensures Trim(data[i]) == data[i] {
        assert data[i] == (data + [last])[i];
      }
    }
  }

  /** What is gathered is shorter than what was meant, unless the lines are plain. */
  lemma {:induction false} GatheredIs(data: seq<string>)
    requires data != []
    ensures |Gathered(data)| <= |Join(data)|
    ensures Gathered(data) == Join(data) && Gathered(data) != "" <==> data[0] != "" && Trimmed(data)
  {
    var init, last := data[..|data| - 1], data[|data| - 1];
    assert data == init + [last];
    TrimmedOneMore(init, last);
    TrimShrinks(last);
    if |data| > 1 {
      GatheredIs(init);
      JoinsIff(Gathered(init), Join(init), Trim(last), last);
    }
  }

  lemma JoinsIff(gathered: string, meant: string, trimmed: string, line: string)
    requires |gathered| <= |meant| && (trimmed == line || |trimmed| < |line|)
    ensures |AddData(gathered, trimmed)| <= |meant + "\n" + line|
    ensures AddData(gathered, trimmed) == meant + "\n" + line <==>
            gathered == meant && gathered != "" && trimmed == line
  {
    if AddData(gathered, trimmed) == meant + "\n" + line {
      assert |gathered| == |meant| && |gathered| > 0;
      assert gathered == (gathered + "\n" + trimmed)[..|gathered|];
      assert meant == (meant + "\n" + line)[..|meant|];
    }
  }

  predicate AllPlain(es: seq<Source>) {
    forall i :: 0 <= i < |es| ==> Plain(es[i])
  }

  lemma AllPlainOneMore(es: seq<Source>, last: Source)
    ensures AllPlain(es + [last]) <==> AllPlain(es) && Plain(last)
  {
    assert (es + [last])[|es|] == last;
    if AllPlain(es + [last]) {
      forall i | 0 <= i < |es| ensures Plain(es[i]) {
        assert es[i] == (es + [last])[i];
      }
    }
  }

  /** The event read from a printed one, if any. */
  function ReadOne(e: Source): seq<Event> {
    if Gathered(e.data) == "" then [] else [Event(Trim(e.kind), Gathered(e.data))]
  }

  function ReadAll(es: seq<Source>): seq<Event> {
    if es == [] then [] else ReadAll(es[..|es| - 1]) + ReadOne(es[|es| - 1])
  }

  lemma OneReadIff(e: Source)
    ensures ReadOne(e) == [Event(e.kind, Join(e.data))] <==> Plain(e)
  {
    if e.data != [] {
      GatheredIs(e.data);
    }
  }

  lemma MeantOneMore(es: seq<Source>, last: Source)
    ensures Meant(es + [last]) == Meant(es) + [Event(last.kind, Join(last.data))]
  {
  }

  lemma {:induction false} AllReadIff(es: seq<Source>)
    ensures |ReadAll(es)| <= |es|
    ensures ReadAll(es) == Meant(es) <==> AllPlain(es)
  {
    if es != [] {
      var init, last := es[..|es| - 1], es[|es| - 1];
      assert es == init + [last];
      AllReadIff(init);
      OneReadIff(last);
      MeantOneMore(init, last);
      AllPlainOneMore(init, last);
      EndsIff(ReadAll(init), ReadOne(last), Meant(init), Event(last.kind, Join(last.data)));
    }
  }

  // ----- lines in a text

  /** The longest line a scanner takes is one byte shorter than this. */
  const MAX_TOKEN := 65536

  /** The length of a text in UTF-8. */
  function Bytes(s: string): (n: nat)
    ensures |s| <= n <= 4 * |s|
  {
    if s == "" then 0
    else
      var c := s[0] as int;
      (if c < 0x80 then 1 else if c < 0x800 then 2 else if c < 0x1_0000 then 3 else 4) + Bytes(s[1..])
  }

  /** Where the first line break is, or the end. */
  function Break(s: string): (i: nat)
    ensures i <= |s|
  {
    if s == "" || s[0] == '\n' then 0 else 1 + Break(s[1..])
  }

  lemma {:induction false} BreakFacts(s: string)
    ensures '\n' !in s[..Break(s)] && (Break(s) < |s| ==> s[Break(s)] == '\n')
  {
    if s != "" && s[0] != '\n' {
      BreakFacts(s[1..]);
      assert s[..Break(s)] == [s[0]] + s[1..][..Break(s) - 1];
    }
  }

  lemma Regroup<T>(a: seq<T>, b: seq<T>, c: seq<T>)
    ensures a + (b + c) == (a + b) + c
  {
  }

  function DropReturn(line: string): string {
    if line != "" && line[|line| - 1] == '\r' then line[..|line| - 1] else line
  }

  /** What a scanner finds: lines, up to the first that is too long, if there is one. */
  datatype Scan = Scan(lines: seq<string>, broken: bool)
  {
    function Then(rest: Scan): Scan {
      if broken then this else Scan(lines + rest.lines, rest.broken)
    }
  }

  /** One line, without its line break. */
  function Line(raw: string): Scan {
    if Bytes(raw) >= MAX_TOKEN then Scan([], true) else Scan([DropReturn(raw)], false)
  }

  /** Scanning a text; what follows the last line break is a line unless it is empty. */
  function Scanned(text: string): Scan {
    var i := Break(text);
    if i < |text| then Line(text[..i]).Then(Scanned(text[i + 1..]))
    else if text == "" then Scan([], false) else Line(text)
  }

  function Text(lines: seq<string>): string {
    if lines == [] then "" else Text(lines[..|lines| - 1]) + lines[|lines| - 1] + "\n"
  }

  /** What printing one line gives: more than one line if it has line breaks in it. */
  function Pieces(line: string): Scan {
    var i := Break(line);
    if i < |line| then Line(line[..i]).Then(Pieces(line[i + 1..])) else Line(line)
  }

  function PiecesAll(lines: seq<string>): Scan {
    if lines == [] then Scan([], false) else PiecesAll(lines[..|lines| - 1]).Then(Pieces(lines[|lines| - 1]))
  }

  lemma ThenRegroup(a: Scan, b: Scan, c: Scan)
    ensures a.Then(b.Then(c)) == a.Then(b).Then(c)
  {
    Regroup(a.lines, b.lines, c.lines);
  }

  lemma ThenNothing(a: Scan)
    ensures a.Then(Scan([], false)) == a && Scan([], false).Then(a) == a
  {
  }

  lemma {:induction false} BreakIs(s: string, i: nat)
    requires i <= |s| && '\n' !in s[..i] && (i < |s| ==> s[i] == '\n')
    ensures Break(s) == i
  {
    if s != "" && s[0] != '\n' {
      assert s[1..][..i - 1] == s[..i][1..];
      BreakIs(s[1..], i - 1);
    }
  }

  lemma ScannedFirst(line: string, rest: string)
    requires '\n' !in line
    ensures Scanned(line + "\n" + rest) == Line(line).Then(Scanned(rest))
  {
    var text, i := line + "\n" + rest, |line|;
    assert text[..i] == line && text[i] == '\n' && text[i + 1..] == rest;
    BreakIs(text, i);
  }

  lemma TextSplit(line: string, rest: string, i: nat)
    requires i < |line| && line[i] == '\n'
    ensures line + "\n" + rest == line[..i] + "\n" + (line[i + 1..] + "\n" + rest)
  {
    assert line == line[..i] + "\n" + line[i + 1..];
  }

  lemma {:induction false} ScannedLine(line: string, rest: string)
    ensures Scanned(line + "\n" + rest) == Pieces(line).Then(Scanned(rest))
    decreases |line|
  {
    var i := Break(line);
    BreakFacts(line);
    if i < |line| {
      var tail := line[i + 1..] + "\n" + rest;
      ScannedLine(line[i + 1..], rest);
      TextSplit(line, rest, i);
      ScannedFirst(line[..i], tail);
      ThenRegroup(Line(line[..i]), Pieces(line[i + 1..]), Scanned(rest));
    } else {
      assert line[..i] == line;
      ScannedFirst(line, rest);
    }
  }

  /** Scanning printed lines gives their pieces, in order, up to the first that is too long. */
  lemma {:induction false} ScannedText(lines: seq<string>, rest: string)
    ensures Scanned(Text(lines) + rest) == PiecesAll(lines).Then(Scanned(rest))
  {
    if lines == [] {
      assert Text(lines) + rest == rest;
      ThenNothing(Scanned(rest));
    } else {
      var init, last := lines[..|lines| - 1], lines[|lines| - 1];
      assert Text(lines) + rest == Text(init) + (last + "\n" + rest);
      ScannedText(init, last + "\n" + rest);
      ScannedLine(last, rest);
      ThenRegroup(PiecesAll(init), Pieces(last), Scanned(rest));
    }
  }

  lemma PiecesOneMore(lines: seq<string>, line: string)
    ensures PiecesAll(lines + [line]) == PiecesAll(lines).Then(Pieces(line))
  {
    assert (lines + [line])[..|lines|] == lines;
  }

  lemma {:induction false} PiecesAppend(a: seq<string>, b: seq<string>)
    ensures PiecesAll(a + b) == PiecesAll(a).Then(PiecesAll(b))
  {
    if b == [] {
      assert a + b == a;
      ThenNothing(PiecesAll(a));
    } else {
      var init, last := b[..|b| - 1], b[|b| - 1];
      PiecesAppend(a, init);
      PiecesOneMore(a + init, last);
      PiecesOneMore(init, last);
      assert b == init + [last];
      Regroup(a, init, [last]);
      ThenRegroup(PiecesAll(a), PiecesAll(init), Pieces(last));
    }
  }

  // ----- a line break or a long line always loses something

  /** The number of line breaks. */
  function Breaks(s: string): nat {
    if s == "" then 0 else (if s[0] == '\n' then 1 else 0) + Breaks(s[1..])
  }

  lemma {:induction false} BreaksAt(s: string, i: nat)
    requires i <= |s|
    ensures Breaks(s) == Breaks(s[..i]) + Breaks(s[i..])
  {
    if i == 0 {
      assert s[i..] == s;
    } else {
      BreaksAt(s[1..], i - 1);
      assert s[1..][..i - 1] == s[..i][1..] && s[1..][i - 1..] == s[i..];
    }
  }

  lemma {:induction false} NoBreaks(s: string)
    ensures Breaks(s) == 0 <==> '\n' !in s
  {
    if s != "" {
      NoBreaks(s[1..]);
      assert s == [s[0]] + s[1..];
    }
  }

  lemma BreaksAfterFirst(s: string)
    ensures var i := Break(s);
            Breaks(s) == if i < |s| then 1 + Breaks(s[i + 1..]) else 0
  {
    var i := Break(s);
    BreakFacts(s);
    NoBreaks(s[..i]);
    BreaksAt(s, i);
    if i < |s| {
      assert s[i..][1..] == s[i + 1..];
    } else {
      assert s[..i] == s;
    }
  }

  /** What events amount to: their texts, and one for each. */
  function Weight(events: seq<Event>): nat {
    if events == [] then 0
    else
      var last := events[|events| - 1];
      Weight(events[..|events| - 1]) + |last.kind| + |last.data| + 1
  }

  lemma {:induction false} WeightAppend(a: seq<Event>, b: seq<Event>)
    ensures Weight(a + b) == Weight(a) + Weight(b)
  {
    if b == [] {
      assert a + b == a;
    } else {
      WeightAppend(a, b[..|b| - 1]);
      var ab := a + b;
      assert ab[|ab| - 1] == b[|b| - 1] && ab[..|ab| - 1] == a + b[..|b| - 1];
    }
  }

  /** What a parser holds: its type, and its data with the line break or the event that follows it. */
  function Held(p: Parser): nat {
    |p.kind| + if p.data == "" then 0 else |p.data| + 1
  }

  /** The most a line can add. */
  function Gain(line: string): nat {
    if "event:" <= line then |Trim(line[6..])|
    else if "data:" <= line then 1 + |Trim(line[5..])|
    else 0
  }

  function Total(of: string -> nat, lines: seq<string>): nat {
    if lines == [] then 0 else Total(of, lines[..|lines| - 1]) + of(lines[|lines| - 1])
  }

  lemma {:induction false} TotalAppend(of: string -> nat, a: seq<string>, b: seq<string>)
    ensures Total(of, a + b) == Total(of, a) + Total(of, b)
  {
    if b == [] {
      assert a + b == a;
    } else {
      TotalAppend(of, a, b[..|b| - 1]);
      var ab := a + b;
      assert ab[|ab| - 1] == b[|b| - 1] && ab[..|ab| - 1] == a + b[..|b| - 1];
    }
  }

  function Gains(lines: seq<string>): nat {
    Total(Gain, lines)
  }

  lemma GainsAppend(a: seq<string>, b: seq<string>)
    ensures Gains(a + b) == Gains(a) + Gains(b)
  {
    TotalAppend(Gain, a, b);
  }

  lemma LineGains(p: Parser, line: string)
    ensures Weight(Dispatched(p, line)) + Held(Next(p, line)) <= Held(p) + Gain(line)
  {
    if line == "" && |p.data| > 0 {
      assert Dispatched(p, line) == [Event(p.kind, p.data)] && Weight([]) == 0;
      assert Weight([Event(p.kind, p.data)]) == |p.kind| + |p.data| + 1;
    }
  }

  /** Reading makes nothing out of nothing. */
  lemma {:induction false} LinesGain(p: Parser, lines: seq<string>)
    ensures Weight(Events(p, lines)) + Held(After(p, lines)) <= Held(p) + Gains(lines)
  {
    if lines != [] {
      var init, last := lines[..|lines| - 1], lines[|lines| - 1];
      LinesGain(p, init);
      LineGains(After(p, init), last);
      WeightAppend(Events(p, init), Dispatched(After(p, init), last));
    }
  }

  /** Events read from lines amount to no more than the lines can add. */
  lemma EventsGain(lines: seq<string>)
    ensures Weight(Events(IDLE, lines)) <= Gains(lines)
  {
    LinesGain(IDLE, lines);
  }

  lemma GainAtMost(line: string)
    ensures Gain(line) <= |line| && Gain(DropReturn(line)) <= |line|
  {
    GainAtMostLength(line);
    GainAtMostLength(DropReturn(line));
  }

  lemma GainAtMostLength(line: string)
    ensures Gain(line) <= |line|
  {
    if "event:" <= line {
      TrimShrinks(line[6..]);
    } else if "data:" <= line {
      TrimShrinks(line[5..]);
    }
  }

  lemma GainsOfOne(line: string)
    ensures Gains([line]) == Gain(line)
  {
    assert [line][..0] == [];
    assert Total(Gain, [line]) == Total(Gain, []) + Gain(line);
  }

  lemma ThenGains(a: Scan, b: Scan)
    ensures Gains(a.Then(b).lines) == Gains(a.lines) + if a.broken then 0 else Gains(b.lines)
  {
    GainsAppend(a.lines, b.lines);
  }

  /** What scanning loses for certain: a line that is too long, or else each line break. */
  function Lost(scan: Scan, breaks: nat): nat {
    if scan.broken then 1 else breaks
  }

  lemma LineGain(raw: string)
    ensures Gains(Line(raw).lines) + Lost(Line(raw), 0) <= |raw|
  {
    if Line(raw).broken {
      assert raw != "";
    } else {
      GainAtMost(raw);
      GainsOfOne(DropReturn(raw));
    }
  }

  lemma {:induction false} PiecesGain(s: string)
    ensures Gains(Pieces(s).lines) + Lost(Pieces(s), Breaks(s)) <= |s|
    decreases |s|
  {
    var i := Break(s);
    BreaksAfterFirst(s);
    LineGain(s[..i]);
    if i < |s| {
      PiecesGain(s[i + 1..]);
      ThenGains(Line(s[..i]), Pieces(s[i + 1..]));
    } else {
      assert s[..i] == s;
    }
  }

  /** The first line of a text, and the scan of what follows it. */
  function First(s: string): string {
    s[..Break(s)]
  }

  function Rest(s: string): Scan {
    if Break(s) < |s| then Pieces(s[Break(s) + 1..]) else Scan([], false)
  }

  lemma PiecesOf(line: string)
    ensures Pieces(line) == Line(First(line)).Then(Rest(line))
  {
    if Break(line) == |line| {
      assert line[..Break(line)] == line;
      ThenNothing(Line(line));
    }
  }

  lemma BreakPrefixed(prefix: string, s: string)
    requires '\n' !in prefix
    ensures Break(prefix + s) == |prefix| + Break(s)
  {
    var line, i := prefix + s, |prefix| + Break(s);
    BreakFacts(s);
    assert line[..i] == prefix + s[..Break(s)];
    BreakIs(line, i);
  }

  lemma DropPrefixed(prefix: string, s: string)
    requires prefix != "" && prefix[|prefix| - 1] != '\r'
    ensures DropReturn(prefix + s) == prefix + DropReturn(s)
  {
  }

  lemma FirstPrefixed(prefix: string, s: string)
    requires '\n' !in prefix
    ensures First(prefix + s) == prefix + First(s)
  {
    BreakPrefixed(prefix, s);
  }

  lemma RestPrefixed(prefix: string, s: string)
    requires '\n' !in prefix
    ensures Rest(prefix + s) == Rest(s)
  {
    BreakPrefixed(prefix, s);
    if Break(s) < |s| {
      assert (prefix + s)[|prefix| + Break(s) + 1..] == s[Break(s) + 1..];
    }
  }

  /** A printed prefix stays in the first line. */
  lemma PrefixedPieces(prefix: string, s: string)
    requires '\n' !in prefix
    ensures Pieces(prefix + s) == Line(prefix + First(s)).Then(Rest(s))
  {
    var line := prefix + s;
    FirstPrefixed(prefix, s);
    RestPrefixed(prefix, s);
    PiecesOf(line);
  }

  /** What the first line leaves of a text, the rest does not exceed. */
  lemma RestGain(s: string)
    ensures |First(s)| + Gains(Rest(s).lines) + Lost(Rest(s), Breaks(s)) <= |s|
  {
    var tail, more := RestIs(s);
    if more {
      PiecesGain(tail);
    }
  }

  lemma RestIs(s: string) returns (tail: string, more: bool)
    ensures more ==> Rest(s) == Pieces(tail) && |First(s)| + 1 + |tail| == |s| && Breaks(s) == 1 + Breaks(tail)
    ensures !more ==> Rest(s) == Scan([], false) && |First(s)| == |s| && Breaks(s) == 0
  {
    var i := Break(s);
    BreaksAfterFirst(s);
    more := i < |s|;
    tail := if more then s[i + 1..] else "";
  }

  lemma DataGain(x: string)
    ensures Gain(DropReturn("data: " + x)) <= 1 + |x|
  {
    DropPrefixed("data: ", x);
    var line := "data: " + DropReturn(x);
    assert line[0] == 'd' && "event:"[0] == 'e';
    assert "data:" <= line && line[5..] == " " + DropReturn(x);
    TrimPadding(DropReturn(x));
    TrimShrinks(DropReturn(x));
  }

  lemma SplitData(x: string) returns (whole: Scan, first: Scan)
    ensures whole == Pieces("data: " + x) && whole == first.Then(Rest(x))
    ensures Gains(first.lines) + Lost(first, 0) <= |First(x)| + 1
  {
    var line := "data: " + First(x);
    whole, first := Pieces("data: " + x), Line(line);
    PrefixedPieces("data: ", x);
    DataGain(First(x));
    GainsOfOne(DropReturn(line));
  }

  lemma DataPieces(x: string)
    ensures Gains(Pieces("data: " + x).lines) + Lost(Pieces("data: " + x), Breaks(x)) <= |x| + 1
  {
    var whole, first := SplitData(x);
    ThenGains(first, Rest(x));
    RestGain(x);
  }

  lemma KindGain(kind: string)
    ensures Gain(DropReturn("event: " + kind)) <= |kind|
  {
    DropPrefixed("event: ", kind);
    var line := "event: " + DropReturn(kind);
    assert "event:" <= line && line[6..] == " " + DropReturn(kind);
    TrimPadding(DropReturn(kind));
    TrimShrinks(DropReturn(kind));
  }

  lemma SplitKind(kind: string) returns (whole: Scan, first: Scan)
    ensures whole == Pieces("event: " + kind) && whole == first.Then(Rest(kind))
    ensures Gains(first.lines) + Lost(first, 0) <= |First(kind)|
  {
    var line := "event: " + First(kind);
    whole, first := Pieces("event: " + kind), Line(line);
    PrefixedPieces("event: ", kind);
    if first.broken {
      assert Bytes(line) <= 4 * |line|;
    } else {
      KindGain(First(kind));
      GainsOfOne(DropReturn(line));
    }
  }

  lemma KindPieces(kind: string)
    ensures Gains(Pieces("event: " + kind).lines) + Lost(Pieces("event: " + kind), Breaks(kind)) <= |kind|
  {
    var whole, first := SplitKind(kind);
    ThenGains(first, Rest(kind));
    RestGain(kind);
  }

  function Length(data: seq<string>): nat {
    if data == [] then 0 else Length(data[..|data| - 1]) + 1 + |data[|data| - 1]|
  }

  function BreaksIn(data: seq<string>): nat {
    if data == [] then 0 else BreaksIn(data[..|data| - 1]) + Breaks(data[|data| - 1])
  }

  lemma {:induction false} JoinLength(data: seq<string>)
    requires data != []
    ensures |Join(data)| + 1 == Length(data)
  {
    if |data| > 1 {
      JoinLength(data[..|data| - 1]);
    } else {
      assert data[..0] == [];
    }
  }

  lemma {:induction false} DataLinesGain(data: seq<string>)
    ensures var scan := PiecesAll(DataLines(data));
            Gains(scan.lines) + Lost(scan, BreaksIn(data)) <= Length(data)
  {
    if data != [] {
      var init, last := data[..|data| - 1], data[|data| - 1];
      DataLinesGain(init);
      DataPieces(last);
      PiecesOneMore(DataLines(init), "data: " + last);
      ThenGains(PiecesAll(DataLines(init)), Pieces("data: " + last));
    }
  }

  lemma PiecesOfOne(line: string)
    ensures PiecesAll([line]) == Pieces(line)
  {
    assert [line][..0] == [];
    ThenNothing(Pieces(line));
  }

  /** The pieces of a printed event. */
  lemma PrintPieces(e: Source)
    ensures PiecesAll(Print(e)) == Pieces("event: " + e.kind).Then(PiecesAll(DataLines(e.data))).Then(Scan([""], false))
  {
    var first, lines := "event: " + e.kind, DataLines(e.data);
    PiecesOfOne(first);
    PiecesAppend([first], lines);
    PiecesOneMore([first] + lines, "");
    assert Pieces("") == Scan([""], false);
  }

  function Loss(e: Source): nat {
    Breaks(e.kind) + BreaksIn(e.data)
  }

  /** What an event amounts to. */
  function Size(e: Source): nat {
    |e.kind| + |Join(e.data)| + 1
  }

  lemma SizeAtLeast(e: Source)
    ensures |e.kind| + Length(e.data) <= Size(e)
  {
    if e.data != [] {
      JoinLength(e.data);
    }
  }

  /** A printed event adds less than was meant, by one if a line is too long and else for every line break. */
  lemma PrintGains(e: Source)
    ensures var scan := PiecesAll(Print(e));
            Gains(scan.lines) + Lost(scan, Loss(e)) <= Size(e)
  {
    var kind, data, blank := Pieces("event: " + e.kind), PiecesAll(DataLines(e.data)), Scan([""], false);
    PrintPieces(e);
    ThenGains(kind, data);
    ThenGains(kind.Then(data), blank);
    GainsOfOne("");
    KindPieces(e.kind);
    DataLinesGain(e.data);
    SizeAtLeast(e);
  }

  function Sizes(es: seq<Source>): nat {
    if es == [] then 0 else Sizes(es[..|es| - 1]) + Size(es[|es| - 1])
  }

  lemma {:induction false} SizesAre(es: seq<Source>)
    ensures Weight(Meant(es)) == Sizes(es)
  {
    if es != [] {
      var init, last := es[..|es| - 1], es[|es| - 1];
      SizesAre(init);
      assert es == init + [last];
      MeantOneMore(init, last);
      WeightOneMore(Meant(init), Event(last.kind, Join(last.data)));
    }
  }

  function LossIn(es: seq<Source>): nat {
    if es == [] then 0 else LossIn(es[..|es| - 1]) + Loss(es[|es| - 1])
  }

  /** What is read of printed events is less than was meant, by what is lost. */
  lemma {:induction false} AllGain(es: seq<Source>)
    ensures var scan := PiecesAll(PrintAll(es));
            Gains(scan.lines) + Lost(scan, LossIn(es)) <= Sizes(es)
  {
    if es != [] {
      var init, last := es[..|es| - 1], es[|es| - 1];
      AllGain(init);
      PrintGains(last);
      PiecesAppend(PrintAll(init), Print(last));
      ThenGains(PiecesAll(PrintAll(init)), PiecesAll(Print(last)));
    }
  }

  lemma AllLose(es: seq<Source>)
    ensures var scan := PiecesAll(PrintAll(es));
            Weight(Events(IDLE, scan.lines)) + Lost(scan, LossIn(es)) <= Weight(Meant(es))
  {
    AllGain(es);
    SizesAre(es);
    EventsGain(PiecesAll(PrintAll(es)).lines);
  }

  lemma WeightOneMore(events: seq<Event>, e: Event)
    ensures Weight(events + [e]) == Weight(events) + |e.kind| + |e.data| + 1
  {
    assert (events + [e])[..|events|] == events;
  }

  // ----- without line breaks or long lines

  predicate OneLiner(e: Source) {
    '\n' !in e.kind && forall i :: 0 <= i < |e.data| ==> '\n' !in e.data[i]
  }

  lemma {:induction false} NoBreaksIn(data: seq<string>)
    ensures BreaksIn(data) == 0 <==> forall i :: 0 <= i < |data| ==> '\n' !in data[i]
  {
    if data != [] {
      var init, last := data[..|data| - 1], data[|data| - 1];
      NoBreaksIn(init);
      NoBreaks(last);
      assert forall i :: 0 <= i < |init| ==> init[i] == data[i];
      assert data[|init|] == last;
    }
  }

  predicate AllOneLiners(es: seq<Source>) {
    forall i :: 0 <= i < |es| ==> OneLiner(es[i])
  }

  lemma AllOneLinersOneMore(es: seq<Source>, last: Source)
    ensures AllOneLiners(es + [last]) <==> AllOneLiners(es) && OneLiner(last)
  {
    assert (es + [last])[|es|] == last;
    if AllOneLiners(es + [last]) {
      forall i | 0 <= i < |es| ensures OneLiner(es[i]) {
        assert es[i] == (es + [last])[i];
      }
    }
  }

  lemma {:induction false} NoLoss(es: seq<Source>)
    ensures LossIn(es) == 0 <==> AllOneLiners(es)
  {
    if es != [] {
      var init, last := es[..|es| - 1], es[|es| - 1];
      NoLoss(init);
      NoBreaks(last.kind);
      NoBreaksIn(last.data);
      assert es == init + [last];
      AllOneLinersOneMore(init, last);
    }
  }

  /** No printed line of the event is too long for the scanner. */
  predicate Short(e: Source) {
    Bytes("event: " + e.kind) < 65536 && forall i :: 0 <= i < |e.data| ==> Bytes("data: " + e.data[i]) < 65536
  }

  predicate ShortLines(lines: seq<string>) {
    forall i :: 0 <= i < |lines| ==> Bytes(lines[i]) < MAX_TOKEN
  }

  predicate Unbroken(lines: seq<string>) {
    forall i :: 0 <= i < |lines| ==> '\n' !in lines[i]
  }

  /** Scanning lines without line breaks goes wrong exactly when one of them is too long. */
  lemma {:induction false} BrokenIff(lines: seq<string>)
    requires Unbroken(lines)
    ensures PiecesAll(lines).broken <==> !ShortLines(lines)
  {
    if lines != [] {
      var init, last := lines[..|lines| - 1], lines[|lines| - 1];
      assert forall i :: 0 <= i < |init| ==> init[i] == lines[i];
      assert lines[|init|] == last;
      BrokenIff(init);
      OnePiece(last);
    }
  }

  lemma OnePiece(line: string)
    requires '\n' !in line
    ensures Pieces(line) == Line(line)
  {
    assert line[..|line|] == line;
    BreakIs(line, |line|);
  }

  lemma {:induction false} DataLinesAt(data: seq<string>)
    ensures |DataLines(data)| == |data| && forall i :: 0 <= i < |data| ==> DataLines(data)[i] == "data: " + data[i]
  {
    if data != [] {
      DataLinesAt(data[..|data| - 1]);
    }
  }

  lemma PrintIsUnbroken(e: Source)
    requires OneLiner(e)
    ensures Unbroken(Print(e)) && (ShortLines(Print(e)) <==> Short(e))
  {
    DataLinesAt(e.data);
    var lines := Print(e);
    assert forall i :: 0 <= i < |e.data| ==> lines[i + 1] == "data: " + e.data[i];
    forall i | 0 <= i < |lines| ensures '\n' !in lines[i] {
      if 0 < i <= |e.data| {
        assert lines[i] == "data: " + e.data[i - 1];
      }
    }
    if Short(e) {
      forall i | 0 <= i < |lines| ensures Bytes(lines[i]) < MAX_TOKEN {
        if 0 < i <= |e.data| {
          assert lines[i] == "data: " + e.data[i - 1];
        }
      }
    }
    if ShortLines(lines) {
      assert lines[0] == "event: " + e.kind;
      forall i | 0 <= i < |e.data| ensures Bytes("data: " + e.data[i]) < MAX_TOKEN {
        assert lines[i + 1] == "data: " + e.data[i];
      }
    }
  }

  lemma {:induction false} AllBrokenIff(es: seq<Source>)
    requires AllOneLiners(es)
    ensures PiecesAll(PrintAll(es)).broken <==> !AllShort(es)
  {
    if es != [] {
      var init, last := es[..|es| - 1], es[|es| - 1];
      assert es == init + [last];
      AllShortOneMore(init, last);
      AllOneLinersOneMore(init, last);
      AllBrokenIff(init);
      PrintBrokenIff(last);
      PiecesAppend(PrintAll(init), Print(last));
    }
  }

  lemma PrintBrokenIff(e: Source)
    requires OneLiner(e)
    ensures PiecesAll(Print(e)).broken <==> !Short(e)
  {
    PrintIsUnbroken(e);
    BrokenIff(Print(e));
  }

  predicate AllShort(es: seq<Source>) {
    forall i :: 0 <= i < |es| ==> Short(es[i])
  }

  lemma AllShortOneMore(es: seq<Source>, last: Source)
    ensures AllShort(es + [last]) <==> AllShort(es) && Short(last)
  {
    assert (es + [last])[|es|] == last;
    if AllShort(es + [last]) {
      forall i | 0 <= i < |es| ensures Short(es[i]) {
        assert es[i] == (es + [last])[i];
      }
    }
  }

  lemma {:induction false} TrimLeftSpaceAfter(s: string, c: char)
    requires IsSpace(c)
    ensures TrimLeft(s + [c]) == if TrimLeft(s) == "" then "" else TrimLeft(s) + [c]
  {
    if s == "" {
      assert s + [c] == [c] && [c][1..] == "";
    } else {
      assert (s + [c])[1..] == s[1..] + [c];
      if IsSpace(s[0]) {
        TrimLeftSpaceAfter(s[1..], c);
      }
    }
  }

  /** Dropping a carriage return does not change what a line says. */
  lemma TrimDropped(s: string)
    ensures Trim(DropReturn(s)) == Trim(s)
  {
    if DropReturn(s) != s {
      var t := DropReturn(s);
      assert s == t + ['\r'];
      TrimLeftSpaceAfter(t, '\r');
      assert (TrimLeft(t) + ['\r'])[..|TrimLeft(t)|] == TrimLeft(t);
    }
  }

  lemma LastLine(p: Parser, lines: seq<string>, line: string)
    ensures After(p, lines + [line]) == Next(After(p, lines), line)
    ensures Events(p, lines + [line]) == Events(p, lines) + Dispatched(After(p, lines), line)
  {
    One(After(p, lines), line);
    Split(p, lines, [line]);
  }

  /** Without line breaks, a printed data line is one line that says the same. */
  lemma DroppedData(p: Parser, x: string) returns (printed: string, line: string)
    requires '\n' !in x && Bytes("data: " + x) < MAX_TOKEN
    ensures printed == "data: " + x && Pieces(printed) == Scan([line], false)
    ensures Next(p, line) == Next(p, printed) && Dispatched(p, line) == Dispatched(p, printed) == []
  {
    printed, line := "data: " + x, "data: " + DropReturn(x);
    OnePiece(printed);
    DropPrefixed("data: ", x);
    DataLine(p, x);
    DataLine(p, DropReturn(x));
    TrimDropped(x);
  }

  lemma DroppedKind(p: Parser, kind: string) returns (printed: string, line: string)
    requires '\n' !in kind && Bytes("event: " + kind) < MAX_TOKEN
    ensures printed == "event: " + kind && Pieces(printed) == Scan([line], false)
    ensures Next(p, line) == Next(p, printed) && Dispatched(p, line) == Dispatched(p, printed) == []
  {
    printed, line := "event: " + kind, "event: " + DropReturn(kind);
    OnePiece(printed);
    DropPrefixed("event: ", kind);
    EventLine(p, kind);
    EventLine(p, DropReturn(kind));
    TrimDropped(kind);
  }

  /** Two streams are read alike. */
  ghost predicate Alike(p: Parser, a: seq<string>, b: seq<string>) {
    After(p, a) == After(p, b) && Events(p, a) == Events(p, b)
  }

  lemma AlikeOneMore(p: Parser, a: seq<string>, b: seq<string>, x: string, y: string)
    requires Alike(p, a, b)
    requires Next(After(p, a), x) == Next(After(p, a), y) && Dispatched(After(p, a), x) == Dispatched(After(p, a), y)
    ensures Alike(p, a + [x], b + [y])
  {
    LastLine(p, a, x);
    LastLine(p, b, y);
  }

  lemma {:induction false} DataLinesDropped(p: Parser, data: seq<string>)
    requires forall i :: 0 <= i < |data| ==> '\n' !in data[i] && Bytes("data: " + data[i]) < MAX_TOKEN
    ensures !PiecesAll(DataLines(data)).broken && Alike(p, PiecesAll(DataLines(data)).lines, DataLines(data))
  {
    if data != [] {
      var init, last := data[..|data| - 1], data[|data| - 1];
      assert forall i :: 0 <= i < |init| ==> init[i] == data[i];
      assert data[|init|] == last;
      DataLinesDropped(p, init);
      var a := PiecesAll(DataLines(init)).lines;
      var printed, line := DroppedData(After(p, a), last);
      PiecesOneMore(DataLines(init), printed);
      AlikeOneMore(p, a, DataLines(init), line, printed);
    }
  }

  /** A printed event without line breaks or long lines is read as if line by line. */
  lemma PrintScanned(p: Parser, e: Source)
    requires p.data == "" && OneLiner(e) && Short(e)
    ensures var scan := PiecesAll(Print(e));
            !scan.broken && After(p, scan.lines).data == "" && Events(p, scan.lines) == ReadOne(e)
  {
    var printed, line := DroppedKind(p, e.kind);
    AlikeOneMore(p, [], [], line, printed);
    assert [] + [line] == [line] && [] + [printed] == [printed];
    var q := After(p, [line]);
    DataLinesDropped(q, e.data);
    var a, b := PiecesAll(DataLines(e.data)).lines, DataLines(e.data);
    Split(p, [line], a);
    Split(p, [printed], b);
    AlikeOneMore(p, [line] + a, [printed] + b, "", "");
    PrintPieces(e);
    PrintRead(p.kind, e);
  }

  /** Printed events without line breaks or long lines are read one by one. */
  lemma {:induction false} AllRead(es: seq<Source>)
    requires AllOneLiners(es) && AllShort(es)
    ensures var scan := PiecesAll(PrintAll(es));
            !scan.broken && After(IDLE, scan.lines).data == "" && Events(IDLE, scan.lines) == ReadAll(es)
  {
    if es != [] {
      var init, last := es[..|es| - 1], es[|es| - 1];
      assert es == init + [last];
      AllOneLinersOneMore(init, last);
      AllShortOneMore(init, last);
      AllRead(init);
      var a := PiecesAll(PrintAll(init)).lines;
      var p := After(IDLE, a);
      PrintScanned(p, last);
      PiecesAppend(PrintAll(init), Print(last));
      Split(IDLE, a, PiecesAll(Print(last)).lines);
    }
  }

  // ----- the round trip

  /** The event survives being printed and read. */
  predicate Survives(e: Source) {
    Plain(e) && OneLiner(e) && Short(e)
  }

  lemma ScannedPrint(es: seq<Source>)
    ensures Scanned(Text(PrintAll(es))) == PiecesAll(PrintAll(es))
  {
    var lines := PrintAll(es);
    ScannedText(lines, "");
    assert Text(lines) + "" == Text(lines);
    ThenNothing(PiecesAll(lines));
  }

  predicate AllSurvive(es: seq<Source>) {
    forall i :: 0 <= i < |es| ==> Survives(es[i])
  }

  lemma SurvivalIs(es: seq<Source>)
    ensures AllSurvive(es) <==> AllPlain(es) && AllOneLiners(es) && AllShort(es)
  {
    if AllPlain(es) && AllOneLiners(es) && AllShort(es) {
      forall i | 0 <= i < |es| ensures Survives(es[i]) {
      }
    }
    if AllSurvive(es) {
      assert forall i :: 0 <= i < |es| ==> Survives(es[i]);
    }
  }

  /** Events are lost unless the printed text has no line breaks but its own and no line too long. */
  lemma LostUnless(es: seq<Source>)
    requires Events(IDLE, PiecesAll(PrintAll(es)).lines) == Meant(es)
    ensures AllOneLiners(es) && AllShort(es)
  {
    AllLose(es);
    NoLoss(es);
    AllBrokenIff(es);
  }

  /**
   * Printing events as one text and reading it gives back exactly those events if and only if each
   * has a trimmed type and trimmed data lines, none of them with a line break in it or too long for
   * the scanner, and the first data line not empty.
   */
  lemma RoundTripIff(es: seq<Source>)
    ensures Events(IDLE, Scanned(Text(PrintAll(es))).lines) == Meant(es) <==> AllSurvive(es)
    ensures AllSurvive(es) ==> !Scanned(Text(PrintAll(es))).broken
  {
    ScannedPrint(es);
    SurvivalIs(es);
    if Events(IDLE, PiecesAll(PrintAll(es)).lines) == Meant(es) {
      LostUnless(es);
    }
    if AllOneLiners(es) && AllShort(es) {
      AllRead(es);
      AllReadIff(es);
    }
  }

  // ----- as seen by the receiver

  function Handed(events: seq<Event>): seq<Yield<Event>> {
    seq(|events|, i requires 0 <= i < |events| => Delivered(events[i]))
  }

  /** The stream is decoded without errors, to a receiver that takes everything in time. */
  ghost predicate Smooth(s: Stream<Event>) {
    && (forall e :: s.decode(e) == Item(e))
    && (forall n :: s.wantsMore(n))
    && (forall n :: !s.cancelled(n))
  }

  lemma {:induction false} DeliversAll(s: Stream<Event>, events: seq<Event>)
    requires Smooth(s)
    ensures Deliver(s, events) == Delivery(Handed(events), false)
  {
    if events != [] {
      var init := events[..|events| - 1];
      DeliversAll(s, init);
      assert Handed(events) == Handed(init) + [Delivered(events[|init|])];
    }
  }

  lemma YieldsAll(s: Stream<Event>)
    requires Smooth(s)
    ensures Yields(s) == Handed(Events(IDLE, s.lines)) + if s.broken then [ReadError] else []
  {
    assert s.lines[..|s.lines|] == s.lines;
    DeliversAll(s, Events(IDLE, s.lines));
    ReadToEnd(s, Handed(Events(IDLE, s.lines)));
  }

  /** Handing over says which events were meant, and that there was no error. */
  lemma HandedIff(a: seq<Event>, broken: bool, b: seq<Event>)
    ensures Handed(a) + (if broken then [ReadError] else []) == Handed(b) <==> a == b && !broken
  {
    var out := Handed(a) + if broken then [ReadError] else [];
    assert broken ==> out[|a|] == ReadError;
    assert forall i :: 0 <= i < |b| ==> Handed(b)[i].Delivered?;
    if out == Handed(b) {
      forall i | 0 <= i < |a| ensures a[i] == b[i] {
        assert out[i] == Delivered(a[i]) && Handed(b)[i] == Delivered(b[i]);
      }
    }
  }

  /** A receiver is handed exactly the printed events, and no error, if and only if each survives. */
  lemma DeliveredIff(es: seq<Source>, s: Stream<Event>)
    requires Smooth(s) && Scan(s.lines, s.broken) == Scanned(Text(PrintAll(es)))
    ensures Yields(s) == Handed(Meant(es)) <==> AllSurvive(es)
  {
    RoundTripIff(es);
    YieldsAll(s);
    HandedIff(Events(IDLE, s.lines), s.broken, Meant(es));
  }
}
