/** Reading the payload of an event, and an independent line-by-line reading of
    a whole stream in the manner of section 9.2 of the WHATWG HTML Standard. */
module SseLines {
  import opened Wrappers
  import opened Text
  import opened SseFraming

  // The handler's reading of one event.

  function IndexOfLf(s: string): (p: Option<nat>)
    ensures p.Some? ==> p.value < |s| && s[p.value] == '\n' && '\n' !in s[..p.value]
    ensures p.None? ==> '\n' !in s
  {
    if s == [] then None
    else if s[0] == '\n' then Some(0)
    else Shift(1, IndexOfLf(s[1..]))
  }

  function StripCr(s: string): string {
    if s != [] && s[|s| - 1] == '\r' then s[..|s| - 1] else s
  }

  /** Rust's `str::lines`: an LF ends a line, a CR right before it goes with it,
      and a last line needs no end. */
  function Lines(s: string): seq<string>
    decreases |s|
  {
    if s == [] then []
    else
      match IndexOfLf(s)
      case None => [s]
      case Some(i) => [StripCr(s[..i])] + Lines(s[i + 1..])
  }

  const DATA := "data:"

  /** The data a line carries, if it is a data line. */
  function LineData(line: string): Option<string> {
    var t := Trim(line);
    if DATA <= t then Some(Trim(t[|DATA|..])) else None
  }

  function DataLines(lines: seq<string>): seq<string> {
    if lines == [] then []
    else (if LineData(lines[0]).Some? then [LineData(lines[0]).value] else []) + DataLines(lines[1..])
  }

  function Payload(data: seq<string>): Option<string> {
    if data == [] then None else Some(Join(data, "\n"))
  }

  function ParseData(event: string): Option<string> {
    Payload(DataLines(Lines(event)))
  }

  /** The payloads of the events that carry one. */
  function PayloadsOf(events: seq<string>): seq<string> {
    if events == [] then []
    else (if ParseData(events[0]).Some? then [ParseData(events[0]).value] else []) + PayloadsOf(events[1..])
  }

  /** What framing and parsing make of a whole text. */
  function Payloads(body: string): seq<string> {
    PayloadsOf(Drain(CHARS, body).events)
  }

  lemma {:induction false} PayloadsOfConcat(p: seq<string>, q: seq<string>)
    ensures PayloadsOf(p + q) == PayloadsOf(p) + PayloadsOf(q)
  {
    if p == [] {
      assert p + q == q;
    } else {
      assert (p + q)[1..] == p[1..] + q;
      PayloadsOfConcat(p[1..], q);
    }
  }

  lemma {:induction false} DataLinesConcat(p: seq<string>, q: seq<string>)
    ensures DataLines(p + q) == DataLines(p) + DataLines(q)
  {
    if p == [] {
      assert p + q == q;
    } else {
      assert (p + q)[1..] == p[1..] + q;
      DataLinesConcat(p[1..], q);
    }
  }

  // The line-by-line reading.

  /** A complete line, and whether CR LF or a bare LF ended it. */
  datatype Line = Line(text: string, crlf: bool)

  function Raw(line: Line): string {
    line.text + if line.crlf then "\r\n" else "\n"
  }

  /** A line as reading leaves it: no LF inside, and a CR before a bare LF would
      have made it a CR LF. */
  ghost predicate ReadLine(line: Line) {
    '\n' !in line.text && (!line.crlf && line.text != [] ==> line.text[|line.text| - 1] != '\r')
  }

  function RawAll(lines: seq<Line>): string {
    if lines == [] then "" else Raw(lines[0]) + RawAll(lines[1..])
  }

  /** The complete lines of a text; what follows the last LF is dropped. */
  function ReadLines(s: string): (lines: seq<Line>)
    decreases |s|
  {
    match IndexOfLf(s)
    case None => []
    case Some(i) =>
      var crlf := i > 0 && s[i - 1] == '\r';
      [Line(s[..if crlf then i - 1 else i], crlf)] + ReadLines(s[i + 1..])
  }

  function Unfinished(s: string): string
    decreases |s|
  {
    match IndexOfLf(s)
    case None => s
    case Some(i) => Unfinished(s[i + 1..])
  }

  lemma ReadOne(s: string, i: nat)
    requires IndexOfLf(s) == Some(i)
    ensures ReadLine(ReadLines(s)[0]) && s == Raw(ReadLines(s)[0]) + s[i + 1..]
  {
    hide IndexOfLf;
    var text := ReadLines(s)[0].text;
    assert text <= s[..i];
    assert forall k :: 0 <= k < |text| ==> text[k] == s[..i][k];
  }

  ghost predicate AllRead(lines: seq<Line>) {
    forall i :: 0 <= i < |lines| ==> ReadLine(lines[i])
  }

  lemma {:induction false} LinesAreRead(s: string)
    ensures AllRead(ReadLines(s)) && '\n' !in Unfinished(s)
    decreases |s|
  {
    if IndexOfLf(s).Some? {
      var i := IndexOfLf(s).value;
      ReadOne(s, i);
      LinesAreRead(s[i + 1..]);
    }
  }

  lemma RawAllNone()
    ensures RawAll([]) == ""
  {
  }

  lemma RawAllCons(first: Line, rest: seq<Line>)
    ensures RawAll([first] + rest) == Raw(first) + RawAll(rest)
  {
    assert ([first] + rest)[1..] == rest;
  }

  lemma {:induction false} ReadLinesSplits(s: string)
    ensures s == RawAll(ReadLines(s)) + Unfinished(s)
    decreases |s|
  {
    hide Raw, RawAll;
    if IndexOfLf(s).None? {
      assert RawAll([]) == "" by { RawAllNone(); }
    } else {
      var i := IndexOfLf(s).value;
      var first, rest := ReadLines(s)[0], s[i + 1..];
      ReadOne(s, i);
      ReadLinesSplits(rest);
      RawAllCons(first, ReadLines(rest));
      assert ReadLines(s) == [first] + ReadLines(rest);
      ConcatAssociative(Raw(first), RawAll(ReadLines(rest)), Unfinished(rest));
    }
  }

  /** Data gathered so far, and whether the latest line ended in CR LF. */
  datatype Reader = Reader(data: seq<string>, crlf: bool)

  /** A blank line closes an event, except a CR LF right after a bare LF: that
      pair of breaks is neither of the two the framing looks for. */
  predicate Closes(r: Reader, line: Line) {
    line.text == "" && (line.crlf ==> r.crlf)
  }

  function Read(r: Reader, line: Line): Reader {
    if Closes(r, line) then Reader([], line.crlf)
    else Reader(r.data + DataLines([line.text]), line.crlf)
  }

  /** The payloads dispatched when data gathered so far is closed. */
  function Dispatched(data: seq<string>): seq<string> {
    if data == [] then [] else [Join(data, "\n")]
  }

  /** Every line in turn: data lines gather, a closing line dispatches them. */
  function Interpret(r: Reader, lines: seq<Line>): seq<string>
    decreases |lines|
  {
    if lines == [] then []
    else
      (if Closes(r, lines[0]) then Dispatched(r.data) else []) + Interpret(Read(r, lines[0]), lines[1..])
  }

  const START := Reader([], false)

  // Framing, fed one line at a time, does exactly this.

  ghost predicate EndsLine(s: string) {
    s == [] || s[|s| - 1] == '\n'
  }

  lemma {:induction false} IndexOfLfAt(s: string, i: nat)
    requires i < |s| && s[i] == '\n' && '\n' !in s[..i]
    ensures IndexOfLf(s) == Some(i)
  {
    if i > 0 {
      assert s[..i][0] == s[0];
      assert s[..i] == [s[0]] + s[1..][..i - 1];
      IndexOfLfAt(s[1..], i - 1);
    }
  }

  lemma LinesOfRaw(line: Line)
    requires ReadLine(line)
    ensures Lines(Raw(line)) == [line.text]
  {
    var s := Raw(line);
    var i := |s| - 1;
    assert s[..i] == line.text + if line.crlf then "\r" else "";
    IndexOfLfAt(s, i);
    assert Lines(s[i + 1..]) == [];
  }

  lemma {:induction false} LinesAppend(s: string, line: Line)
    requires EndsLine(s) && ReadLine(line)
    ensures Lines(s + Raw(line)) == Lines(s) + [line.text]
    decreases |s|
  {
    var whole := s + Raw(line);
    match IndexOfLf(s)
    case None =>
      assert whole == Raw(line);
      LinesOfRaw(line);
    case Some(i) =>
      assert whole[..i] == s[..i] && whole[i + 1..] == s[i + 1..] + Raw(line);
      IndexOfLfAt(whole, i);
      LinesAppend(s[i + 1..], line);
  }

  /** A last line needs no end. */
  lemma {:induction false} LinesLast(s: string, text: string)
    requires EndsLine(s) && '\n' !in text && text != ""
    ensures Lines(s + text) == Lines(s) + [text]
    decreases |s|
  {
    var whole := s + text;
    match IndexOfLf(s)
    case None =>
      assert whole == text;
    case Some(i) =>
      assert whole[..i] == s[..i] && whole[i + 1..] == s[i + 1..] + text;
      IndexOfLfAt(whole, i);
      LinesLast(s[i + 1..], text);
  }

  /** The buffer the framing holds while the reader is in state `r`. */
  ghost predicate Holds(r: Reader, buffer: string) {
    && EndsLine(buffer)
    && EventEnd(CHARS, buffer) == None
    && DataLines(Lines(buffer)) == r.data
    && (buffer != [] ==> (r.crlf <==> |buffer| >= 2 && buffer[|buffer| - 2] == '\r'))
  }

  /** A line that closes nothing leaves the buffer without an event end. */
  lemma NoEndYet(r: Reader, buffer: string, line: Line)
    requires Holds(r, buffer) && ReadLine(line)
    requires !Closes(r, line) || buffer == []
    ensures EventEnd(CHARS, buffer + Raw(line)) == None
  {
    var whole := buffer + Raw(line);
    EventEndIsFirst(CHARS, buffer);
    EventEndIsFirst(CHARS, whole);
    forall k | |buffer| <= k < |whole| - 1
      ensures whole[k] != '\n'
    {
      if k - |buffer| < |line.text| {
        assert whole[k] == line.text[k - |buffer|];
      }
    }
    forall i: nat
      ensures !EndsAt(CHARS, whole, i)
    {
      assert !EndsAt(CHARS, buffer, i);
    }
  }

  /** A line that closes nothing: no event comes out, and its data is gathered. */
  lemma FeedOpen(r: Reader, buffer: string, line: Line)
    requires Holds(r, buffer) && ReadLine(line) && !Closes(r, line)
    ensures Drain(CHARS, buffer + Raw(line)) == Drained([], buffer + Raw(line))
    ensures Holds(Read(r, line), buffer + Raw(line))
  {
    NoEndYet(r, buffer, line);
    LinesAppend(buffer, line);
    DataLinesConcat(Lines(buffer), [line.text]);
    RawEnds(buffer, line);
  }

  /** What the last two units of a line's raw text say. */
  lemma RawEnds(buffer: string, line: Line)
    requires ReadLine(line) && EndsLine(buffer)
    requires line.text != [] || line.crlf || buffer == []
    ensures
      var whole := buffer + Raw(line);
      EndsLine(whole) && (line.crlf <==> |whole| >= 2 && whole[|whole| - 2] == '\r')
  {
    var whole := buffer + Raw(line);
    if !line.crlf && line.text != [] {
      assert whole[|whole| - 2] == line.text[|line.text| - 1];
    }
  }

  lemma OneEvent(event: string)
    ensures PayloadsOf([event]) == Dispatched(DataLines(Lines(event)))
  {
    assert [event][1..] == [];
  }

  lemma CloseByLf(r: Reader, buffer: string, line: Line)
    requires Holds(r, buffer) && line == Line("", false) && buffer != []
    ensures Drain(CHARS, buffer + Raw(line)) == Drained([buffer + "\n"], "")
    ensures DataLines(Lines(buffer + "\n")) == r.data
  {
    var whole := buffer + "\n";
    var p := |buffer| - 1;
    assert Raw(line) == "\n";
    NoEndBefore(buffer, line, p);
    DrainTakes(CHARS, whole, whole, "", p);
    assert Drain(CHARS, "") == Drained([], "");
    LinesAppend(buffer, line);
    DataLinesConcat(Lines(buffer), [""]);
  }

  lemma CloseByCrLf(r: Reader, buffer: string, line: Line)
    requires Holds(r, buffer) && line == Line("", true) && r.crlf && buffer != []
    ensures Drain(CHARS, buffer + Raw(line)) == Drained([buffer], "\r\n")
  {
    assert Raw(line) == "\r\n";
    var p := |buffer| - 2;
    NoEndBefore(buffer, line, p);
    DrainTakes(CHARS, buffer + "\r\n", buffer, "\r\n", p);
    assert Drain(CHARS, "\r\n") == Drained([], "\r\n");
  }

  /** What is left after a closing line holds no data. */
  lemma NothingHeld()
    ensures Holds(Reader([], false), "") && Holds(Reader([], false), "\n") && Holds(Reader([], true), "\r\n")
  {
    LinesOfRaw(Line("", false));
    LinesOfRaw(Line("", true));
    assert Lines("\n") == [""] && Lines("\r\n") == [""] && [""][1..] == [];
  }

  lemma NoDataHeld(r: Reader)
    requires Holds(r, "")
    ensures r.data == []
  {
  }

  lemma CloseNothing(r: Reader, line: Line)
    requires Holds(r, "") && ReadLine(line) && Closes(r, line)
    ensures
      var d := Drain(CHARS, "" + Raw(line));
      PayloadsOf(d.events) == Dispatched(r.data) && Holds(Read(r, line), d.left)
  {
    hide Lines, DataLines, EventEnd;
    NoEndYet(r, "", line);
    NoDataHeld(r);
    NothingHeld();
    assert "" + Raw(line) == if line.crlf then "\r\n" else "\n";
  }

  /** A closing line completes an event whose payload is the gathered data. */
  lemma FeedClosing(r: Reader, buffer: string, line: Line)
    requires Holds(r, buffer) && ReadLine(line) && Closes(r, line)
    ensures
      var d := Drain(CHARS, buffer + Raw(line));
      PayloadsOf(d.events) == Dispatched(r.data) && Holds(Read(r, line), d.left)
  {
    hide Drain, EventEnd, Lines, PayloadsOf, DataLines;
    NothingHeld();
    if buffer == [] {
      CloseNothing(r, line);
    } else if line.crlf {
      CloseByCrLf(r, buffer, line);
      OneEvent(buffer);
    } else {
      CloseByLf(r, buffer, line);
      OneEvent(buffer + "\n");
    }
  }

  lemma NoEndBefore(buffer: string, line: Line, p: nat)
    requires EndsLine(buffer) && buffer != [] && EventEnd(CHARS, buffer) == None && line.text == []
    requires if line.crlf then |buffer| >= 2 && buffer[|buffer| - 2] == '\r' && p == |buffer| - 2 else p == |buffer| - 1
    ensures EventEnd(CHARS, buffer + Raw(line)) == Some(p)
  {
    var whole := buffer + Raw(line);
    EventEndIsFirst(CHARS, buffer);
    assert EndsAt(CHARS, whole, p);
    forall i | 0 <= i < p
      ensures !EndsAt(CHARS, whole, i)
    {
      assert !EndsAt(CHARS, buffer, i);
    }
    FirstIsEventEnd(CHARS, whole, p);
  }

  lemma PayloadsMore(b: string, more: string)
    ensures
      var first := Drain(CHARS, b);
      var second := Drain(CHARS, first.left + more);
      var both := Drain(CHARS, b + more);
      PayloadsOf(both.events) == PayloadsOf(first.events) + PayloadsOf(second.events) && both.left == second.left
  {
    var first := Drain(CHARS, b);
    DrainMore(CHARS, b, more);
    PayloadsOfConcat(first.events, Drain(CHARS, first.left + more).events);
  }

  lemma FeedLine(r: Reader, buffer: string, line: Line)
    requires Holds(r, buffer) && ReadLine(line)
    ensures
      var d := Drain(CHARS, buffer + Raw(line));
      PayloadsOf(d.events) == (if Closes(r, line) then Dispatched(r.data) else []) && Holds(Read(r, line), d.left)
  {
    if Closes(r, line) {
      FeedClosing(r, buffer, line);
    } else {
      FeedOpen(r, buffer, line);
    }
  }

  /** Draining `b` yields the given payloads and stops at a line end. */
  ghost predicate Yields(b: string, payloads: seq<string>) {
    var d := Drain(CHARS, b);
    PayloadsOf(d.events) == payloads && EndsLine(d.left) && EventEnd(CHARS, d.left) == None
  }

  lemma YieldsMore(now: string, rest: string, first: seq<string>, second: seq<string>)
    requires PayloadsOf(Drain(CHARS, now).events) == first && Yields(Drain(CHARS, now).left + rest, second)
    ensures Yields(now + rest, first + second)
  {
    PayloadsMore(now, rest);
  }

  lemma FramingStep(r: Reader, buffer: string, line: Line, rest: string, later: seq<string>)
    requires Holds(r, buffer) && ReadLine(line)
    requires Yields(Drain(CHARS, buffer + Raw(line)).left + rest, later)
    ensures Yields(buffer + Raw(line) + rest, (if Closes(r, line) then Dispatched(r.data) else []) + later)
  {
    FeedLine(r, buffer, line);
    YieldsMore(buffer + Raw(line), rest, if Closes(r, line) then Dispatched(r.data) else [], later);
  }

  lemma DrainNone(buffer: string)
    requires EventEnd(CHARS, buffer) == None && EndsLine(buffer)
    ensures Yields(buffer, [])
  {
    assert Drain(CHARS, buffer) == Drained([], buffer);
  }

  /** Feeding the lines one by one, each as its own chunk. */
  lemma {:induction false} FramingInterprets(r: Reader, buffer: string, lines: seq<Line>)
    requires Holds(r, buffer) && AllRead(lines)
    ensures Yields(buffer + RawAll(lines), Interpret(r, lines))
    decreases |lines|
  {
    hide Drain, EventEnd, Lines, PayloadsOf, DataLines, Raw;
    if lines == [] {
      assert buffer + RawAll(lines) == buffer;
      DrainNone(buffer);
    } else {
      var now, rest := buffer + Raw(lines[0]), RawAll(lines[1..]);
      assert buffer + RawAll(lines) == now + rest;
      FeedLine(r, buffer, lines[0]);
      FramingInterprets(Read(r, lines[0]), Drain(CHARS, now).left, lines[1..]);
      FramingStep(r, buffer, lines[0], rest, Interpret(Read(r, lines[0]), lines[1..]));
    }
  }

  lemma UnfinishedIsHeld(buffer: string, rest: string)
    requires EndsLine(buffer) && EventEnd(CHARS, buffer) == None && '\n' !in rest
    ensures Drain(CHARS, buffer + rest) == Drained([], buffer + rest)
  {
    var whole := buffer + rest;
    EventEndIsFirst(CHARS, buffer);
    EventEndIsFirst(CHARS, whole);
    assert forall k :: |buffer| <= k < |whole| ==> whole[k] in rest;
    forall i: nat
      ensures !EndsAt(CHARS, whole, i)
    {
      assert !EndsAt(CHARS, buffer, i);
    }
  }

  lemma HoldsAtStart()
    ensures Holds(START, "")
  {
  }

  /** For every text, framing by event ends and parsing each event gives what
      reading it line by line gives. */
  lemma PayloadsByLines(body: string)
    ensures Payloads(body) == Interpret(START, ReadLines(body))
  {
    HoldsAtStart();
    hide Drain, EventEnd, Lines, DataLines, RawAll, ReadLines, Unfinished, Interpret;
    ReadLinesSplits(body);
    LinesAreRead(body);
    var raw, rest := RawAll(ReadLines(body)), Unfinished(body);
    FramingInterprets(START, "", ReadLines(body));
    assert "" + raw == raw;
    PayloadsMore(raw, rest);
    UnfinishedIsHeld(Drain(CHARS, raw).left, rest);
  }
}
