/** Exactly which texts the handler reads as section 9.2 of the WHATWG HTML Standard
    has it. */
module SseAgreement {
  import opened Wrappers
  import opened Text
  import opened SseFraming
  import opened SseLines
  import opened SsePrinting
  import opened SseStandard
  import opened SsePieces

  // The lines of one event. The standard sees a blank line at their end.

  /** No blank line has data both before and after it; `pending` tells whether
      there is data before the first line. */
  predicate Together(pending: bool, lines: seq<string>)
    decreases |lines|
  {
    lines == [] ||
    if lines[0] == "" && pending then NoData(lines[1..])
    else Together(pending || LineData(lines[0]).Some?, lines[1..])
  }

  /** No blank line has data before it. */
  predicate Undispatched(pending: bool, lines: seq<string>)
    decreases |lines|
  {
    lines == [] ||
    ((lines[0] == "" ==> !pending) && Undispatched(pending || LineData(lines[0]).Some?, lines[1..]))
  }

  /** The standard's reading of an event's lines and the blank line after them. */
  function StandardEvent(data: seq<string>, lines: seq<string>): seq<string> {
    InterpretStandard(LineData, data, lines + [""])
  }

  lemma StandardEventStep(data: seq<string>, lines: seq<string>)
    ensures StandardEvent(data, lines) ==
      if lines == [] then Dispatched(data)
      else if lines[0] == "" then Dispatched(data) + StandardEvent([], lines[1..])
      else StandardEvent(data + Field(LineData, lines[0]), lines[1..])
  {
    if lines == [] {
      StandardBlank(LineData, data, []);
      assert [""] + [] == lines + [""];
      assert Dispatched(data) + [] == Dispatched(data);
    } else {
      assert (lines + [""])[1..] == lines[1..] + [""];
    }
  }

  lemma DataStep(data: seq<string>, lines: seq<string>)
    requires lines != []
    ensures data + DataLines(lines) == data + Field(LineData, lines[0]) + DataLines(lines[1..])
    ensures lines[0] == "" ==> DataLines(lines) == DataLines(lines[1..]) && Field(LineData, lines[0]) == []
  {
    hide DataLines;
    BlankHasNoData();
    var first, rest := lines[0], lines[1..];
    assert lines == [first] + rest;
    DataLinesCons(first, rest);
    FieldIsDataLine(first);
    ConcatAssociative(data, Field(LineData, first), DataLines(rest));
    assert [] + DataLines(rest) == DataLines(rest);
  }

  /** Data is dispatched sooner or later. */
  lemma {:induction false} EventDispatches(data: seq<string>, lines: seq<string>)
    ensures data + DataLines(lines) == [] ==> StandardEvent(data, lines) == []
    ensures data + DataLines(lines) != [] ==> StandardEvent(data, lines) != []
    decreases |lines|
  {
    hide StandardEvent, DataLines, Field;
    StandardEventStep(data, lines);
    if lines == [] {
      NoDataExactly(lines);
      assert data + [] == data;
    } else {
      DataStep(data, lines);
      if lines[0] == "" {
        EventDispatches([], lines[1..]);
        assert [] + DataLines(lines[1..]) == DataLines(lines[1..]);
      } else {
        EventDispatches(data + Field(LineData, lines[0]), lines[1..]);
      }
    }
  }

  /** Data that is together is dispatched as one payload, other data as several. */
  lemma {:induction false} TogetherDecides(data: seq<string>, lines: seq<string>)
    ensures Together(data != [], lines) ==> StandardEvent(data, lines) == Dispatched(data + DataLines(lines))
    ensures !Together(data != [], lines) ==> |StandardEvent(data, lines)| >= 2
    decreases |lines|
  {
    hide StandardEvent, DataLines;
    StandardEventStep(data, lines);
    if lines == [] {
      NoDataExactly(lines);
      assert data + [] == data;
    } else {
      var rest := lines[1..];
      DataStep(data, lines);
      BlankHasNoData();
      assert [] + DataLines(rest) == DataLines(rest) && data + [] == data;
      if lines[0] == "" && data != [] {
        NoDataExactly(rest);
        EventDispatches([], rest);
      } else if lines[0] == "" {
        TogetherDecides([], rest);
      } else {
        TogetherDecides(data + Field(LineData, lines[0]), rest);
      }
    }
  }

  lemma {:induction false} UndispatchedExactly(data: seq<string>, lines: seq<string>)
    ensures InterpretStandard(LineData, data, lines) == [] <==> Undispatched(data != [], lines)
    decreases |lines|
  {
    if lines != [] {
      BlankHasNoData();
      if lines[0] == "" {
        UndispatchedExactly([], lines[1..]);
      } else {
        UndispatchedExactly(data + Field(LineData, lines[0]), lines[1..]);
      }
    }
  }

  predicate AllClean(texts: seq<string>) {
    forall i :: 0 <= i < |texts| ==> Clean(texts[i])
  }

  lemma {:induction false} AllCleanExactly(texts: seq<string>)
    ensures |DataLines(texts)| <= |DataLines(Pieces(texts))|
    ensures DataLines(texts) == DataLines(Pieces(texts)) <==> AllClean(texts)
  {
    if texts != [] {
      var first, rest := texts[0], texts[1..];
      assert texts == [first] + rest;
      CleanExactly(first);
      FieldIsDataLine(first);
      AllCleanExactly(rest);
      DataLinesCons(first, rest);
      DataLinesConcat(Split(first, '\r'), Pieces(rest));
      SameConcat(DataLines([first]), DataLines(Split(first, '\r')), DataLines(rest), DataLines(Pieces(rest)));
      assert AllClean(texts) <==> Clean(first) && AllClean(rest) by {
        assert forall i :: 1 <= i < |texts| ==> texts[i] == rest[i - 1];
        assert forall i :: 0 <= i < |rest| ==> rest[i] == texts[i + 1];
      }
    }
  }

  lemma SameConcat<T>(a: seq<T>, b: seq<T>, a': seq<T>, b': seq<T>)
    requires |a| <= |b| && |a'| <= |b'|
    ensures a + a' == b + b' <==> a == b && a' == b'
  {
    if a + a' == b + b' {
      assert |a| == |b|;
      assert a == (a + a')[..|a|] && b == (b + b')[..|b|];
      assert a' == (a + a')[|a|..] && b' == (b + b')[|b|..];
    }
  }

  // Payloads tell their data lines apart, because no line has an LF.

  lemma LineDataPlain(line: string)
    requires Plain(line, '\n') && LineData(line).Some?
    ensures Plain(LineData(line).value, '\n')
  {
    var t := Trim(line);
    TrimStartSuffix(line);
    TrimEndPrefix(TrimStart(line));
    TrimStartSuffix(t[|DATA|..]);
    TrimEndPrefix(TrimStart(t[|DATA|..]));
  }

  lemma {:induction false} DataLinesPlain(lines: seq<string>)
    requires AllPlain(lines, '\n')
    ensures AllPlain(DataLines(lines), '\n')
  {
    if lines != [] {
      assert forall i :: 0 <= i < |lines[1..]| ==> lines[1..][i] == lines[i + 1];
      DataLinesPlain(lines[1..]);
      if LineData(lines[0]).Some? {
        LineDataPlain(lines[0]);
      }
    }
  }

  lemma {:induction false} SplitKeepsPlain(s: string, separator: char, c: char)
    requires Plain(s, c)
    ensures AllPlain(Split(s, separator), c)
  {
    if s != "" {
      SplitKeepsPlain(s[1..], separator, c);
    }
  }

  lemma {:induction false} PiecesPlain(texts: seq<string>)
    requires AllPlain(texts, '\n')
    ensures AllPlain(Pieces(texts), '\n')
  {
    if texts != [] {
      assert forall i :: 0 <= i < |texts[1..]| ==> texts[1..][i] == texts[i + 1];
      SplitKeepsPlain(texts[0], '\r', '\n');
      PiecesPlain(texts[1..]);
    }
  }

  lemma DispatchedInjective(p: seq<string>, q: seq<string>)
    requires AllPlain(p, '\n') && AllPlain(q, '\n') && Dispatched(p) == Dispatched(q)
    ensures p == q
  {
    if p != [] && q != [] {
      SplitJoin(p, '\n');
      SplitJoin(q, '\n');
      assert Dispatched(p)[0] == Dispatched(q)[0];
    }
  }

  /** The lines of an event are read alike. */
  predicate EventAlike(texts: seq<string>) {
    AllClean(texts) && Together(false, Pieces(texts))
  }

  /** The handler dispatches no more for an event than the standard does, the same
      exactly if the event is read alike, and fewer if it is not although its lines
      are clean. */
  lemma EventDecides(texts: seq<string>)
    requires AllPlain(texts, '\n')
    ensures
      var handler, standard := Dispatched(DataLines(texts)), StandardEvent([], Pieces(texts));
      |handler| <= |standard| && (handler == standard <==> EventAlike(texts)) &&
      (AllClean(texts) && handler != standard ==> |handler| < |standard|)
  {
    hide StandardEvent, DataLines, Pieces, Clean;
    var pieces := Pieces(texts);
    AllCleanExactly(texts);
    PiecesPlain(texts);
    DataLinesPlain(texts);
    DataLinesPlain(pieces);
    TogetherDecides([], pieces);
    assert [] + DataLines(pieces) == DataLines(pieces);
    if Together(false, pieces) && Dispatched(DataLines(texts)) == Dispatched(DataLines(pieces)) {
      DispatchedInjective(DataLines(texts), DataLines(pieces));
    }
  }

  // The events of a text. A line that closes an event is blank to the standard too.

  /** The texts of the lines of each closed event, and of the lines after them. */
  datatype Framed = Framed(events: seq<seq<string>>, open: seq<string>)

  function Frame(crlf: bool, open: seq<string>, lines: seq<Line>): Framed
    decreases |lines|
  {
    if lines == [] then Framed([], open)
    else if Closes(Reader([], crlf), lines[0]) then
      var rest := Frame(lines[0].crlf, [], lines[1..]);
      Framed([open] + rest.events, rest.open)
    else Frame(lines[0].crlf, open + [lines[0].text], lines[1..])
  }

  function HandlerParts(events: seq<seq<string>>): (parts: seq<seq<string>>)
    ensures |parts| == |events| && forall i :: 0 <= i < |events| ==> parts[i] == Dispatched(DataLines(events[i]))
  {
    seq(|events|, i requires 0 <= i < |events| => Dispatched(DataLines(events[i])))
  }

  function StandardParts(events: seq<seq<string>>): (parts: seq<seq<string>>)
    ensures |parts| == |events| && forall i :: 0 <= i < |events| ==> parts[i] == StandardEvent([], Pieces(events[i]))
  {
    seq(|events|, i requires 0 <= i < |events| => StandardEvent([], Pieces(events[i])))
  }

  lemma {:induction false} HandlerByEvents(r: Reader, open: seq<string>, lines: seq<Line>)
    requires r.data == DataLines(open)
    ensures Interpret(r, lines) == Concat(HandlerParts(Frame(r.crlf, open, lines).events))
    decreases |lines|
  {
    hide DataLines, Dispatched;
    NoDataExactly([]);
    if lines != [] {
      var next, rest := Read(r, lines[0]), lines[1..];
      if Closes(r, lines[0]) {
        HandlerByEvents(next, [], rest);
        var events := Frame(next.crlf, [], rest).events;
        assert HandlerParts([open] + events) == [Dispatched(r.data)] + HandlerParts(events);
        ConcatCons(Dispatched(r.data), HandlerParts(events));
      } else {
        DataLinesConcat(open, [lines[0].text]);
        HandlerByEvents(next, open + [lines[0].text], rest);
        assert [] + Interpret(next, rest) == Interpret(next, rest);
      }
    }
  }

  lemma {:induction false} StandardSplits(data: seq<string>, lines: seq<string>, more: seq<string>)
    ensures InterpretStandard(LineData, data, lines + [""] + more) ==
      StandardEvent(data, lines) + InterpretStandard(LineData, [], more)
    decreases |lines|
  {
    hide StandardEvent, Field;
    var rest := InterpretStandard(LineData, [], more);
    StandardEventStep(data, lines);
    if lines == [] {
      assert lines + [""] + more == [""] + more;
      StandardBlank(LineData, data, more);
    } else {
      assert (lines + [""] + more)[1..] == lines[1..] + [""] + more;
      if lines[0] == "" {
        StandardSplits([], lines[1..], more);
        ConcatAssociative(Dispatched(data), StandardEvent([], lines[1..]), rest);
      } else {
        StandardSplits(data + Field(LineData, lines[0]), lines[1..], more);
      }
    }
  }

  lemma StandardCloses(open: seq<string>, events: seq<seq<string>>, later: seq<string>, more: seq<string>)
    requires InterpretStandard(LineData, [], later) == Concat(StandardParts(events)) + more
    ensures InterpretStandard(LineData, [], Pieces(open) + ([""] + later)) ==
      Concat(StandardParts([open] + events)) + more
  {
    hide StandardEvent, InterpretStandard, Pieces;
    var first := StandardEvent([], Pieces(open));
    assert Pieces(open) + ([""] + later) == Pieces(open) + [""] + later;
    StandardSplits([], Pieces(open), later);
    assert StandardParts([open] + events) == [first] + StandardParts(events);
    ConcatCons(first, StandardParts(events));
    ConcatAssociative(first, Concat(StandardParts(events)), more);
  }

  lemma {:induction false} StandardByEvents(crlf: bool, open: seq<string>, lines: seq<Line>, tail: seq<string>)
    ensures
      var f := Frame(crlf, open, lines);
      InterpretStandard(LineData, [], Pieces(open) + (Pieces(Texts(lines)) + tail)) ==
      Concat(StandardParts(f.events)) + InterpretStandard(LineData, [], Pieces(f.open) + tail)
    decreases |lines|
  {
    hide StandardParts, InterpretStandard, Pieces, Split;
    PiecesNone();
    if lines == [] {
      assert Pieces(open) + ([] + tail) == Pieces(open) + tail;
      NoParts();
    } else {
      var line, rest := lines[0], lines[1..];
      var later := Pieces(Texts(rest)) + tail;
      PiecesCons(line.text, Texts(rest));
      ConcatAssociative(Split(line.text, '\r'), Pieces(Texts(rest)), tail);
      if Closes(Reader([], crlf), line) {
        var f := Frame(line.crlf, [], rest);
        StandardByEvents(line.crlf, [], rest, tail);
        assert [] + later == later;
        SplitPlain("", '\r');
        StandardCloses(open, f.events, later, InterpretStandard(LineData, [], Pieces(f.open) + tail));
      } else {
        StandardByEvents(line.crlf, open + [line.text], rest, tail);
        PiecesConcat(open, [line.text]);
        PiecesOne(line.text);
        ConcatAssociative(Pieces(open), Split(line.text, '\r'), later);
      }
    }
  }

  lemma NoParts()
    ensures Concat(StandardParts([])) == []
  {
  }

  lemma PiecesNone()
    ensures Pieces([]) == []
  {
  }

  lemma PiecesOne(text: string)
    ensures Pieces([text]) == Split(text, '\r')
  {
    PiecesCons(text, []);
    assert [text] + [] == [text] && Split(text, '\r') + [] == Split(text, '\r');
  }

  /** Every line of an event is a line of the text. */
  lemma {:induction false} FrameMember(crlf: bool, open: seq<string>, lines: seq<Line>, i: nat, k: nat)
    requires i < |Frame(crlf, open, lines).events| && k < |Frame(crlf, open, lines).events[i]|
    ensures
      var text := Frame(crlf, open, lines).events[i][k];
      text in open || text in Texts(lines)
    decreases |lines|
  {
    var line, rest := lines[0], lines[1..];
    assert Texts(lines) == [line.text] + Texts(rest);
    if !Closes(Reader([], crlf), line) {
      FrameMember(line.crlf, open + [line.text], rest, i, k);
    } else if i > 0 {
      FrameMember(line.crlf, [], rest, i - 1, k);
    }
  }

  /** Lists compared part by part, none of the parts longer on the left. */
  ghost predicate PartsFit(a: seq<seq<string>>, b: seq<seq<string>>) {
    |a| == |b| && forall i :: 0 <= i < |a| ==> |a[i]| <= |b[i]|
  }

  lemma PartsTail(a: seq<seq<string>>, b: seq<seq<string>>)
    requires PartsFit(a, b) && a != []
    ensures PartsFit(a[1..], b[1..])
    ensures a == b <==> a[0] == b[0] && a[1..] == b[1..]
  {
    assert a == [a[0]] + a[1..] && b == [b[0]] + b[1..];
  }

  lemma {:induction false} PartsDecide(a: seq<seq<string>>, b: seq<seq<string>>, more: seq<string>)
    requires PartsFit(a, b)
    ensures |Concat(a)| <= |Concat(b)|
    ensures Concat(a) == Concat(b) + more <==> a == b && more == []
  {
    if a != [] {
      hide PartsFit;
      assert |a[0]| <= |b[0]| && |a| == |b| by {
        assert PartsFit(a, b);
        PartsFirst(a, b);
      }
      var a', b' := a[1..], b[1..];
      PartsTail(a, b);
      PartsDecide(a', b', more);
      ConcatAssociative(b[0], Concat(b'), more);
      SameConcat(a[0], b[0], Concat(a'), Concat(b') + more);
    }
  }

  lemma PartsFirst(a: seq<seq<string>>, b: seq<seq<string>>)
    requires PartsFit(a, b) && a != []
    ensures |a| == |b| && |a[0]| <= |b[0]|
  {
  }

  lemma {:induction false} PartShorter(a: seq<seq<string>>, b: seq<seq<string>>, i: nat)
    requires PartsFit(a, b) && i < |a| && |a[i]| < |b[i]|
    ensures |Concat(a)| < |Concat(b)|
  {
    PartsTail(a, b);
    if i == 0 {
      PartsDecide(a[1..], b[1..], []);
    } else {
      PartShorter(a[1..], b[1..], i - 1);
    }
  }

  /** Every event is read alike, and from the lines after the last event the
      standard dispatches nothing. */
  predicate ReadAlike(body: string) {
    var f := Frame(false, [], ReadLines(body));
    (forall i :: 0 <= i < |f.events| ==> EventAlike(f.events[i])) &&
    Undispatched(false, Pieces(f.open) + FinishedPieces(Unfinished(body)))
  }

  lemma EventsDecide(events: seq<seq<string>>, more: seq<string>)
    requires forall i :: 0 <= i < |events| ==> AllPlain(events[i], '\n')
    ensures
      var handler, standard := Concat(HandlerParts(events)), Concat(StandardParts(events)) + more;
      var alike := (forall i :: 0 <= i < |events| ==> EventAlike(events[i])) && more == [];
      |handler| <= |standard| && (handler == standard <==> alike) &&
      ((forall i :: 0 <= i < |events| ==> AllClean(events[i])) && !alike ==> |handler| < |standard|)
  {
    hide StandardEvent, DataLines, Pieces, AllClean, EventAlike;
    var a, b := HandlerParts(events), StandardParts(events);
    forall i | 0 <= i < |events|
      ensures |a[i]| <= |b[i]| && (a[i] == b[i] <==> EventAlike(events[i]))
      ensures AllClean(events[i]) && a[i] != b[i] ==> |a[i]| < |b[i]|
    {
      EventDecides(events[i]);
    }
    PartsDecide(a, b, more);
    if (forall i :: 0 <= i < |events| ==> AllClean(events[i])) && a != b {
      var i :| 0 <= i < |a| && a[i] != b[i];
      PartShorter(a, b, i);
    }
  }

  lemma BothByEvents(body: string)
    ensures
      var f := Frame(false, [], ReadLines(body));
      var more := InterpretStandard(LineData, [], Pieces(f.open) + FinishedPieces(Unfinished(body)));
      Payloads(body) == Concat(HandlerParts(f.events)) &&
      StandardPayloads(LineData, body) == Concat(StandardParts(f.events)) + more
  {
    var lines, tail := ReadLines(body), FinishedPieces(Unfinished(body));
    PayloadsByLines(body);
    HandlerByEvents(START, [], lines);
    StandardLinesArePieces(body);
    StandardByEvents(false, [], lines, tail);
    PiecesNone();
    assert [] + (Pieces(Texts(lines)) + tail) == StandardLines(body);
  }

  /** Every text: the handler's payloads are those of the standard's lines and
      blank lines exactly if the text is read alike. It never has more of them, and
      where all lines are clean a text not read alike loses some. */
  lemma PayloadsAreStandard(body: string)
    ensures Payloads(body) == StandardPayloads(LineData, body) <==> ReadAlike(body)
    ensures |Payloads(body)| <= |StandardPayloads(LineData, body)|
    ensures AllClean(Texts(ReadLines(body))) && !ReadAlike(body) ==>
      |Payloads(body)| < |StandardPayloads(LineData, body)|
  {
    hide StandardEvent, DataLines, Pieces, Clean, EventAlike, Frame, InterpretStandard, ReadLines, FinishedPieces;
    var lines := ReadLines(body);
    var f := Frame(false, [], lines);
    var open := Pieces(f.open) + FinishedPieces(Unfinished(body));
    BothByEvents(body);
    LinesAreRead(body);
    forall i, k | 0 <= i < |f.events| && 0 <= k < |f.events[i]|
      ensures f.events[i][k] in Texts(lines)
    {
      FrameMember(false, [], lines, i, k);
    }
    EventsDecide(f.events, InterpretStandard(LineData, [], open));
    UndispatchedExactly([], open);
  }

  // Without a CR that stands alone, every line is clean.

  ghost predicate CrBeforeLf(s: string) {
    forall i :: 0 <= i < |s| && s[i] == '\r' ==> i + 1 < |s| && s[i + 1] == '\n'
  }

  lemma PlainIsClean(text: string)
    requires Plain(text, '\r')
    ensures Clean(text)
  {
    CleanExactly(text);
    SplitPlain(text, '\r');
  }

  lemma {:induction false} NoLoneCrIsClean(s: string)
    requires CrBeforeLf(s)
    ensures AllClean(Texts(ReadLines(s)))
    decreases |s|
  {
    hide Clean, IndexOfLf;
    var lf := IndexOfLf(s);
    if lf.Some? {
      var i, rest := lf.value, s[lf.value + 1..];
      var text := ReadLines(s)[0].text;
      assert forall k :: 0 <= k < |rest| ==> rest[k] == s[k + i + 1];
      NoLoneCrIsClean(rest);
      forall k | 0 <= k < |text|
        ensures text[k] != '\r'
      {
        assert text[k] == s[k] && s[..i][k] == s[k];
        assert k + 1 < i ==> s[..i][k + 1] == s[k + 1];
      }
      PlainIsClean(text);
    }
  }

  /** So a text without a lone CR is read alike, or else loses payloads. */
  lemma OnlyLosesPayloads(body: string)
    requires CrBeforeLf(body)
    ensures Payloads(body) == StandardPayloads(LineData, body) || |Payloads(body)| < |StandardPayloads(LineData, body)|
  {
    NoLoneCrIsClean(body);
    PayloadsAreStandard(body);
  }

  /** A text of plain fields is read as the standard as a whole has it exactly if it
      is read alike. */
  lemma PlainTextIsStandard(body: string)
    requires forall i :: 0 <= i < |StandardLines(body)| ==> PlainField(StandardLines(body)[i])
    ensures Payloads(body) == StandardPayloads(StandardData, body) <==> ReadAlike(body)
  {
    var lines := StandardLines(body);
    forall i | 0 <= i < |lines|
      ensures LineData(lines[i]) == StandardData(lines[i])
    {
      FieldsAlikeExactly(lines[i]);
    }
    ReadersAgree(LineData, StandardData, [], lines);
    PayloadsAreStandard(body);
  }
}
