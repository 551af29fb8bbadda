/** The handler's lines in pieces. A CR alone does not end a line of the handler's,
    so such a line is several lines to section 9.2 of the WHATWG HTML Standard. */
module SsePieces {
  import opened Wrappers
  import opened Text
  import opened SseFraming
  import opened SseLines
  import opened SsePrinting
  import opened SseStandard

  function Pieces(texts: seq<string>): seq<string> {
    if texts == [] then [] else Split(texts[0], '\r') + Pieces(texts[1..])
  }

  /** The finished pieces of text that no LF ends. */
  function FinishedPieces(text: string): seq<string> {
    var pieces := Split(text, '\r');
    pieces[..|pieces| - 1]
  }

  function Texts(lines: seq<Line>): (texts: seq<string>)
    ensures |texts| == |lines| && forall i :: 0 <= i < |lines| ==> texts[i] == lines[i].text
  {
    if lines == [] then [] else [lines[0].text] + Texts(lines[1..])
  }

  lemma {:induction false} FirstCr(s: string) returns (p: string, q: string)
    requires '\r' in s
    ensures s == p + "\r" + q && Plain(p, '\r')
  {
    if s[0] == '\r' {
      p, q := "", s[1..];
    } else {
      p, q := FirstCr(s[1..]);
      p := [s[0]] + p;
    }
  }

  lemma SplitAtCr(p: string, q: string)
    requires Plain(p, '\r')
    ensures Split(p + "\r" + q, '\r') == [p] + Split(q, '\r')
  {
    SplitPlain(p, '\r');
    SplitConcat(p, q, '\r');
  }

  lemma PlainIsOneLine(p: string)
    requires Plain(p, '\r') && Plain(p, '\n')
    ensures OneLine(p)
  {
  }

  /** A line that an LF ends, alone or after a CR. */
  lemma {:induction false} LineIsPieces(text: string, end: string, rest: string)
    requires Plain(text, '\n') && end in ["\n", "\r\n"]
    requires end == "\n" && text != "" ==> text[|text| - 1] != '\r'
    ensures StandardLines(text + end + rest) == Split(text, '\r') + StandardLines(rest)
    decreases |text|
  {
    hide StandardLines, Split;
    if '\r' in text {
      var p, q := FirstCr(text);
      var more := q + end + rest;
      assert text + end + rest == p + "\r" + more;
      PlainIsOneLine(p);
      StandardLine(p, "\r", more);
      LineIsPieces(q, end, rest);
      SplitAtCr(p, q);
      assert [p] + (Split(q, '\r') + StandardLines(rest)) == [p] + Split(q, '\r') + StandardLines(rest);
    } else {
      PlainIsOneLine(text);
      StandardLine(text, end, rest);
      SplitPlain(text, '\r');
    }
  }

  lemma NoLine(text: string)
    requires OneLine(text)
    ensures StandardLines(text) == []
  {
  }

  lemma {:induction false} OpenLineIsPieces(text: string)
    requires Plain(text, '\n')
    ensures StandardLines(text) == FinishedPieces(text)
    decreases |text|
  {
    hide StandardLines, Split;
    if '\r' in text {
      var p, q := FirstCr(text);
      PlainIsOneLine(p);
      StandardLine(p, "\r", q);
      OpenLineIsPieces(q);
      SplitAtCr(p, q);
      var pieces := Split(q, '\r');
      assert ([p] + pieces)[..|pieces|] == [p] + pieces[..|pieces| - 1];
    } else {
      PlainIsOneLine(text);
      NoLine(text);
      SplitPlain(text, '\r');
    }
  }

  lemma {:induction false} StandardLinesArePieces(s: string)
    ensures StandardLines(s) == Pieces(Texts(ReadLines(s))) + FinishedPieces(Unfinished(s))
    decreases |s|
  {
    hide StandardLines, FinishedPieces, IndexOfLf;
    LinesAreRead(s);
    if IndexOfLf(s).None? {
      OpenLineIsPieces(s);
      assert Pieces(Texts(ReadLines(s))) == [];
    } else {
      var i := IndexOfLf(s).value;
      ReadOne(s, i);
      var first, rest := ReadLines(s)[0], s[i + 1..];
      LineIsPieces(first.text, if first.crlf then "\r\n" else "\n", rest);
      StandardLinesArePieces(rest);
      PiecesCons(first.text, Texts(ReadLines(rest)));
      ConcatAssociative(Split(first.text, '\r'), Pieces(Texts(ReadLines(rest))), FinishedPieces(Unfinished(rest)));
    }
  }

  lemma PiecesCons(first: string, rest: seq<string>)
    ensures Pieces([first] + rest) == Split(first, '\r') + Pieces(rest)
  {
    assert ([first] + rest)[1..] == rest;
  }

  lemma {:induction false} PiecesConcat(p: seq<string>, q: seq<string>)
    ensures Pieces(p + q) == Pieces(p) + Pieces(q)
  {
    if p == [] {
      assert p + q == q;
    } else {
      assert (p + q)[1..] == p[1..] + q;
      PiecesConcat(p[1..], q);
    }
  }

  // The data of a line and of its pieces.

  predicate NoData(lines: seq<string>) {
    forall i :: 0 <= i < |lines| ==> LineData(lines[i]) == None
  }

  lemma {:induction false} NoDataExactly(lines: seq<string>)
    ensures DataLines(lines) == [] <==> NoData(lines)
  {
    if lines != [] {
      NoDataExactly(lines[1..]);
      assert forall i :: 1 <= i < |lines| ==> lines[i] == lines[1..][i - 1];
      assert forall i :: 0 <= i < |lines[1..]| ==> lines[1..][i] == lines[i + 1];
    }
  }

  /** A data line has no CR within, and another line has no piece with data. */
  predicate Clean(text: string) {
    if LineData(text).Some? then '\r' !in Trim(text) else NoData(Split(text, '\r'))
  }

  lemma {:induction false} WhiteEitherWay(s: string)
    ensures TrimStart(s) == "" <==> TrimEnd(s) == ""
  {
    if s != "" {
      WhiteEitherWay(s[1..]);
      assert s == [s[0]] + s[1..];
      TrimEndOver([s[0]], s[1..]);
      assert [s[0]][..0] == "";
      assert TrimEnd([s[0]]) == "" <==> IsWhitespace(s[0]);
    }
  }

  lemma {:induction false} WhiteHasNoData(s: string)
    requires TrimStart(s) == ""
    ensures LineData(s) == None && NoData(Split(s, '\r'))
    decreases |s|
  {
    if '\r' in s {
      var p, q := FirstCr(s);
      TrimStartOver(p, "\r" + q);
      assert s == p + ("\r" + q) && ("\r" + q)[1..] == q;
      SplitAtCr(p, q);
      WhiteHasNoData(p);
      WhiteHasNoData(q);
    } else {
      SplitPlain(s, '\r');
    }
  }

  lemma NothingToTrim(s: string)
    requires s != "" && !IsWhitespace(s[|s| - 1])
    ensures TrimEnd(s) == s
  {
  }

  lemma TrimCr(e: string)
    ensures TrimStart("\r" + e) == TrimStart(e)
  {
    assert ("\r" + e)[1..] == e;
  }

  /** The start of a value, trimmed, is no longer than the whole with its start trimmed. */
  lemma StartIsShorter(x: string)
    ensures |Trim(TrimEnd(x))| <= |TrimStart(x)|
  {
    hide TrimStart, TrimEnd;
    var y := TrimEnd(x);
    TrimEndPrefix(x);
    assert x == y + x[|y|..];
    TrimStartOver(y, x[|y|..]);
    TrimEndPrefix(TrimStart(y));
    WhiteEitherWay(x);
    WhiteEitherWay(y);
  }

  lemma TrimBehind(x: string, e: string)
    requires e != "" && !IsWhitespace(e[|e| - 1])
    ensures |Trim(x + "\r" + e)| > |TrimStart(x)|
  {
    hide TrimStart, TrimEnd;
    var tail := "\r" + e;
    assert x + "\r" + e == x + tail;
    TrimStartOver(x, tail);
    TrimCr(e);
    NothingToTrim(e);
    WhiteEitherWay(e);
    TrimStartSuffix(e);
    var v := TrimStart(x + tail);
    assert v != "" && v[|v| - 1] == e[|e| - 1];
    NothingToTrim(v);
  }

  /** A value that goes on behind a CR is longer than its first piece. */
  lemma LongerValue(x: string, e: string)
    requires e != "" && !IsWhitespace(e[|e| - 1])
    ensures |Trim(TrimEnd(x))| < |Trim(x + "\r" + e)|
  {
    StartIsShorter(x);
    TrimBehind(x, e);
  }

  lemma DataLinesCons(first: string, rest: seq<string>)
    ensures DataLines([first] + rest) == DataLines([first]) + DataLines(rest)
  {
    DataLinesConcat([first], rest);
  }

  /** A first piece of whitespace only. */
  lemma CleanPastWhite(p: string, q: string)
    requires Plain(p, '\r') && TrimStart(p) == ""
    ensures
      var text := p + "\r" + q;
      LineData(text) == LineData(q) && (Clean(text) <==> Clean(q)) &&
      DataLines(Split(text, '\r')) == DataLines(Split(q, '\r'))
  {
    var text := p + "\r" + q;
    assert text == p + ("\r" + q) && ("\r" + q)[1..] == q;
    TrimStartOver(p, "\r" + q);
    assert Trim(text) == Trim(q);
    SplitAtCr(p, q);
    WhiteHasNoData(p);
    DataLinesCons(p, Split(q, '\r'));
    NoDataExactly([p]);
    NoDataExactly(Split(q, '\r'));
    NoDataExactly(Split(text, '\r'));
  }

  /** A first piece with whitespace only behind it. */
  lemma CleanBeforeWhite(p: string, q: string)
    requires Plain(p, '\r') && TrimStart(p) != "" && TrimStart(q) == ""
    ensures
      var text := p + "\r" + q;
      LineData(text) == LineData(p) && Clean(text) &&
      DataLines(Split(text, '\r')) == DataLines([text])
  {
    var text := p + "\r" + q;
    assert text == p + ("\r" + q) && ("\r" + q)[1..] == q;
    TrimStartOver(p, "\r" + q);
    WhiteEitherWay(q);
    WhiteEitherWay("\r" + q);
    TrimEndOver(TrimStart(p), "\r" + q);
    assert Trim(text) == Trim(p);
    TrimStartSuffix(p);
    TrimEndPrefix(TrimStart(p));
    assert Plain(Trim(p), '\r');
    SplitAtCr(p, q);
    WhiteHasNoData(q);
    NoDataExactly(Split(q, '\r'));
    DataLinesCons(p, Split(q, '\r'));
    NoDataExactly(Split(text, '\r'));
    FieldIsDataLine(p);
    FieldIsDataLine(text);
  }

  lemma TrimWithin(p: string, q: string)
    requires TrimStart(p) != "" && TrimStart(q) != ""
    ensures Trim(p + "\r" + q) == TrimStart(p) + "\r" + TrimEnd(q)
    ensures TrimEnd(q) != "" && !IsWhitespace(TrimEnd(q)[|TrimEnd(q)| - 1])
  {
    hide TrimStart, TrimEnd;
    var t := TrimStart(p);
    assert p + "\r" + q == p + ("\r" + q);
    TrimStartOver(p, "\r" + q);
    WhiteEitherWay(q);
    TrimEndPrefix(q);
    assert t + ("\r" + q) == t + "\r" + q;
    TrimEndOver(t + "\r", q);
  }

  lemma TrimData(x: string)
    ensures TrimEnd(DATA + x) == DATA + TrimEnd(x)
  {
    TrimEndOver(DATA, x);
    assert TrimEnd(DATA) == DATA;
  }

  lemma ValueWithin(t: string, e: string)
    requires e != "" && !IsWhitespace(e[|e| - 1]) && DATA <= t + "\r" + e
    ensures DATA <= TrimEnd(t)
    ensures |Trim(TrimEnd(t)[|DATA|..])| < |Trim((t + "\r" + e)[|DATA|..])|
  {
    hide TrimStart, TrimEnd, Trim;
    DataInFront(t, e);
    var x := t[|DATA|..];
    assert (t + "\r" + e)[|DATA|..] == x + "\r" + e;
    assert t == DATA + x;
    TrimData(x);
    assert (DATA + TrimEnd(x))[|DATA|..] == TrimEnd(x);
    LongerValue(x, e);
  }

  lemma LineDataOf(line: string, trimmed: string)
    requires Trim(line) == trimmed
    ensures LineData(line) == if DATA <= trimmed then Some(Trim(trimmed[|DATA|..])) else None
  {
  }

  /** Text in front of a CR and more behind it. */
  lemma CleanWithin(p: string, q: string)
    requires TrimStart(p) != "" && TrimStart(q) != ""
    ensures '\r' in Trim(p + "\r" + q)
    ensures LineData(p + "\r" + q).Some? ==>
      LineData(p).Some? && |LineData(p).value| < |LineData(p + "\r" + q).value|
  {
    hide TrimStart, TrimEnd, LineData;
    var t, e := TrimStart(p), TrimEnd(q);
    var trimmed := t + "\r" + e;
    TrimWithin(p, q);
    assert trimmed[|t|] == '\r';
    LineDataOf(p + "\r" + q, trimmed);
    LineDataOf(p, TrimEnd(t));
    if DATA <= trimmed {
      hide Trim;
      ValueWithin(t, e);
    }
  }

  lemma DataInFront(t: string, e: string)
    requires DATA <= t + "\r" + e
    ensures DATA <= t
  {
    var whole := t + "\r" + e;
    assert '\r' !in DATA && whole[..|DATA|] == DATA && whole[|t|] == '\r';
    assert t == whole[..|t|];
  }

  /** The data of a line is that of its pieces exactly when the line is clean; and
      where there is data in the line, there is data in the pieces. */
  lemma {:induction false} CleanExactly(text: string)
    ensures LineData(text).Some? ==> DataLines(Split(text, '\r')) != []
    ensures DataLines(Split(text, '\r')) == DataLines([text]) <==> Clean(text)
    decreases |text|
  {
    FieldIsDataLine(text);
    NoDataExactly(Split(text, '\r'));
    if '\r' !in text {
      SplitPlain(text, '\r');
      TrimStartSuffix(text);
      TrimEndPrefix(TrimStart(text));
    } else {
      var p, q := FirstCr(text);
      if TrimStart(p) == "" {
        CleanPastWhite(p, q);
        CleanExactly(q);
        FieldIsDataLine(q);
      } else if TrimStart(q) == "" {
        CleanBeforeWhite(p, q);
      } else {
        CleanWithin(p, q);
        SplitAtCr(p, q);
        DataLinesCons(p, Split(q, '\r'));
        FieldIsDataLine(p);
      }
    }
  }
}
