/** The handler's reading does not depend on the kind of line end a text uses. */
module SseLineEndings {
  import opened Wrappers
  import opened SseFraming
  import opened SseLines
  import opened SsePrinting

  function LfToCrLf(s: string): string {
    if s == [] then "" else (if s[0] == '\n' then "\r\n" else [s[0]]) + LfToCrLf(s[1..])
  }

  function AsCrLf(lines: seq<Line>): seq<Line> {
    if lines == [] then [] else [lines[0].(crlf := true)] + AsCrLf(lines[1..])
  }

  lemma {:induction false} LfToCrLfLine(s: string, i: nat)
    requires '\r' !in s && i < |s| && s[i] == '\n' && '\n' !in s[..i]
    ensures LfToCrLf(s) == s[..i] + "\r\n" + LfToCrLf(s[i + 1..])
  {
    if i > 0 {
      assert s[..i][0] == s[0];
      assert s[..i] == [s[0]] + s[1..][..i - 1];
      assert s[1..][i..] == s[i + 1..];
      LfToCrLfLine(s[1..], i - 1);
    }
  }

  lemma {:induction false} LfToCrLfRest(s: string)
    requires '\n' !in s
    ensures LfToCrLf(s) == s
  {
    if s != [] {
      LfToCrLfRest(s[1..]);
    }
  }

  lemma {:induction false} ReadLinesCrLf(s: string)
    requires '\r' !in s
    ensures ReadLines(LfToCrLf(s)) == AsCrLf(ReadLines(s))
    ensures forall i :: 0 <= i < |ReadLines(s)| ==> !ReadLines(s)[i].crlf
    decreases |s|
  {
    var end := IndexOfLf(s);
    if end.Some? {
      var i := end.value;
      LfToCrLfLine(s, i);
      ReadCrLfLine(s[..i], LfToCrLf(s[i + 1..]));
      ReadLinesCrLf(s[i + 1..]);
      assert ReadLines(s) == [Line(s[..i], false)] + ReadLines(s[i + 1..]);
    } else {
      LfToCrLfRest(s);
    }
  }

  /** Once one line is read, blank lines close alike with either line end. */
  lemma {:induction false} BreaksReadAlike(data: seq<string>, lines: seq<Line>, crlf: bool)
    requires forall i :: 0 <= i < |lines| ==> !lines[i].crlf
    requires crlf || data == []
    ensures Interpret(Reader(data, crlf), AsCrLf(lines)) == Interpret(Reader(data, false), lines)
    decreases |lines|
  {
    if lines != [] {
      var rest := lines[1..];
      assert AsCrLf(lines)[1..] == AsCrLf(rest);
      assert forall i :: 0 <= i < |rest| ==> rest[i] == lines[i + 1];
      NoDataLine();
      BreaksReadAlike(Read(Reader(data, false), lines[0]).data, rest, true);
    }
  }

  /** Writing CR LF for every LF of a text without CR changes no payload, though
      the framing then cuts the events at different places. */
  lemma LineEndingsDoNotMatter(body: string)
    requires '\r' !in body
    ensures Payloads(LfToCrLf(body)) == Payloads(body)
  {
    PayloadsByLines(body);
    PayloadsByLines(LfToCrLf(body));
    ReadLinesCrLf(body);
    BreaksReadAlike([], ReadLines(body), false);
  }
}
