/** Two families of texts that the handler reads differently from section 9.2 of the
    WHATWG HTML Standard. */
module SseDifferences {
  import opened Wrappers
  import opened Text
  import opened SseFraming
  import opened SseLines
  import opened SsePrinting
  import opened SseStandard

  /** `a` before and `b` after a blank CR LF line that follows a bare LF. */
  function MixedBlank(a: string, b: string): string {
    "data: " + a + "\n" + ("" + "\r\n" + Print(b))
  }

  lemma StandardOneEvent(payload: string, lines: seq<string>)
    ensures InterpretStandard(StandardData, [], ["data: " + payload] + ([""] + lines)) ==
      [payload] + InterpretStandard(StandardData, [], lines)
  {
    hide InterpretStandard, StandardData;
    PrintedField(payload);
    StandardField(StandardData, payload, [""] + lines, []);
    assert [] + [payload] == [payload];
    StandardBlank(StandardData, [payload], lines);
    assert Dispatched([payload]) == [payload];
  }

  lemma PrintedOnly(b: string)
    requires OneLine(b)
    ensures StandardPayloads(StandardData, Print(b)) == [b]
  {
    assert Print(b) + "" == Print(b);
    StandardPrinted(b, "");
  }

  lemma MixedBlankStandard(a: string, b: string)
    requires OneLine(a) && OneLine(b)
    ensures StandardPayloads(StandardData, MixedBlank(a, b)) == [a, b]
  {
    hide InterpretStandard, StandardLines, Print;
    var second := Print(b);
    PrintedOnly(b);
    StandardLine("", "\r\n", second);
    StandardLine("data: " + a, "\n", "" + "\r\n" + second);
    StandardOneEvent(a, StandardLines(second));
  }

  lemma ReadPrinted(b: string)
    requires Printable(b)
    ensures ReadLines(Print(b)) == [Line("data: " + b, false), Line("", false)]
  {
    assert Print(b) + "" == Print(b);
    ReadLinesOfPrint(b, "");
    assert ReadLines("") == [];
  }

  lemma ReadMixedBlank(a: string, b: string)
    requires Printable(a) && Printable(b)
    ensures ReadLines(MixedBlank(a, b)) ==
      [Line("data: " + a, false)] + ([Line("", true)] + [Line("data: " + b, false), Line("", false)])
  {
    hide ReadLines, Print, Printable;
    PrintedLineReads(a);
    ReadLfLine("data: " + a, "" + "\r\n" + Print(b));
    ReadCrLfLine("", Print(b));
    ReadPrinted(b);
  }

  /** The last two lines, read when `a` is still pending. */
  lemma InterpretPending(a: string, b: string)
    requires Printable(b)
    ensures Interpret(Reader([a], true), [Line("data: " + b, false), Line("", false)]) == [a + "\n" + b]
  {
    OneDataLine(b);
    var end := [Line("", false)];
    assert [Line("data: " + b, false), Line("", false)] == [Line("data: " + b, false)] + end;
    InterpretCons(Reader([a], true), Line("data: " + b, false), end);
    assert [a] + [b] == [a, b] && [a, b][1..] == [b];
    assert Join([b], "\n") == b && Join([a, b], "\n") == a + "\n" + b;
    assert end == [Line("", false)] + [];
    assert Read(Reader([a], true), Line("data: " + b, false)) == Reader([a, b], false);
    assert Closes(Reader([a, b], false), Line("", false));
    InterpretCons(Reader([a, b], false), Line("", false), []);
  }

  lemma MixedBlankPayloads(a: string, b: string)
    requires Printable(a) && Printable(b)
    ensures Payloads(MixedBlank(a, b)) == [a + "\n" + b]
  {
    var rest := [Line("data: " + b, false), Line("", false)];
    ReadMixedBlank(a, b);
    PayloadsByLines(MixedBlank(a, b));
    OneDataLine(a);
    NoDataLine();
    InterpretCons(START, Line("data: " + a, false), [Line("", true)] + rest);
    assert [] + [a] == [a] && [a] + [] == [a];
    InterpretCons(Reader([a], false), Line("", true), rest);
    InterpretPending(a, b);
  }

  /** The standard sees two events, the handler one. */
  lemma MixedBlankMerges(a: string, b: string)
    requires Printable(a) && Printable(b) && OneLine(a) && OneLine(b)
    ensures StandardPayloads(StandardData, MixedBlank(a, b)) == [a, b]
    ensures Payloads(MixedBlank(a, b)) == [a + "\n" + b]
  {
    MixedBlankStandard(a, b);
    MixedBlankPayloads(a, b);
  }

  /** Lines that end in a CR alone. */
  function LoneCrs(a: string, b: string): string {
    "data: " + a + "\r" + ("" + "\r" + CrLfEvent(b))
  }

  function CrLfEvent(b: string): string {
    "data: " + b + "\r\n" + ("" + "\n" + "")
  }

  lemma CrLfEventStandard(b: string)
    requires OneLine(b)
    ensures StandardPayloads(StandardData, CrLfEvent(b)) == [b]
  {
    StandardLine("", "\n", "");
    StandardLine("data: " + b, "\r\n", "" + "\n" + "");
    StandardOneEvent(b, []);
  }

  lemma LoneCrEvent(a: string, rest: string)
    requires OneLine(a) && (rest != "" ==> rest[0] != '\n')
    ensures StandardPayloads(StandardData, "data: " + a + "\r" + ("" + "\r" + rest)) ==
      [a] + StandardPayloads(StandardData, rest)
  {
    StandardLine("", "\r", rest);
    StandardLine("data: " + a, "\r", "" + "\r" + rest);
    StandardOneEvent(a, StandardLines(rest));
  }

  lemma LoneCrsStandard(a: string, b: string)
    requires OneLine(a) && OneLine(b)
    ensures StandardPayloads(StandardData, LoneCrs(a, b)) == [a, b]
  {
    CrLfEventStandard(b);
    LoneCrEvent(a, CrLfEvent(b));
  }

  lemma LoneCrsPayloads(a: string, b: string)
    requires a != "" && b != "" && Printable(a) && Printable(b)
    ensures Payloads(LoneCrs(a, b)) == [a + "\r\rdata: " + b]
  {
    var p := a + "\r\rdata: " + b;
    TrimmedEnds(a);
    TrimmedEnds(b);
    assert p[0] == a[0] && p[|p| - 1] == b[|b| - 1];
    assert Printable(p);
    assert LoneCrs(a, b) == "data: " + p + "\r\n" + ("" + "\n" + "");
    ReadCrLfLine("data: " + p, "" + "\n" + "");
    ReadLfLine("", "");
    PayloadsByLines(LoneCrs(a, b));
    OneDataLine(p);
    InterpretCons(START, Line("data: " + p, true), [Line("", false)] + []);
    InterpretCons(Reader([p], true), Line("", false), []);
  }

  /** The standard sees two events, the handler one that holds the text of both. */
  lemma LoneCrsMerge(a: string, b: string)
    requires a != "" && b != "" && Printable(a) && Printable(b) && OneLine(a) && OneLine(b)
    ensures StandardPayloads(StandardData, LoneCrs(a, b)) == [a, b]
    ensures Payloads(LoneCrs(a, b)) == [a + "\r\rdata: " + b]
  {
    LoneCrsStandard(a, b);
    LoneCrsPayloads(a, b);
  }
}
