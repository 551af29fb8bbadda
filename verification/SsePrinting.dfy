/** Printing payloads as events, and what the line-by-line reading makes of them. */
module SsePrinting {
  import opened Wrappers
  import opened Text
  import opened SseFraming
  import opened SseLines

  /** A payload that fits on one data line: no white space at its ends, and no LF. */
  ghost predicate Printable(payload: string) {
    Trimmed(payload) && '\n' !in payload
  }

  /** Visible ASCII at both ends is enough. */
  lemma VisibleIsPrintable(payload: string)
    requires '\n' !in payload
    requires payload != "" ==> 0x21 <= payload[0] as int <= 0x7E && 0x21 <= payload[|payload| - 1] as int <= 0x7E
    ensures Printable(payload)
  {
  }

  /** A data line may be indented, and its value set off and followed by any white
      space; none of that is part of the data. */
  lemma DataLineHolds(indent: string, gap: string, value: string, after: string)
    requires AllWhite(indent) && AllWhite(gap) && Trimmed(value) && AllWhite(after)
    ensures LineData(indent + "data:" + gap + value + after) == Some(value)
  {
    hide TrimStart, TrimEnd, Trim, AllWhite;
    var field := "data:" + gap + value;
    if value == "" {
      assert indent + "data:" + gap + value + after == indent + "data:" + (gap + after);
      AllWhiteConcat(gap, after);
      TrimTakesOff(indent, "data:", gap + after);
      assert "data:"[5..] == "";
      TrimmedStays("");
    } else {
      assert field[|field| - 1] == value[|value| - 1];
      assert indent + "data:" + gap + value + after == indent + field + after;
      TrimTakesOff(indent, field, after);
      assert field[5..] == gap + value + "";
      NothingIsWhite();
      TrimTakesOff(gap, value, "");
    }
  }

  lemma NothingIsWhite()
    ensures AllWhite("")
  {
  }

  lemma AllWhiteConcat(s: string, t: string)
    requires AllWhite(s) && AllWhite(t)
    ensures AllWhite(s + t)
  {
  }

  function Print(payload: string): string {
    "data: " + payload + "\n\n"
  }

  /** The end mark, which is passed on unread, is written the same way. */
  lemma DoneIsPrinted()
    ensures Print("[DONE]") == "data: [DONE]\n\n"
  {
    var text := "data: [DONE]\n\n";
    assert text == "data: " + "[DONE]" + "\n\n";
  }

  function PrintAll(payloads: seq<string>): string {
    if payloads == [] then "" else Print(payloads[0]) + PrintAll(payloads[1..])
  }

  lemma PrintedLineData(payload: string)
    requires Printable(payload)
    ensures LineData("data: " + payload) == Some(payload)
  {
    assert "data: " + payload == "" + "data:" + " " + payload + "";
    DataLineHolds("", " ", payload, "");
  }

  lemma ReadLfLine(text: string, rest: string)
    requires ReadLine(Line(text, false))
    ensures ReadLines(text + "\n" + rest) == [Line(text, false)] + ReadLines(rest)
  {
    var s := text + "\n" + rest;
    assert s[..|text|] == text && s[|text| + 1..] == rest;
    IndexOfLfAt(s, |text|);
    if text != [] {
      assert s[|text| - 1] == text[|text| - 1];
    }
  }

  lemma ReadCrLfLine(text: string, rest: string)
    requires '\n' !in text
    ensures ReadLines(text + "\r\n" + rest) == [Line(text, true)] + ReadLines(rest)
  {
    var s := text + "\r\n" + rest;
    assert s[..|text| + 1] == text + "\r" && s[|text| + 2..] == rest && s[..|text|] == text;
    IndexOfLfAt(s, |text| + 1);
  }

  lemma PrintedLineReads(payload: string)
    requires Printable(payload)
    ensures ReadLine(Line("data: " + payload, false))
  {
    if payload != "" {
      TrimmedEnds(payload);
      var line := "data: " + payload;
      assert line[|line| - 1] == payload[|payload| - 1];
    }
  }

  lemma BlankReads()
    ensures ReadLine(Line("", false))
  {
  }

  lemma ReadLinesOfPrint(payload: string, rest: string)
    requires Printable(payload)
    ensures ReadLines(Print(payload) + rest) == [Line("data: " + payload, false), Line("", false)] + ReadLines(rest)
  {
    hide ReadLines, Printable, ReadLine;
    var line := "data: " + payload;
    PrintedLineReads(payload);
    assert ReadLine(Line("", false)) by {
      BlankReads();
    }
    assert Print(payload) + rest == line + "\n" + ("" + "\n" + rest);
    ReadLfLine(line, "" + "\n" + rest);
    ReadLfLine("", rest);
  }

  lemma InterpretCons(r: Reader, line: Line, rest: seq<Line>)
    ensures Interpret(r, [line] + rest) ==
      (if Closes(r, line) then Dispatched(r.data) else []) + Interpret(Read(r, line), rest)
  {
    assert ([line] + rest)[1..] == rest;
  }

  lemma NoDataLine()
    ensures DataLines([""]) == []
  {
    assert [""][1..] == [];
  }

  lemma OneDataLine(payload: string)
    requires Printable(payload)
    ensures DataLines(["data: " + payload]) == [payload]
  {
    PrintedLineData(payload);
    assert ["data: " + payload][1..] == [];
  }

  lemma InterpretPrintedOne(p: string, lines: seq<Line>)
    requires Printable(p)
    ensures Interpret(START, [Line("data: " + p, false), Line("", false)] + lines) == [p] + Interpret(START, lines)
  {
    var line, blank := Line("data: " + p, false), Line("", false);
    OneDataLine(p);
    InterpretCons(START, line, [blank] + lines);
    InterpretCons(Reader([p], false), blank, lines);
    assert [line] + ([blank] + lines) == [line, blank] + lines;
    assert [] + [p] == [p];
    assert [] + ([p] + Interpret(START, lines)) == [p] + Interpret(START, lines);
  }

  lemma {:induction false} InterpretPrinted(payloads: seq<string>)
    requires forall i :: 0 <= i < |payloads| ==> Printable(payloads[i])
    ensures Interpret(START, ReadLines(PrintAll(payloads))) == payloads
  {
    if payloads != [] {
      var p, rest := payloads[0], PrintAll(payloads[1..]);
      assert forall i :: 0 <= i < |payloads[1..]| ==> payloads[1..][i] == payloads[i + 1];
      ReadLinesOfPrint(p, rest);
      InterpretPrinted(payloads[1..]);
      InterpretPrintedOne(p, ReadLines(rest));
      assert payloads == [p] + payloads[1..];
    }
  }
}
