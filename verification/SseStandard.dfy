/** Section 9.2 of the WHATWG HTML Standard: its lines, its data fields and its
    dispatch at blank lines. A byte order mark in front of the text is taken to be
    gone. */
module SseStandard {
  import opened Wrappers
  import opened Text
  import opened SseFraming
  import opened SseLines
  import opened SsePrinting

  predicate IsBreak(c: char) {
    c == '\r' || c == '\n'
  }

  /** Where the first line of a text ends. */
  function LineEnd(s: string): (p: Option<nat>)
    ensures p.Some? ==> p.value < |s| && IsBreak(s[p.value]) && forall k :: 0 <= k < p.value ==> !IsBreak(s[k])
    ensures p.None? ==> forall k :: 0 <= k < |s| ==> !IsBreak(s[k])
  {
    if s == [] then None
    else if IsBreak(s[0]) then Some(0)
    else Shift(1, LineEnd(s[1..]))
  }

  function BreakWidth(s: string, i: nat): (width: nat)
    requires i < |s|
    ensures 1 <= width && i + width <= |s|
  {
    if i + 1 < |s| && s[i] == '\r' && s[i + 1] == '\n' then 2 else 1
  }

  /** Lines end in CR LF, in LF, or in a CR alone. What follows the last one is
      never dispatched. */
  function StandardLines(s: string): seq<string>
    decreases |s|
  {
    match LineEnd(s)
    case None => []
    case Some(i) => [s[..i]] + StandardLines(s[i + BreakWidth(s, i)..])
  }

  /** One space after the colon belongs to the syntax. */
  function DropSpace(s: string): string {
    if s != [] && s[0] == ' ' then s[1..] else s
  }

  /** The value of a `data` field; a line without a colon is a field without a value. */
  function StandardData(line: string): Option<string> {
    if line == "data" then Some("")
    else if DATA <= line then Some(DropSpace(line[|DATA|..]))
    else None
  }

  /** A way to read the data of a line. */
  type FieldReader = string -> Option<string>

  function Field(read: FieldReader, line: string): seq<string> {
    if read(line).Some? then [read(line).value] else []
  }

  /** Every blank line dispatches the data gathered since the one before. */
  function InterpretStandard(read: FieldReader, data: seq<string>, lines: seq<string>): seq<string>
    decreases |lines|
  {
    if lines == [] then []
    else if lines[0] == "" then Dispatched(data) + InterpretStandard(read, [], lines[1..])
    else InterpretStandard(read, data + Field(read, lines[0]), lines[1..])
  }

  /** The payloads of a text by the standard's lines and dispatch. */
  function StandardPayloads(read: FieldReader, body: string): seq<string> {
    InterpretStandard(read, [], StandardLines(body))
  }

  // Data fields.

  lemma FieldIsDataLine(line: string)
    ensures DataLines([line]) == Field(LineData, line)
  {
    assert [line][1..] == [];
  }

  lemma BlankHasNoData()
    ensures LineData("") == None
  {
    assert Trim("") == "";
  }

  /** What a line must be like for its data to be read as the standard reads it:
      a data field starts the line and has its colon, and apart from one space
      after the colon no whitespace surrounds its value. */
  predicate PlainField(line: string) {
    line != "data" && (DATA <= Trim(line) ==> DATA <= line && Trimmed(DropSpace(line[|DATA|..])))
  }

  lemma TrimField(value: string)
    ensures Trim(DATA + value) == DATA + TrimEnd(value)
  {
    assert TrimStart(DATA + value) == DATA + value;
    TrimEndOver(DATA, value);
    assert TrimEnd(DATA) == DATA;
  }

  lemma NoneOrOneSpace(value: string)
    ensures AllWhite("") && AllWhite(" ")
    ensures value == (if value != "" && value[0] == ' ' then " " else "") + DropSpace(value) + ""
  {
  }

  lemma ValueEnds(value: string)
    requires Trimmed(DropSpace(value)) && DropSpace(value) != ""
    ensures TrimEnd(value) == value
  {
    TrimmedEnds(DropSpace(value));
    assert value[|value| - 1] == DropSpace(value)[|DropSpace(value)| - 1];
  }

  lemma TrimValue(value: string)
    ensures Trim(TrimEnd(value)) == DropSpace(value) <==> Trimmed(DropSpace(value))
  {
    hide TrimStart, TrimEnd, Trim, AllWhite;
    TrimIsTrimmed(TrimEnd(value));
    var dropped := DropSpace(value);
    if Trimmed(dropped) {
      NoneOrOneSpace(value);
      if dropped == "" {
        TrimsAllWhite(value);
        TrimmedStays("");
      } else {
        ValueEnds(value);
        TrimTakesOff(if value[0] == ' ' then " " else "", dropped, "");
      }
    }
  }

  /** Trimming reads a line's data as the standard does exactly on plain fields. */
  lemma FieldsAlikeExactly(line: string)
    ensures LineData(line) == StandardData(line) <==> PlainField(line)
  {
    if DATA <= line {
      var value := line[|DATA|..];
      assert line == DATA + value;
      TrimField(value);
      assert (DATA + TrimEnd(value))[|DATA|..] == TrimEnd(value);
      TrimValue(value);
    } else if line == "data" {
      assert TrimStart(line) == line && TrimEnd(line) == line;
    }
  }

  lemma {:induction false} ReadersAgree(p: FieldReader, q: FieldReader, data: seq<string>, lines: seq<string>)
    requires forall i :: 0 <= i < |lines| ==> p(lines[i]) == q(lines[i])
    ensures InterpretStandard(p, data, lines) == InterpretStandard(q, data, lines)
    decreases |lines|
  {
    if lines != [] {
      assert forall i :: 0 <= i < |lines[1..]| ==> lines[1..][i] == lines[i + 1];
      ReadersAgree(p, q, [], lines[1..]);
      ReadersAgree(p, q, data + Field(p, lines[0]), lines[1..]);
    }
  }

  // What a client makes of printed payloads.

  ghost predicate OneLine(s: string) {
    forall i :: 0 <= i < |s| ==> !IsBreak(s[i])
  }

  lemma {:induction false} LineEndAt(s: string, i: nat)
    requires i < |s| && IsBreak(s[i]) && forall k :: 0 <= k < i ==> !IsBreak(s[k])
    ensures LineEnd(s) == Some(i)
  {
    assert LineEnd(s).Some?;
  }

  /** One line of a text, whichever way it ends. */
  lemma StandardLine(text: string, end: string, rest: string)
    requires OneLine(text) && end in ["\n", "\r", "\r\n"]
    requires end == "\r" ==> rest == "" || rest[0] != '\n'
    ensures StandardLines(text + end + rest) == [text] + StandardLines(rest)
  {
    var s := text + end + rest;
    assert s[|text|] == end[0] && s[..|text|] == text && s[|text| + |end|..] == rest;
    LineEndAt(s, |text|);
    assert |end| == 2 ==> s[|text| + 1] == '\n';
    assert |end| == 1 && rest != [] ==> s[|text| + 1] == rest[0];
  }

  lemma StandardField(read: FieldReader, payload: string, lines: seq<string>, data: seq<string>)
    requires read("data: " + payload) == Some(payload)
    ensures InterpretStandard(read, data, ["data: " + payload] + lines) == InterpretStandard(read, data + [payload], lines)
  {
    assert (["data: " + payload] + lines)[1..] == lines;
  }

  lemma StandardBlank(read: FieldReader, data: seq<string>, lines: seq<string>)
    ensures InterpretStandard(read, data, [""] + lines) == Dispatched(data) + InterpretStandard(read, [], lines)
  {
    assert ([""] + lines)[1..] == lines;
  }

  lemma PrintedField(payload: string)
    ensures StandardData("data: " + payload) == Some(payload)
  {
    assert ("data: " + payload)[|DATA|..] == " " + payload;
    assert (" " + payload)[1..] == payload;
  }

  lemma StandardPrinted(payload: string, rest: string)
    requires OneLine(payload)
    ensures StandardPayloads(StandardData, Print(payload) + rest) == [payload] + StandardPayloads(StandardData, rest)
  {
    var line := "data: " + payload;
    assert Print(payload) + rest == line + "\n" + ("" + "\n" + rest);
    StandardLine(line, "\n", "" + "\n" + rest);
    StandardLine("", "\n", rest);
    PrintedField(payload);
    StandardField(StandardData, payload, [""] + StandardLines(rest), []);
    StandardBlank(StandardData, [] + [payload], StandardLines(rest));
  }

  /** Whoever reads printed one-line payloads by the standard gets the payloads,
      surrounding whitespace included. */
  lemma {:induction false} StandardReadsPrint(payloads: seq<string>)
    requires forall i :: 0 <= i < |payloads| ==> OneLine(payloads[i])
    ensures StandardPayloads(StandardData, PrintAll(payloads)) == payloads
  {
    if payloads != [] {
      var rest := payloads[1..];
      assert forall i :: 0 <= i < |rest| ==> rest[i] == payloads[i + 1];
      StandardReadsPrint(rest);
      StandardPrinted(payloads[0], PrintAll(rest));
    }
  }
}
