/** Expansion of `${NAME}` placeholders in configuration text. */
module Placeholders {
  import opened Wrappers
  import opened Text

  type Environment = string -> Option<string>

  /** Does a placeholder start here? */
  predicate Opens(s: string) {
    |s| >= 2 && s[0] == '$' && s[1] == '{'
  }

  function IndexOfBrace(s: string): (p: Option<nat>)
    ensures p.Some? ==> p.value < |s| && s[p.value] == '}' && '}' !in s[..p.value]
    ensures p.None? ==> '}' !in s
  {
    if s == "" then None
    else if s[0] == '}' then Some(0)
    else match IndexOfBrace(s[1..]) case None => None case Some(i) => Some(i + 1)
  }

  /** Bytes taken one by one as characters. */
  function AsChars(bytes: seq<byte>): (s: string)
    ensures |s| == |bytes|
  {
    seq(|bytes|, i requires 0 <= i < |bytes| => bytes[i] as char)
  }

  function Before(prefix: string, r: Result<string, string>): Result<string, string> {
    if r.Ok? then Ok(prefix + r.value) else r
  }

  /** The expansion, or the name of the first variable that is not set. Literal
      text is copied byte by byte, each byte as a character of its own. */
  function Expand(env: Environment, s: string): Result<string, string>
    decreases |s|
  {
    if s == "" then Ok("")
    else if Opens(s) && IndexOfBrace(s[2..]).Some? then
      var end := IndexOfBrace(s[2..]).value;
      var name := s[2..2 + end];
      if env(name).None? then Err(name) else Before(env(name).value, Expand(env, s[2 + end + 1..]))
    else Before(AsChars(Utf8Char(s[0])), Expand(env, s[1..]))
  }

  method ExpandPlaceholders(env: Environment, input: string) returns (r: Result<string, string>)
    ensures r == Expand(env, input)
  {
    var out := "";
    var i := 0;
    BeforeNothing(Expand(env, input));
    assert input[0..] == input;
    while i < |input|
      invariant 0 <= i <= |input|
      invariant Expand(env, input) == Before(out, Expand(env, input[i..]))
    {
      if i + 1 < |input| && input[i] == '$' && input[i + 1] == '{' {
        var found := IndexOfBrace(input[i + 2..]);
        if found.Some? {
          var next := i + 2 + found.value + 1;
          var val := env(input[i + 2..next - 1]);
          VariableStep(env, input, i, out, next);
          if val.None? {
            return Err(input[i + 2..next - 1]);
          }
          out := out + val.value;
          i := next;
          continue;
        }
      }
      LiteralStep(env, input, i, out);
      out := out + AsChars(Utf8Char(input[i]));
      i := i + 1;
    }
    assert out + "" == out;
    r := Ok(out);
  }

  predicate VariableAt(input: string, i: nat)
    requires i < |input|
  {
    i + 1 < |input| && input[i] == '$' && input[i + 1] == '{' && IndexOfBrace(input[i + 2..]).Some?
  }

  lemma LiteralStep(env: Environment, input: string, i: nat, out: string)
    requires i < |input| && !VariableAt(input, i)
    ensures Before(out, Expand(env, input[i..])) ==
      Before(out + AsChars(Utf8Char(input[i])), Expand(env, input[i + 1..]))
  {
    ExpandAt(env, input, i);
    BeforeBefore(out, AsChars(Utf8Char(input[i])), Expand(env, input[i + 1..]));
  }

  lemma VariableStep(env: Environment, input: string, i: nat, out: string, next: nat)
    requires i < |input| && VariableAt(input, i) && next == i + 2 + IndexOfBrace(input[i + 2..]).value + 1
    ensures
      var name := input[i + 2..next - 1];
      Before(out, Expand(env, input[i..])) ==
      if env(name).None? then Err(name) else Before(out + env(name).value, Expand(env, input[next..]))
  {
    var name := input[i + 2..next - 1];
    ExpandAt(env, input, i);
    if env(name).Some? {
      BeforeBefore(out, env(name).value, Expand(env, input[next..]));
    }
  }

  /** `Expand` from position `i` of the input. */
  lemma ExpandAt(env: Environment, input: string, i: nat)
    requires i < |input|
    ensures
      Expand(env, input[i..]) ==
      if VariableAt(input, i) then
        var next := i + 2 + IndexOfBrace(input[i + 2..]).value + 1;
        var name := input[i + 2..next - 1];
        if env(name).None? then Err(name) else Before(env(name).value, Expand(env, input[next..]))
      else Before(AsChars(Utf8Char(input[i])), Expand(env, input[i + 1..]))
  {
    var rest := input[i..];
    assert rest[1..] == input[i + 1..];
    if Opens(rest) {
      assert rest[2..] == input[i + 2..];
      var found := IndexOfBrace(rest[2..]);
      if found.Some? {
        var end := found.value;
        assert rest[2..2 + end] == input[i + 2..i + 2 + end];
        assert rest[2 + end + 1..] == input[i + 2 + end + 1..];
      }
    }
  }

  lemma BeforeNothing(r: Result<string, string>)
    ensures Before("", r) == r
  {
    if r.Ok? {
      assert "" + r.value == r.value;
    }
  }

  lemma BeforeBefore(p: string, q: string, r: Result<string, string>)
    ensures Before(p, Before(q, r)) == Before(p + q, r)
  {
    if r.Ok? {
      assert p + (q + r.value) == p + q + r.value;
    }
  }

  // Templates: what a text means.

  datatype Part = Char(c: char) | Var(name: string)

  function PrintPart(p: Part): string {
    match p
    case Char(c) => [c]
    case Var(name) => "${" + name + "}"
  }

  function Print(parts: seq<Part>): string {
    if parts == [] then "" else PrintPart(parts[0]) + Print(parts[1..])
  }

  /** No two literal characters make a `${` by accident, and no name contains `}`. */
  ghost predicate WellFormed(parts: seq<Part>) {
    && (forall i :: 0 <= i < |parts| - 1 ==> !(parts[i] == Char('$') && parts[i + 1] == Char('{')))
    && (forall i :: 0 <= i < |parts| && parts[i].Var? ==> '}' !in parts[i].name)
  }

  /** What a part stands for; `literal` says how literal characters come out. */
  function Value(env: Environment, literal: char -> string, p: Part): Option<string> {
    match p
    case Char(c) => Some(literal(c))
    case Var(name) => env(name)
  }

  function Meaning(env: Environment, literal: char -> string, parts: seq<Part>): Result<string, string> {
    if parts == [] then Ok("")
    else
      var v := Value(env, literal, parts[0]);
      if v.None? then Err(parts[0].name) else Before(v.value, Meaning(env, literal, parts[1..]))
  }

  /** Each byte of a character as a character. */
  function ByBytes(): char -> string {
    c => AsChars(Utf8Char(c))
  }

  function Verbatim(): char -> string {
    c => [c]
  }

  function CopiedByBytes(s: string): string {
    if s == "" then "" else AsChars(Utf8Char(s[0])) + CopiedByBytes(s[1..])
  }

  /** Without a closing brace nothing is expanded: an unclosed `${` is copied. */
  lemma {:induction false} UnclosedIsCopied(env: Environment, s: string)
    requires '}' !in s
    ensures Expand(env, s) == Ok(CopiedByBytes(s))
    decreases |s|
  {
    if s != "" {
      UnclosedIsCopied(env, s[1..]);
    }
  }

  lemma {:induction false} IndexOfBraceAt(name: string, rest: string)
    requires '}' !in name
    ensures IndexOfBrace(name + "}" + rest) == Some(|name|)
  {
    if name != "" {
      assert (name + "}" + rest)[1..] == name[1..] + "}" + rest;
      IndexOfBraceAt(name[1..], rest);
    }
  }

  lemma ExpandVar(env: Environment, name: string, rest: string)
    requires '}' !in name
    ensures Expand(env, PrintPart(Var(name)) + rest) ==
      if env(name).None? then Err(name) else Before(env(name).value, Expand(env, rest))
  {
    var s := PrintPart(Var(name)) + rest;
    assert Opens(s) && s[2..] == name + "}" + rest;
    IndexOfBraceAt(name, rest);
    assert s[2..2 + |name|] == name && s[2 + |name| + 1..] == rest;
  }

  function WithTail(r: Result<string, string>, tail: string): Result<string, string> {
    if r.Ok? then Ok(r.value + tail) else r
  }

  lemma BeforeWithTail(p: string, r: Result<string, string>, tail: string)
    ensures WithTail(Before(p, r), tail) == Before(p, WithTail(r, tail))
  {
    if r.Ok? {
      assert p + r.value + tail == p + (r.value + tail);
    }
  }

  lemma WellFormedTail(parts: seq<Part>)
    requires WellFormed(parts) && parts != []
    ensures WellFormed(parts[1..])
  {
    forall i | 0 <= i < |parts[1..]| - 1
      ensures !(parts[1..][i] == Char('$') && parts[1..][i + 1] == Char('{'))
    {
      assert parts[1..][i] == parts[i + 1] && parts[1..][i + 1] == parts[i + 2];
    }
  }

  lemma PrintedHead(parts: seq<Part>, tail: string)
    requires parts != []
    ensures Print(parts) + tail == PrintPart(parts[0]) + (Print(parts[1..]) + tail)
  {
  }

  /** A literal character never starts a placeholder. */
  lemma ExpandChar(env: Environment, parts: seq<Part>, tail: string)
    requires WellFormed(parts) && '}' !in tail && parts != [] && parts[0].Char?
    ensures
      var rest := Print(parts[1..]) + tail;
      Expand(env, [parts[0].c] + rest) == Before(AsChars(Utf8Char(parts[0].c)), Expand(env, rest))
  {
    var c, rest := parts[0].c, Print(parts[1..]) + tail;
    var s := [c] + rest;
    assert s[1..] == rest;
    if |parts| > 1 {
      PrintedHead(parts[1..], tail);
      assert rest[0] == PrintPart(parts[1])[0];
      assert c == '$' ==> rest[0] != '{';
    } else {
      assert rest == tail;
      assert |s| >= 2 ==> s[2..] == tail[1..];
    }
  }

  /** Expanding a printed template gives the literals and the values in order;
      values are never expanded again, an unclosed tail is copied, and expansion
      fails exactly at the first variable that is not set. */
  lemma {:induction false} ExpandIsMeaning(env: Environment, parts: seq<Part>, tail: string)
    requires WellFormed(parts) && '}' !in tail
    ensures Expand(env, Print(parts) + tail) == WithTail(Meaning(env, ByBytes(), parts), CopiedByBytes(tail))
    decreases |parts|
  {
    if parts == [] {
      assert Print(parts) + tail == tail;
      UnclosedIsCopied(env, tail);
      assert "" + CopiedByBytes(tail) == CopiedByBytes(tail);
    } else {
      var rest := Print(parts[1..]) + tail;
      PrintedHead(parts, tail);
      WellFormedTail(parts);
      ExpandIsMeaning(env, parts[1..], tail);
      var v := Value(env, ByBytes(), parts[0]);
      if v.Some? {
        BeforeWithTail(v.value, Meaning(env, ByBytes(), parts[1..]), CopiedByBytes(tail));
      }
      if parts[0].Char? {
        ExpandChar(env, parts, tail);
      } else {
        ExpandVar(env, parts[0].name, rest);
      }
    }
  }

  /** Every text is a printed template, up to an unclosed tail. */
  function Parse(s: string): (r: (seq<Part>, string))
    decreases |s|
  {
    if s == "" then ([], "")
    else if Opens(s) then
      match IndexOfBrace(s[2..])
      case None => ([], s)
      case Some(end) =>
        var (parts, tail) := Parse(s[2 + end + 1..]);
        ([Var(s[2..2 + end])] + parts, tail)
    else
      var (parts, tail) := Parse(s[1..]);
      ([Char(s[0])] + parts, tail)
  }

  lemma ConsPrints(p: Part, parts: seq<Part>)
    ensures Print([p] + parts) == PrintPart(p) + Print(parts)
  {
    assert ([p] + parts)[1..] == parts;
  }

  lemma ConsWellFormed(p: Part, parts: seq<Part>)
    requires WellFormed(parts)
    requires p.Var? ==> '}' !in p.name
    requires p == Char('$') && parts != [] ==> parts[0] != Char('{')
    ensures WellFormed([p] + parts)
  {
    var all := [p] + parts;
    forall i | 0 <= i < |all| - 1
      ensures !(all[i] == Char('$') && all[i + 1] == Char('{'))
    {
      if i > 0 {
        assert all[i] == parts[i - 1] && all[i + 1] == parts[i];
      }
    }
  }

  ghost predicate Parses(s: string, parts: seq<Part>, tail: string) {
    && s == Print(parts) + tail
    && WellFormed(parts) && '}' !in tail
    && (parts != [] && parts[0].Char? ==> s != "" && parts[0].c == s[0])
  }

  lemma ParsesVar(name: string, rest: string, parts: seq<Part>, tail: string)
    requires Parses(rest, parts, tail) && '}' !in name
    ensures Parses(PrintPart(Var(name)) + rest, [Var(name)] + parts, tail)
  {
    ConsPrints(Var(name), parts);
    ConsWellFormed(Var(name), parts);
  }

  lemma ParsesChar(c: char, rest: string, parts: seq<Part>, tail: string)
    requires Parses(rest, parts, tail) && !(c == '$' && rest != "" && rest[0] == '{')
    ensures Parses([c] + rest, [Char(c)] + parts, tail)
  {
    ConsPrints(Char(c), parts);
    ConsWellFormed(Char(c), parts);
    assert [c] + rest == [c] + Print(parts) + tail;
  }

  lemma CutsVariable(s: string, end: nat)
    requires Opens(s) && IndexOfBrace(s[2..]) == Some(end)
    ensures '}' !in s[2..2 + end] && s == PrintPart(Var(s[2..2 + end])) + s[2 + end + 1..]
  {
    hide IndexOfBrace;
    assert s[2..][..end] == s[2..2 + end] && s[2..][end] == s[2 + end];
  }

  lemma TailParses(s: string)
    requires '}' !in s
    ensures Parses(s, [], s)
  {
  }

  /** So the meaning of every configuration text is settled by `ExpandIsMeaning`. */
  lemma {:induction false} ParsePrints(s: string)
    ensures Parses(s, Parse(s).0, Parse(s).1)
    decreases |s|
  {
    hide Parses, IndexOfBrace, PrintPart;
    if s == "" {
      TailParses(s);
    } else if !Opens(s) {
      ParsePrints(s[1..]);
      ParsesChar(s[0], s[1..], Parse(s[1..]).0, Parse(s[1..]).1);
      assert s == [s[0]] + s[1..];
    } else if IndexOfBrace(s[2..]).None? {
      assert s == [s[0], s[1]] + s[2..];
      TailParses(s);
    } else {
      var end := IndexOfBrace(s[2..]).value;
      var name, rest := s[2..2 + end], s[2 + end + 1..];
      ParsePrints(rest);
      CutsVariable(s, end);
      ParsesVar(name, rest, Parse(rest).0, Parse(rest).1);
    }
  }

  // Verbatim copying, and when it fails.

  ghost predicate Ascii(s: string) {
    forall i :: 0 <= i < |s| ==> s[i] < 128 as char
  }

  lemma {:induction false} CopiedExactly(s: string)
    ensures CopiedByBytes(s) == s <==> Ascii(s)
    ensures |CopiedByBytes(s)| >= |s|
    ensures !Ascii(s) ==> |CopiedByBytes(s)| > |s|
  {
    if s != "" {
      CopiedExactly(s[1..]);
      if s[0] < 128 as char {
        assert AsChars(Utf8Char(s[0])) == [s[0]];
        assert Ascii(s) <==> Ascii(s[1..]) by {
          assert forall i :: 1 <= i < |s| ==> s[i] == s[1..][i - 1];
        }
      }
    }
  }

  /** The literal characters of a template. */
  function Literals(parts: seq<Part>): string {
    if parts == [] then "" else (if parts[0].Char? then [parts[0].c] else "") + Literals(parts[1..])
  }

  lemma AsciiCons(c: char, s: string)
    ensures Ascii([c] + s) <==> c < 128 as char && Ascii(s)
    ensures c < 128 as char ==> AsChars(Utf8Char(c)) == [c]
  {
    var longer := [c] + s;
    assert forall i :: 0 <= i < |s| ==> longer[i + 1] == s[i];
    assert longer[0] == c;
  }

  ghost predicate SomeUnset(env: Environment, parts: seq<Part>) {
    exists i :: 0 <= i < |parts| && parts[i].Var? && env(parts[i].name).None?
  }

  lemma SomeUnsetCons(env: Environment, p: Part, parts: seq<Part>)
    ensures SomeUnset(env, [p] + parts) <==> (p.Var? && env(p.name).None?) || SomeUnset(env, parts)
  {
    var all := [p] + parts;
    assert all[0] == p;
    assert forall i :: 0 <= i < |parts| ==> all[i + 1] == parts[i];
    if SomeUnset(env, all) {
      var i :| 0 <= i < |all| && all[i].Var? && env(all[i].name).None?;
      if i > 0 {
        assert parts[i - 1] == all[i];
      }
    }
  }

  /** Whether literals are copied by bytes or verbatim, the same variable fails. */
  lemma {:induction false} FailsOnUnset(env: Environment, parts: seq<Part>)
    ensures
      var copied, meant := Meaning(env, ByBytes(), parts), Meaning(env, Verbatim(), parts);
      (copied.Err? <==> SomeUnset(env, parts)) && (meant.Err? <==> SomeUnset(env, parts)) &&
      (copied.Err? ==> copied == meant)
  {
    if parts != [] {
      FailsOnUnset(env, parts[1..]);
      SomeUnsetCons(env, parts[0], parts[1..]);
      assert [parts[0]] + parts[1..] == parts;
    }
  }

  lemma LiteralsCons(p: Part, parts: seq<Part>)
    ensures Literals([p] + parts) == (if p.Char? then [p.c] else "") + Literals(parts)
    ensures CopiedByBytes(Literals([p] + parts)) ==
      (if p.Char? then AsChars(Utf8Char(p.c)) else "") + CopiedByBytes(Literals(parts))
  {
    assert ([p] + parts)[1..] == parts;
    if p.Char? {
      assert ([p.c] + Literals(parts))[1..] == Literals(parts);
    } else {
      assert "" + Literals(parts) == Literals(parts);
      assert "" + CopiedByBytes(Literals(parts)) == CopiedByBytes(Literals(parts));
    }
  }

  /** Copying by bytes lengthens the result by as much as it lengthens the literals. */
  lemma {:induction false} LengthsCompare(env: Environment, parts: seq<Part>)
    requires Meaning(env, ByBytes(), parts).Ok?
    ensures Meaning(env, Verbatim(), parts).Ok?
    ensures
      var copied, meant := Meaning(env, ByBytes(), parts).value, Meaning(env, Verbatim(), parts).value;
      |copied| - |meant| == |CopiedByBytes(Literals(parts))| - |Literals(parts)|
  {
    if parts != [] {
      LengthsCompare(env, parts[1..]);
      LiteralsCons(parts[0], parts[1..]);
      assert [parts[0]] + parts[1..] == parts;
    }
  }

  lemma {:induction false} AsciiVerbatim(env: Environment, parts: seq<Part>)
    requires Ascii(Literals(parts))
    ensures Meaning(env, ByBytes(), parts) == Meaning(env, Verbatim(), parts)
  {
    if parts != [] {
      var p := parts[0];
      if p.Char? {
        AsciiCons(p.c, Literals(parts[1..]));
      } else {
        assert "" + Literals(parts[1..]) == Literals(parts[1..]);
      }
      AsciiVerbatim(env, parts[1..]);
    }
  }

  /** Every text is a printed template and an unclosed tail. It expands to its
      literals, values and tail in order exactly when literals and tail are ASCII;
      it fails exactly when some variable is not set. */
  lemma ExpandsVerbatimExactly(env: Environment, parts: seq<Part>, tail: string)
    requires WellFormed(parts) && '}' !in tail
    ensures Expand(env, Print(parts) + tail).Err? <==> SomeUnset(env, parts)
    ensures Expand(env, Print(parts) + tail) == WithTail(Meaning(env, Verbatim(), parts), tail)
      <==> SomeUnset(env, parts) || (Ascii(Literals(parts)) && Ascii(tail))
  {
    hide Expand, Print, Meaning, CopiedByBytes, SomeUnset;
    ExpandIsMeaning(env, parts, tail);
    FailsOnUnset(env, parts);
    CopiedExactly(Literals(parts));
    CopiedExactly(tail);
    if Ascii(Literals(parts)) {
      AsciiVerbatim(env, parts);
    }
    if Meaning(env, ByBytes(), parts).Ok? {
      LengthsCompare(env, parts);
    }
  }
}
