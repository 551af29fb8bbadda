/** Strings and their UTF-8 bytes. */
module Text {
  type byte = b: int | 0 <= b < 256

  /** The UTF-8 encoding of one character (RFC 3629, section 3). */
  function Utf8Char(c: char): (bytes: seq<byte>)
    ensures 1 <= |bytes| <= 4
    ensures c < 128 as char ==> bytes == [c as int]
    ensures c >= 128 as char ==> |bytes| >= 2 && forall i :: 0 <= i < |bytes| ==> bytes[i] >= 128
  {
    var code := c as int;
    if code < 0x80 then [code]
    else if code < 0x800 then [0xC0 + code / 0x40, 0x80 + code % 0x40]
    else if code < 0x1_0000 then [0xE0 + code / 0x1000, 0x80 + code / 0x40 % 0x40, 0x80 + code % 0x40]
    else [0xF0 + code / 0x4_0000, 0x80 + code / 0x1000 % 0x40, 0x80 + code / 0x40 % 0x40, 0x80 + code % 0x40]
  }

  function Utf8(s: string): seq<byte> {
    if s == [] then [] else Utf8Char(s[0]) + Utf8(s[1..])
  }

  lemma {:induction false} Utf8Concat(s: string, t: string)
    ensures Utf8(s + t) == Utf8(s) + Utf8(t)
  {
    if s == [] {
      assert s + t == t;
    } else {
      assert (s + t)[1..] == s[1..] + t;
      Utf8Concat(s[1..], t);
    }
  }

  function WidthOf(first: byte): nat {
    if first < 0x80 then 1 else if first < 0xE0 then 2 else if first < 0xF0 then 3 else 4
  }

  function CodeOf(b: seq<int>): int
    requires 1 <= |b| <= 4
  {
    match |b|
    case 1 => b[0]
    case 2 => (b[0] - 0xC0) * 0x40 + (b[1] - 0x80)
    case 3 => (b[0] - 0xE0) * 0x1000 + (b[1] - 0x80) * 0x40 + (b[2] - 0x80)
    case _ => (b[0] - 0xF0) * 0x4_0000 + (b[1] - 0x80) * 0x1000 + (b[2] - 0x80) * 0x40 + (b[3] - 0x80)
  }

  lemma Utf8CharReads(c: char)
    ensures |Utf8Char(c)| == WidthOf(Utf8Char(c)[0])
    ensures CodeOf(Utf8Char(c)) == c as int
  {
    var code := c as int;
    assert code / 0x40 / 0x40 == code / 0x1000;
    assert code / 0x1000 / 0x40 == code / 0x4_0000;
  }

  /** As few bytes as the code point needs, the first of them telling how many, and
      the others with six bits each. */
  lemma Utf8CharShape(c: char)
    ensures
      var b, code := Utf8Char(c), c as int;
      |b| == (if code < 0x80 then 1 else if code < 0x800 then 2 else if code < 0x1_0000 then 3 else 4) &&
      (|b| == 2 ==> 0xC0 <= b[0] < 0xE0) && (|b| == 3 ==> 0xE0 <= b[0] < 0xF0) && (|b| == 4 ==> 0xF0 <= b[0] < 0xF8) &&
      forall i :: 1 <= i < |b| ==> 0x80 <= b[i] < 0xC0
  {
  }

  /** The first bytes tell the first character. */
  lemma Utf8CharPrefix(c: char, d: char, x: seq<byte>, y: seq<byte>)
    requires Utf8Char(c) + x == Utf8Char(d) + y
    ensures c == d && x == y
  {
    var p, q, whole := Utf8Char(c), Utf8Char(d), Utf8Char(c) + x;
    Utf8CharReads(c);
    Utf8CharReads(d);
    assert whole[0] == p[0] && whole[0] == q[0];
    assert p == whole[..|p|] && q == whole[..|q|];
    assert x == whole[|p|..] && y == whole[|q|..];
  }

  lemma {:induction false} Utf8Injective(s: string, t: string)
    requires Utf8(s) == Utf8(t)
    ensures s == t
  {
    if s != [] && t != [] {
      Utf8CharPrefix(s[0], t[0], Utf8(s[1..]), Utf8(t[1..]));
      Utf8Injective(s[1..], t[1..]);
    }
  }

  /** A decoder that reads well-formed UTF-8 back as the text it encodes. What it
      does with malformed bytes is left open. */
  ghost predicate DecodesUtf8(decode: seq<byte> -> string) {
    forall s: string :: decode(Utf8(s)) == s
  }

  lemma DecoderExists()
    ensures exists decode: seq<byte> -> string :: DecodesUtf8(decode)
  {
    var decode: seq<byte> -> string := bytes => if exists s :: Utf8(s) == bytes then TextOf(bytes) else "";
    forall s: string
      ensures decode(Utf8(s)) == s
    {
      Utf8Injective(decode(Utf8(s)), s);
    }
    assert DecodesUtf8(decode);
  }

  ghost function TextOf(bytes: seq<byte>): string
    requires exists s :: Utf8(s) == bytes
  {
    var s :| Utf8(s) == bytes;
    s
  }

  // Trimming.

  /** Unicode's White_Space property. */
  predicate IsWhitespace(c: char) {
    var code := c as int;
    0x09 <= code <= 0x0D || code in {0x20, 0x85, 0xA0, 0x1680, 0x2028, 0x2029, 0x202F, 0x205F, 0x3000} ||
    0x2000 <= code <= 0x200A
  }

  /** The code points with Unicode's White_Space property. */
  const WHITE_SPACE: set<int> := {
    0x0009, 0x000A, 0x000B, 0x000C, 0x000D, 0x0020, 0x0085, 0x00A0, 0x1680,
    0x2000, 0x2001, 0x2002, 0x2003, 0x2004, 0x2005, 0x2006, 0x2007, 0x2008, 0x2009, 0x200A,
    0x2028, 0x2029, 0x202F, 0x205F, 0x3000}

  lemma WhitespaceTable(c: char)
    ensures IsWhitespace(c) <==> c as int in WHITE_SPACE
  {
  }

  /** No white space at either end. */
  predicate Trimmed(s: string) {
    s != [] ==> s[0] as int !in WHITE_SPACE && s[|s| - 1] as int !in WHITE_SPACE
  }

  lemma TrimmedEnds(s: string)
    requires s != []
    ensures Trimmed(s) <==> !IsWhitespace(s[0]) && !IsWhitespace(s[|s| - 1])
  {
    WhitespaceTable(s[0]);
    WhitespaceTable(s[|s| - 1]);
  }

  function TrimStart(s: string): string {
    if s != [] && IsWhitespace(s[0]) then TrimStart(s[1..]) else s
  }

  function TrimEnd(s: string): string {
    if s != [] && IsWhitespace(s[|s| - 1]) then TrimEnd(s[..|s| - 1]) else s
  }

  function Trim(s: string): string {
    TrimEnd(TrimStart(s))
  }

  lemma {:induction false} TrimStartSuffix(s: string)
    ensures |TrimStart(s)| <= |s|
    ensures TrimStart(s) == s[|s| - |TrimStart(s)|..]
    ensures TrimStart(s) != [] ==> !IsWhitespace(TrimStart(s)[0])
  {
    if s != [] && IsWhitespace(s[0]) {
      TrimStartSuffix(s[1..]);
    }
  }

  lemma {:induction false} TrimEndPrefix(s: string)
    ensures |TrimEnd(s)| <= |s|
    ensures TrimEnd(s) == s[..|TrimEnd(s)|]
    ensures TrimEnd(s) != [] ==> !IsWhitespace(TrimEnd(s)[|TrimEnd(s)| - 1])
  {
    if s != [] && IsWhitespace(s[|s| - 1]) {
      TrimEndPrefix(s[..|s| - 1]);
    }
  }

  lemma {:induction false} TrimStartOver(p: string, x: string)
    ensures TrimStart(p + x) == if TrimStart(p) == "" then TrimStart(x) else TrimStart(p) + x
  {
    if p == [] {
      assert p + x == x;
    } else {
      assert (p + x)[1..] == p[1..] + x;
      TrimStartOver(p[1..], x);
    }
  }

  lemma {:induction false} TrimEndOver(x: string, q: string)
    ensures TrimEnd(x + q) == if TrimEnd(q) == "" then TrimEnd(x) else x + TrimEnd(q)
  {
    if q == [] {
      assert x + q == x;
    } else {
      var longer := x + q;
      assert longer[|longer| - 1] == q[|q| - 1] && longer[..|longer| - 1] == x + q[..|q| - 1];
      TrimEndOver(x, q[..|q| - 1]);
    }
  }

  lemma TrimIsTrimmed(s: string)
    ensures Trimmed(Trim(s))
  {
    TrimStartSuffix(s);
    TrimEndPrefix(TrimStart(s));
    if Trim(s) != "" {
      TrimmedEnds(Trim(s));
    }
  }

  lemma TrimmedStays(s: string)
    requires Trimmed(s)
    ensures TrimStart(s) == TrimEnd(s) == Trim(s) == s
  {
    if s != "" {
      TrimmedEnds(s);
    }
  }

  ghost predicate AllWhite(s: string) {
    forall i :: 0 <= i < |s| ==> s[i] as int in WHITE_SPACE
  }

  lemma {:induction false} TrimsAllWhite(s: string)
    requires AllWhite(s)
    ensures TrimStart(s) == "" && TrimEnd(s) == ""
    decreases |s|
  {
    if s != "" {
      WhitespaceTable(s[0]);
      WhitespaceTable(s[|s| - 1]);
      TrimsAllWhite(s[1..]);
      TrimsAllWhite(s[..|s| - 1]);
    }
  }

  /** Trimming takes off exactly the white space at both ends. */
  lemma TrimTakesOff(before: string, s: string, after: string)
    requires AllWhite(before) && Trimmed(s) && AllWhite(after)
    ensures Trim(before + s + after) == s
  {
    hide TrimStart, TrimEnd;
    TrimsAllWhite(before);
    TrimsAllWhite(after);
    TrimmedStays(s);
    assert before + s + after == before + (s + after);
    TrimStartOver(before, s + after);
    TrimStartOver(s, after);
    TrimEndOver(s, after);
  }

  // Splitting and joining.

  function Join(parts: seq<string>, separator: string): string {
    if parts == [] then ""
    else if |parts| == 1 then parts[0]
    else parts[0] + separator + Join(parts[1..], separator)
  }

  function Split(s: string, separator: char): (parts: seq<string>)
    ensures |parts| >= 1
  {
    if s == [] then [""]
    else
      var rest := Split(s[1..], separator);
      if s[0] == separator then [""] + rest else [[s[0]] + rest[0]] + rest[1..]
  }

  ghost predicate Plain(part: string, separator: char) {
    separator !in part
  }

  ghost predicate AllPlain(parts: seq<string>, separator: char) {
    forall i :: 0 <= i < |parts| ==> Plain(parts[i], separator)
  }

  lemma {:induction false} SplitPlain(s: string, separator: char)
    requires Plain(s, separator)
    ensures Split(s, separator) == [s]
  {
    if s != "" {
      SplitPlain(s[1..], separator);
      assert [s[0]] + s[1..] == s;
    }
  }

  lemma {:induction false} SplitAllPlain(s: string, separator: char)
    ensures AllPlain(Split(s, separator), separator)
  {
    if s != "" {
      SplitAllPlain(s[1..], separator);
    }
  }

  /** One more character in front of a list of parts. */
  function Prepend(c: char, separator: char, parts: seq<string>): seq<string>
    requires parts != []
  {
    if c == separator then [""] + parts else [[c] + parts[0]] + parts[1..]
  }

  lemma SplitCons(c: char, s: string, separator: char)
    ensures Split([c] + s, separator) == Prepend(c, separator, Split(s, separator))
  {
    assert ([c] + s)[1..] == s;
  }

  lemma PrependConcat(c: char, separator: char, p: seq<string>, q: seq<string>)
    requires p != []
    ensures Prepend(c, separator, p + q) == Prepend(c, separator, p) + q
  {
    assert (p + q)[1..] == p[1..] + q;
  }

  lemma {:induction false} SplitConcat(a: string, b: string, separator: char)
    ensures Split(a + [separator] + b, separator) == Split(a, separator) + Split(b, separator)
  {
    if a == "" {
      assert a + [separator] + b == [separator] + b;
      SplitCons(separator, b, separator);
    } else {
      SplitConcat(a[1..], b, separator);
      assert a + [separator] + b == [a[0]] + (a[1..] + [separator] + b);
      assert a == [a[0]] + a[1..];
      SplitCons(a[0], a[1..] + [separator] + b, separator);
      SplitCons(a[0], a[1..], separator);
      PrependConcat(a[0], separator, Split(a[1..], separator), Split(b, separator));
    }
  }

  lemma {:induction false} SplitJoin(parts: seq<string>, separator: char)
    requires AllPlain(parts, separator) && parts != []
    ensures Split(Join(parts, [separator]), separator) == parts
  {
    SplitPlain(parts[0], separator);
    if |parts| > 1 {
      SplitJoin(parts[1..], separator);
      SplitConcat(parts[0], Join(parts[1..], [separator]), separator);
      assert [parts[0]] + parts[1..] == parts;
    } else {
      assert parts == [parts[0]];
    }
  }

  lemma {:induction false} JoinSplit(s: string, separator: char)
    ensures Join(Split(s, separator), [separator]) == s
  {
    if s != "" {
      JoinSplit(s[1..], separator);
      var rest := Split(s[1..], separator);
      if s[0] == separator {
        assert ([""] + rest)[1..] == rest;
        assert "" + [separator] + Join(rest, [separator]) == s;
      } else {
        var parts := [[s[0]] + rest[0]] + rest[1..];
        assert parts[1..] == rest[1..];
        assert Join(parts, [separator]) == [s[0]] + Join(rest, [separator]);
      }
    }
  }

  function Concat<T>(parts: seq<seq<T>>): seq<T> {
    if parts == [] then [] else parts[0] + Concat(parts[1..])
  }

  lemma ConcatAssociative<T>(a: seq<T>, b: seq<T>, c: seq<T>)
    ensures a + b + c == a + (b + c)
  {
  }

  lemma ConcatCons<T>(head: seq<T>, tail: seq<seq<T>>)
    ensures Concat([head] + tail) == head + Concat(tail)
  {
    assert ([head] + tail)[1..] == tail;
  }

  lemma {:induction false} ConcatAppend<T>(p: seq<seq<T>>, q: seq<seq<T>>)
    ensures Concat(p + q) == Concat(p) + Concat(q)
  {
    if p == [] {
      assert p + q == q;
    } else {
      assert (p + q)[1..] == p[1..] + q;
      ConcatAppend(p[1..], q);
    }
  }
}
