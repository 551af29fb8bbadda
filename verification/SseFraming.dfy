/** Cutting a byte stream into server-sent events: find an event end, drain
    through it, repeat. Stated for any kind of unit, so that it can be read both
    on bytes and on text. */
module SseFraming {
  import opened Wrappers
  import opened Text

  /** The two line-break units. */
  datatype Breaks<T> = Breaks(cr: T, lf: T)

  const BYTES: Breaks<byte> := Breaks(13, 10)
  const CHARS: Breaks<char> := Breaks('\r', '\n')

  /** An event end at position `i`: two LFs, or CR LF CR LF. */
  predicate EndsAt<T(==)>(nl: Breaks<T>, b: seq<T>, i: nat) {
    || (i + 1 < |b| && b[i] == nl.lf && b[i + 1] == nl.lf)
    || (i + 3 < |b| && b[i] == nl.cr && b[i + 1] == nl.lf && b[i + 2] == nl.cr && b[i + 3] == nl.lf)
  }

  function Shift(k: nat, p: Option<nat>): Option<nat> {
    if p.Some? then Some(k + p.value) else None
  }

  /** Where the first event end starts, if there is one. */
  function EventEnd<T(==)>(nl: Breaks<T>, b: seq<T>): (p: Option<nat>)
    ensures p.Some? ==> p.value + 2 <= |b|
  {
    if |b| < 2 then None
    else if EndsAt(nl, b, 0) then Some(0)
    else Shift(1, EventEnd(nl, b[1..]))
  }

  /** The result of draining a buffer: the events taken, and what is left. */
  datatype Drained<T> = Drained(events: seq<seq<T>>, left: seq<T>)

  /** Each event is taken through the two units at its end; the second half of a
      CR LF CR LF stays in front of the next event. */
  function Drain<T(==)>(nl: Breaks<T>, b: seq<T>): Drained<T>
    decreases |b|
  {
    match EventEnd(nl, b)
    case None => Drained([], b)
    case Some(p) =>
      var d := Drain(nl, b[p + 2..]);
      Drained([b[..p + 2]] + d.events, d.left)
  }

  /** `EventEnd` is the first place where an event end can be seen. */
  lemma {:induction false} EventEndIsFirst<T>(nl: Breaks<T>, b: seq<T>)
    ensures match EventEnd(nl, b)
      case Some(p) => EndsAt(nl, b, p) && forall i :: 0 <= i < p ==> !EndsAt(nl, b, i)
      case None => forall i :: 0 <= i ==> !EndsAt(nl, b, i)
  {
    if |b| >= 2 && !EndsAt(nl, b, 0) {
      EventEndIsFirst(nl, b[1..]);
      assert forall i :: 1 <= i ==> (EndsAt(nl, b, i) <==> EndsAt(nl, b[1..], i - 1));
    }
  }

  lemma FirstIsEventEnd<T>(nl: Breaks<T>, b: seq<T>, p: nat)
    requires EndsAt(nl, b, p) && forall i :: 0 <= i < p ==> !EndsAt(nl, b, i)
    ensures EventEnd(nl, b) == Some(p)
  {
    EventEndIsFirst(nl, b);
  }

  /** More input never moves an event end that was found. */
  lemma {:induction false} EventEndStable<T>(nl: Breaks<T>, b: seq<T>, more: seq<T>)
    requires nl.cr != nl.lf && EventEnd(nl, b).Some?
    ensures EventEnd(nl, b + more) == EventEnd(nl, b)
  {
    if !EndsAt(nl, b, 0) {
      if |b| < 4 {
        assert EventEnd(nl, b[1..]).Some?;
        assert |b| == 3 && b[1..][0] == nl.lf;
      }
      assert (b + more)[1..] == b[1..] + more;
      EventEndStable(nl, b[1..], more);
    }
  }

  lemma DrainTakes<T>(nl: Breaks<T>, b: seq<T>, head: seq<T>, tail: seq<T>, p: nat)
    requires EventEnd(nl, b) == Some(p) && |head| == p + 2 && b == head + tail
    ensures Drain(nl, b) == Drained([head] + Drain(nl, tail).events, Drain(nl, tail).left)
  {
    assert b[..p + 2] == head && b[p + 2..] == tail;
  }

  function DrainTwice<T(==)>(nl: Breaks<T>, b: seq<T>, more: seq<T>): Drained<T> {
    var first := Drain(nl, b);
    var second := Drain(nl, first.left + more);
    Drained(first.events + second.events, second.left)
  }

  lemma DrainTwiceTakes<T>(nl: Breaks<T>, head: seq<T>, tail: seq<T>, more: seq<T>, p: nat)
    requires EventEnd(nl, head + tail) == Some(p) && |head| == p + 2
    ensures
      var later := DrainTwice(nl, tail, more);
      DrainTwice(nl, head + tail, more) == Drained([head] + later.events, later.left)
  {
    DrainTakes(nl, head + tail, head, tail, p);
    var rest := Drain(nl, tail);
    var second := Drain(nl, rest.left + more);
    assert [head] + (rest.events + second.events) == [head] + rest.events + second.events;
  }

  /** Draining now and again after more input is draining once at the end. */
  lemma {:induction false} DrainMore<T>(nl: Breaks<T>, b: seq<T>, more: seq<T>)
    requires nl.cr != nl.lf
    ensures Drain(nl, b + more) == DrainTwice(nl, b, more)
    decreases |b|
  {
    if EventEnd(nl, b).Some? {
      var p := EventEnd(nl, b).value;
      var head, tail := b[..p + 2], b[p + 2..];
      assert b == head + tail && b + more == head + (tail + more);
      EventEndStable(nl, b, more);
      DrainTakes(nl, b + more, head, tail + more, p);
      DrainTwiceTakes(nl, head, tail, more, p);
      DrainMore(nl, tail, more);
    } else {
      assert Drain(nl, b) == Drained([], b);
      assert [] + Drain(nl, b + more).events == Drain(nl, b + more).events;
    }
  }

  /** Chunks arriving one after the other, the buffer drained after each. */
  function DrainChunks<T(==)>(nl: Breaks<T>, buffer: seq<T>, chunks: seq<seq<T>>): Drained<T>
    decreases |chunks|
  {
    if chunks == [] then Drained([], buffer)
    else
      var d := Drain(nl, buffer + chunks[0]);
      var rest := DrainChunks(nl, d.left, chunks[1..]);
      Drained(d.events + rest.events, rest.left)
  }

  lemma {:induction false} DrainLeft<T>(nl: Breaks<T>, b: seq<T>)
    ensures EventEnd(nl, Drain(nl, b).left) == None
    decreases |b|
  {
    var end := EventEnd(nl, b);
    if end.Some? {
      DrainLeft(nl, b[end.value + 2..]);
    }
  }

  lemma {:induction false} DrainChunksFrom<T>(nl: Breaks<T>, buffer: seq<T>, chunks: seq<seq<T>>)
    requires nl.cr != nl.lf && EventEnd(nl, buffer) == None
    ensures DrainChunks(nl, buffer, chunks) == Drain(nl, buffer + Concat(chunks))
    decreases |chunks|
  {
    if chunks == [] {
      assert buffer + Concat(chunks) == buffer;
    } else {
      var now, later := buffer + chunks[0], Concat(chunks[1..]);
      assert buffer + Concat(chunks) == now + later;
      DrainMore(nl, now, later);
      DrainLeft(nl, now);
      DrainChunksFrom(nl, Drain(nl, now).left, chunks[1..]);
    }
  }

  /** Chunk boundaries do not matter: events and leftover depend only on the
      concatenated stream. */
  lemma ChunkBoundariesDoNotMatter<T>(nl: Breaks<T>, chunks: seq<seq<T>>)
    requires nl.cr != nl.lf
    ensures DrainChunks(nl, [], chunks) == Drain(nl, Concat(chunks))
  {
    DrainChunksFrom(nl, [], chunks);
    assert [] + Concat(chunks) == Concat(chunks);
  }

  /** Nothing is lost or reordered. */
  lemma {:induction false} DrainConserves<T>(nl: Breaks<T>, b: seq<T>)
    ensures Concat(Drain(nl, b).events) + Drain(nl, b).left == b
    decreases |b|
  {
    if EventEnd(nl, b).Some? {
      var p := EventEnd(nl, b).value;
      var head, tail := b[..p + 2], b[p + 2..];
      assert b == head + tail;
      DrainTakes(nl, b, head, tail, p);
      DrainConserves(nl, tail);
      ConcatCons(head, Drain(nl, tail).events);
    }
  }

  // Bytes and text are cut at the same places.

  lemma Utf8First(s: string, b: byte)
    requires b < 128
    ensures (Utf8(s) != [] && Utf8(s)[0] == b) <==> (s != [] && s[0] as int == b)
    ensures s != [] && s[0] as int == b ==> Utf8(s)[1..] == Utf8(s[1..])
  {
    if s != [] {
      assert Utf8(s)[0] == Utf8Char(s[0])[0];
      if s[0] < 128 as char {
        assert Utf8(s) == Utf8Char(s[0]) + Utf8(s[1..]);
        assert Utf8(s)[1..] == Utf8(s[1..]);
      }
    }
  }

  lemma EndsAtUtf8(s: string)
    ensures EndsAt(BYTES, Utf8(s), 0) <==> EndsAt(CHARS, s, 0)
  {
    Utf8First(s, 10);
    Utf8First(s, 13);
    if s != [] {
      Utf8First(s[1..], 10);
      if |s| >= 2 {
        Utf8First(s[2..], 13);
        assert s[1..][1..] == s[2..];
        if |s| >= 3 {
          Utf8First(s[3..], 10);
          assert s[2..][1..] == s[3..];
        }
      }
    }
  }

  lemma {:induction false} EventEndSkips(high: seq<byte>, rest: seq<byte>)
    requires forall i :: 0 <= i < |high| ==> high[i] >= 128
    ensures EventEnd(BYTES, high + rest) == Shift(|high|, EventEnd(BYTES, rest))
    decreases |high|
  {
    if high == [] {
      assert high + rest == rest;
    } else {
      assert (high + rest)[1..] == high[1..] + rest;
      EventEndSkips(high[1..], rest);
      assert (high + rest)[0] == high[0];
    }
  }

  /** Where an event end of a text is, counted in bytes. */
  function InBytes(s: string, p: Option<nat>): Option<nat>
    requires p.Some? ==> p.value <= |s|
  {
    match p case None => None case Some(i) => Some(|Utf8(s[..i])|)
  }

  lemma InBytesNext(s: string, p: Option<nat>)
    requires s != [] && (p.Some? ==> p.value < |s|)
    ensures InBytes(s, Shift(1, p)) == Shift(|Utf8Char(s[0])|, InBytes(s[1..], p))
  {
    if p.Some? {
      assert s[..p.value + 1][1..] == s[1..][..p.value];
    }
  }

  lemma EventEndFirstChar(s: string)
    requires s != [] && !EndsAt(BYTES, Utf8(s), 0)
    ensures EventEnd(BYTES, Utf8(s)) == Shift(|Utf8Char(s[0])|, EventEnd(BYTES, Utf8(s[1..])))
  {
    if s[0] >= 128 as char {
      EventEndSkips(Utf8Char(s[0]), Utf8(s[1..]));
    } else {
      assert Utf8(s)[1..] == Utf8(s[1..]);
    }
  }

  lemma {:induction false} EventEndUtf8(s: string)
    ensures EventEnd(BYTES, Utf8(s)) == InBytes(s, EventEnd(CHARS, s))
  {
    EndsAtUtf8(s);
    if EndsAt(CHARS, s, 0) {
      assert s[..0] == [];
    } else if s != [] {
      EventEndUtf8(s[1..]);
      EventEndFirstChar(s);
      InBytesNext(s, EventEnd(CHARS, s[1..]));
    }
  }

  function Utf8All(parts: seq<string>): (r: seq<seq<byte>>)
    ensures |r| == |parts| && forall i :: 0 <= i < |parts| ==> r[i] == Utf8(parts[i])
  {
    seq(|parts|, i requires 0 <= i < |parts| => Utf8(parts[i]))
  }

  /** Draining the bytes of a text yields the bytes of what draining the text
      yields; no event ends inside a character. */
  lemma {:induction false} DrainUtf8(s: string)
    ensures
      var d := Drain(CHARS, s);
      Drain(BYTES, Utf8(s)) == Drained(Utf8All(d.events), Utf8(d.left))
    decreases |s|
  {
    hide EventEnd, Utf8;
    EventEndUtf8(s);
    if EventEnd(CHARS, s).Some? {
      var p := EventEnd(CHARS, s).value;
      var head, tail := s[..p + 2], s[p + 2..];
      EventEndBytes(s, p);
      assert s == head + tail;
      Utf8Concat(head, tail);
      DrainTakes(CHARS, s, head, tail, p);
      DrainTakes(BYTES, Utf8(s), Utf8(head), Utf8(tail), |Utf8(s[..p])|);
      DrainUtf8(tail);
      var d := Drain(CHARS, tail);
      assert Utf8All([head] + d.events) == [Utf8(head)] + Utf8All(d.events);
    }
  }

  lemma EventEndBytes(s: string, p: nat)
    requires EventEnd(CHARS, s) == Some(p)
    ensures |Utf8(s[..p + 2])| == |Utf8(s[..p])| + 2
  {
    EventEndIsFirst(CHARS, s);
    var x, y := s[p], s[p + 1];
    assert s[..p + 2] == s[..p] + [x, y];
    Utf8Concat(s[..p], [x, y]);
    assert [x, y][1..] == [y];
    assert Utf8([y]) == Utf8Char(y) + Utf8("");
  }
}
