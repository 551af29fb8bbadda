/** The handler's event stream: byte chunks in, payloads out. */
module SseStream {
  import opened Wrappers
  import opened Text
  import opened SseFraming
  import opened SseLines
  import opened SsePrinting

  datatype Chunk = Bytes(bytes: seq<byte>) | Failed
  datatype Item = Data(text: string) | ReadError

  type Decoder = seq<byte> -> string

  function ItemOf(payload: Option<string>): seq<Item> {
    if payload.Some? then [Data(payload.value)] else []
  }

  /** The items of a list of drained events, each decoded on its own. */
  function ItemsOf(decode: Decoder, events: seq<seq<byte>>): seq<Item> {
    if events == [] then []
    else
      var payload := ParseData(decode(events[0]));
      ItemOf(payload) + ItemsOf(decode, events[1..])
  }

  /** One chunk: the buffer it leaves and the items it yields. */
  function FeedChunk(decode: Decoder, buffer: seq<byte>, chunk: Chunk): (seq<byte>, seq<Item>) {
    match chunk
    case Bytes(bytes) =>
      var d := Drain(BYTES, buffer + bytes);
      (d.left, ItemsOf(decode, d.events))
    case Failed => (buffer, [ReadError])
  }

  method FindSseEventEnd(buffer: seq<byte>) returns (end: Option<nat>)
    ensures end == EventEnd(BYTES, buffer)
  {
    EventEndIsFirst(BYTES, buffer);
    var i := 0;
    while i + 1 < |buffer|
      invariant 0 <= i
      invariant forall k :: 0 <= k < i ==> !EndsAt(BYTES, buffer, k)
    {
      if buffer[i] == 10 && buffer[i + 1] == 10 {
        FirstIsEventEnd(BYTES, buffer, i);
        return Some(i);
      }
      if i + 3 < |buffer| && buffer[i] == 13 && buffer[i + 1] == 10 && buffer[i + 2] == 13 && buffer[i + 3] == 10 {
        FirstIsEventEnd(BYTES, buffer, i);
        return Some(i);
      }
      i := i + 1;
    }
    end := None;
  }

  method ParseSseData(event: string) returns (payload: Option<string>)
    ensures payload == ParseData(event)
  {
    var lines := Lines(event);
    var dataLines := [];
    for i := 0 to |lines|
      invariant dataLines == DataLines(lines[..i])
    {
      assert lines[..i + 1] == lines[..i] + [lines[i]];
      DataLinesConcat(lines[..i], [lines[i]]);
      var line := Trim(lines[i]);
      if line == [] {
        continue;
      }
      if DATA <= line {
        dataLines := dataLines + [Trim(line[|DATA|..])];
      }
    }
    assert lines[..|lines|] == lines;
    if dataLines == [] {
      payload := None;
    } else {
      payload := Some(Join(dataLines, "\n"));
    }
  }

  lemma {:induction false} ItemsOfConcat(decode: Decoder, p: seq<seq<byte>>, q: seq<seq<byte>>)
    ensures ItemsOf(decode, p + q) == ItemsOf(decode, p) + ItemsOf(decode, q)
  {
    if p == [] {
      assert p + q == q;
    } else {
      assert (p + q)[1..] == p[1..] + q;
      ItemsOfConcat(decode, p[1..], q);
    }
  }

  function DrainItems(decode: Decoder, b: seq<byte>): seq<Item> {
    ItemsOf(decode, Drain(BYTES, b).events)
  }

  lemma DrainItemsNext(decode: Decoder, b: seq<byte>, p: nat)
    requires EventEnd(BYTES, b) == Some(p)
    ensures Drain(BYTES, b).left == Drain(BYTES, b[p + 2..]).left
    ensures
      var payload := ParseData(decode(b[..p + 2]));
      DrainItems(decode, b) == ItemOf(payload) + DrainItems(decode, b[p + 2..])
  {
    var rest := Drain(BYTES, b[p + 2..]);
    assert Drain(BYTES, b).events == [b[..p + 2]] + rest.events;
    assert Drain(BYTES, b).events[1..] == rest.events;
  }

  lemma DrainItemsDone(decode: Decoder, b: seq<byte>)
    requires EventEnd(BYTES, b) == None
    ensures Drain(BYTES, b).left == b && DrainItems(decode, b) == []
  {
  }

  /** The drain loop. */
  method DrainEvents(decode: Decoder, input: seq<byte>) returns (buffer: seq<byte>, pending: seq<Item>)
    ensures buffer == Drain(BYTES, input).left
    ensures pending == DrainItems(decode, input)
  {
    buffer, pending := input, [];
    assert [] + DrainItems(decode, input) == DrainItems(decode, input);
    var end := FindSseEventEnd(buffer);
    while end.Some?
      invariant end == EventEnd(BYTES, buffer)
      invariant OnTheWay(decode, input, buffer, pending)
      decreases |buffer|
    {
      var eventBytes := buffer[..end.value + 2];
      var payload := ParseSseData(decode(eventBytes));
      OnTheWayNext(decode, input, buffer, pending, end.value, payload);
      buffer := buffer[end.value + 2..];
      if payload.Some? {
        pending := pending + [Data(payload.value)];
      }
      end := FindSseEventEnd(buffer);
    }
    OnTheWayDone(decode, input, buffer, pending);
  }

  /** What is drained so far and what draining the buffer will add make up the whole. */
  ghost predicate OnTheWay(decode: Decoder, input: seq<byte>, buffer: seq<byte>, pending: seq<Item>) {
    Drain(BYTES, buffer).left == Drain(BYTES, input).left &&
    pending + DrainItems(decode, buffer) == DrainItems(decode, input)
  }

  lemma OnTheWayNext(decode: Decoder, input: seq<byte>, buffer: seq<byte>, pending: seq<Item>, p: nat, payload: Option<string>)
    requires OnTheWay(decode, input, buffer, pending) && EventEnd(BYTES, buffer) == Some(p)
    requires payload == ParseData(decode(buffer[..p + 2]))
    ensures OnTheWay(decode, input, buffer[p + 2..], if payload.Some? then pending + [Data(payload.value)] else pending)
  {
    DrainItemsNext(decode, buffer, p);
    ConcatAssociative(pending, ItemOf(payload), DrainItems(decode, buffer[p + 2..]));
    assert pending + [] == pending;
  }

  lemma OnTheWayDone(decode: Decoder, input: seq<byte>, buffer: seq<byte>, pending: seq<Item>)
    requires OnTheWay(decode, input, buffer, pending) && EventEnd(BYTES, buffer) == None
    ensures buffer == Drain(BYTES, input).left && pending == DrainItems(decode, input)
  {
    DrainItemsDone(decode, buffer);
    assert pending + [] == pending;
  }

  /** The state of the scan: bytes not yet part of an event, and items not yet
      handed on. */
  class SseScanner {
    const decode: Decoder
    var buffer: seq<byte>
    var pending: seq<Item>

    ghost predicate Valid()
      reads this
    {
      pending == []
    }

    constructor (decode: Decoder)
      ensures Valid() && buffer == [] && this.decode == decode
    {
      this.decode := decode;
      buffer := [];
      pending := [];
    }

    /** `None` ends the stream. */
    method Feed(chunk: Chunk) returns (out: Option<seq<Item>>)
      requires Valid()
      modifies this
      ensures Valid()
      ensures
        var (left, items) := FeedChunk(decode, old(buffer), chunk);
        buffer == left && out == if items == [] then None else Some(items)
    {
      match chunk
      case Bytes(bytes) =>
        buffer := buffer + bytes;
        var left, items := DrainEvents(decode, buffer);
        buffer, pending := left, pending + items;
        assert FeedChunk(decode, old(buffer), chunk) == (left, items);
        assert [] + items == items;
        if pending == [] {
          out := None;
        } else {
          out := Some(pending);
          pending := [];
        }
      case Failed =>
        pending := pending + [ReadError];
        assert pending == [ReadError];
        out := Some(pending);
        pending := [];
    }
  }

  // A text in bytes, cut anywhere.

  function DataItems(payloads: seq<string>): (items: seq<Item>)
    ensures |items| == |payloads|
  {
    seq(|payloads|, i requires 0 <= i < |payloads| => Data(payloads[i]))
  }

  lemma {:induction false} ItemsOfText(decode: Decoder, events: seq<string>)
    requires DecodesUtf8(decode)
    ensures ItemsOf(decode, Utf8All(events)) == DataItems(PayloadsOf(events))
  {
    if events != [] {
      assert Utf8All(events)[1..] == Utf8All(events[1..]);
      ItemsOfText(decode, events[1..]);
    }
  }

  /** However the bytes of a text are cut into chunks, even inside a character,
      draining gives the payloads of the text's lines. */
  lemma TextInAnyChunks(decode: Decoder, text: string, chunks: seq<seq<byte>>)
    requires DecodesUtf8(decode) && Concat(chunks) == Utf8(text)
    ensures ItemsOf(decode, DrainChunks(BYTES, [], chunks).events) == DataItems(Interpret(START, ReadLines(text)))
  {
    ChunkBoundariesDoNotMatter(BYTES, chunks);
    DrainUtf8(text);
    ItemsOfText(decode, Drain(CHARS, text).events);
    PayloadsByLines(text);
  }

  // Printing payloads and reading them back.

  /** Printing payloads, cutting the bytes anywhere, framing and parsing them
      again gives back the same list. */
  lemma PrintParseRoundTrip(decode: Decoder, payloads: seq<string>, chunks: seq<seq<byte>>)
    requires DecodesUtf8(decode)
    requires forall i :: 0 <= i < |payloads| ==> Printable(payloads[i])
    requires Concat(chunks) == Utf8(PrintAll(payloads))
    ensures ItemsOf(decode, DrainChunks(BYTES, [], chunks).events) == DataItems(payloads)
  {
    TextInAnyChunks(decode, PrintAll(payloads), chunks);
    InterpretPrinted(payloads);
  }

  // The scan ends at the first chunk that completes no payload, and the response
  // at the first error.

  /** What each chunk would yield, if the stream went on regardless. */
  function ChunkItems(decode: Decoder, buffer: seq<byte>, chunks: seq<Chunk>): (parts: seq<seq<Item>>)
    ensures |parts| == |chunks|
    decreases |chunks|
  {
    if chunks == [] then []
    else
      var (left, items) := FeedChunk(decode, buffer, chunks[0]);
      [items] + ChunkItems(decode, left, chunks[1..])
  }

  /** What the client receives. */
  function Received(decode: Decoder, buffer: seq<byte>, chunks: seq<Chunk>): seq<Item>
    decreases |chunks|
  {
    if chunks == [] then []
    else
      var (left, items) := FeedChunk(decode, buffer, chunks[0]);
      if items == [] || chunks[0].Failed? then items else items + Received(decode, left, chunks[1..])
  }

  function BytesIn(chunk: Chunk): seq<byte> {
    match chunk case Bytes(bytes) => bytes case Failed => []
  }

  /** The bytes of the first `k` chunks. */
  function BytesBefore(chunks: seq<Chunk>, k: nat): seq<byte>
    requires k <= |chunks|
  {
    if k == 0 then [] else BytesBefore(chunks, k - 1) + BytesIn(chunks[k - 1])
  }

  /** Chunk `k` completes no payload: the stream up to and with it holds as many
      as the stream before it. */
  ghost predicate Silent(decode: Decoder, chunks: seq<Chunk>, k: nat)
    requires k < |chunks|
  {
    chunks[k].Bytes? &&
    |DrainItems(decode, BytesBefore(chunks, k + 1))| == |DrainItems(decode, BytesBefore(chunks, k))|
  }

  ghost predicate Stops(decode: Decoder, chunks: seq<Chunk>, k: nat)
    requires k < |chunks|
  {
    chunks[k].Failed? || Silent(decode, chunks, k)
  }

  lemma BytesBeforeNext(chunks: seq<Chunk>, k: nat)
    requires k < |chunks|
    ensures BytesBefore(chunks, 0) == []
    ensures BytesBefore(chunks, k + 1) == BytesBefore(chunks, k) + BytesIn(chunks[k])
  {
  }

  lemma {:induction false} BytesBeforeShift(chunks: seq<Chunk>, k: nat)
    requires chunks != [] && k < |chunks|
    ensures BytesBefore(chunks, k + 1) == BytesIn(chunks[0]) + BytesBefore(chunks[1..], k)
  {
    hide BytesBefore, BytesIn;
    var first, rest := BytesIn(chunks[0]), chunks[1..];
    BytesBeforeNext(chunks, k);
    if k == 0 {
      NoBytesBefore(rest);
      assert [] + first == first + [];
    } else {
      BytesBeforeShift(chunks, k - 1);
      BytesBeforeNext(rest, k - 1);
      assert rest[k - 1] == chunks[k];
      ConcatAssociative(first, BytesBefore(rest, k - 1), BytesIn(chunks[k]));
    }
  }

  lemma NoBytesBefore(chunks: seq<Chunk>)
    ensures BytesBefore(chunks, 0) == []
  {
  }

  lemma DrainItemsMore(decode: Decoder, b: seq<byte>, more: seq<byte>)
    ensures DrainItems(decode, b + more) == DrainItems(decode, b) + DrainItems(decode, Drain(BYTES, b).left + more)
    ensures Drain(BYTES, b + more).left == Drain(BYTES, Drain(BYTES, b).left + more).left
  {
    DrainMore(BYTES, b, more);
    ItemsOfConcat(decode, Drain(BYTES, b).events, Drain(BYTES, Drain(BYTES, b).left + more).events);
  }

  /** After the bytes `b`, the chunk yields `items`: what it adds to their payloads. */
  ghost predicate Adds(decode: Decoder, b: seq<byte>, chunk: Chunk, items: seq<Item>) {
    match chunk
    case Bytes(bytes) => DrainItems(decode, b + bytes) == DrainItems(decode, b) + items
    case Failed => items == [ReadError]
  }

  lemma FeedAdds(decode: Decoder, b: seq<byte>, chunk: Chunk)
    ensures
      var (left, items) := FeedChunk(decode, Drain(BYTES, b).left, chunk);
      left == Drain(BYTES, b + BytesIn(chunk)).left && Adds(decode, b, chunk, items)
  {
    if chunk.Bytes? {
      DrainItemsMore(decode, b, chunk.bytes);
    } else {
      assert b + [] == b;
    }
  }

  lemma {:induction false} ChunkItemsAt(decode: Decoder, b: seq<byte>, chunks: seq<Chunk>, k: nat)
    requires k < |chunks|
    ensures Adds(decode, b + BytesBefore(chunks, k), chunks[k], ChunkItems(decode, Drain(BYTES, b).left, chunks)[k])
    decreases k
  {
    FeedAdds(decode, b, chunks[0]);
    if k == 0 {
      assert b + [] == b;
    } else {
      var first := BytesIn(chunks[0]);
      BytesBeforeShift(chunks, k - 1);
      ConcatAssociative(b, first, BytesBefore(chunks[1..], k - 1));
      ChunkItemsAt(decode, b + first, chunks[1..], k - 1);
    }
  }

  /** A chunk yields nothing exactly when it completes no payload. */
  lemma SilentExactly(decode: Decoder, chunks: seq<Chunk>, k: nat)
    requires k < |chunks|
    ensures ChunkItems(decode, [], chunks)[k] == [] <==> Silent(decode, chunks, k)
  {
    ChunkItemsAt(decode, [], chunks, k);
    DrainItemsDone(decode, []);
    assert [] + BytesBefore(chunks, k) == BytesBefore(chunks, k);
  }

  lemma {:induction false} ConcatEmpty<T>(parts: seq<seq<T>>)
    ensures Concat(parts) == [] <==> forall i :: 0 <= i < |parts| ==> parts[i] == []
  {
    if parts != [] {
      ConcatEmpty(parts[1..]);
      if Concat(parts) == [] {
        forall i | 0 <= i < |parts|
          ensures parts[i] == []
        {
          if i > 0 {
            assert parts[i] == parts[1..][i - 1];
          }
        }
      }
    }
  }

  /** No chunk completes a payload, and no read fails, after a chunk that ends
      the stream. */
  ghost predicate NothingAfterStop(decode: Decoder, chunks: seq<Chunk>) {
    forall i, j :: 0 <= i < j < |chunks| && Stops(decode, chunks, i) ==> Silent(decode, chunks, j)
  }

  /** The first position at which a flag is set; the number of flags if none is. */
  function FirstSet(flags: seq<bool>): (n: nat)
    ensures n <= |flags| && (n < |flags| ==> flags[n])
    ensures forall i :: 0 <= i < n ==> !flags[i]
  {
    if flags == [] || flags[0] then 0 else FirstSet(flags[1..]) + 1
  }

  ghost function StopFlags(decode: Decoder, chunks: seq<Chunk>): (flags: seq<bool>)
    ensures |flags| == |chunks| && forall i :: 0 <= i < |chunks| ==> flags[i] == Stops(decode, chunks, i)
  {
    seq(|chunks|, i requires 0 <= i < |chunks| => Stops(decode, chunks, i))
  }

  /** The first chunk at which the stream ends; the number of chunks if it does not. */
  ghost function FirstStop(decode: Decoder, chunks: seq<Chunk>): nat {
    FirstSet(StopFlags(decode, chunks))
  }

  ghost predicate Ends(chunk: Chunk, items: seq<Item>) {
    chunk.Failed? || items == []
  }

  /** The first `m` chunks are those up to and with the first that ends the stream. */
  ghost predicate EndsAfter(chunks: seq<Chunk>, parts: seq<seq<Item>>, m: nat)
    requires |parts| == |chunks|
  {
    && m <= |chunks|
    && (m < |chunks| ==> m > 0 && Ends(chunks[m - 1], parts[m - 1]))
    && forall i :: 0 <= i < m - 1 ==> !Ends(chunks[i], parts[i])
  }

  lemma EndsAfterRest(chunks: seq<Chunk>, parts: seq<seq<Item>>, m: nat)
    requires |parts| == |chunks| && m > 0 && EndsAfter(chunks, parts, m) && !Ends(chunks[0], parts[0])
    ensures EndsAfter(chunks[1..], parts[1..], m - 1)
  {
    assert forall i :: 0 <= i < |chunks| - 1 ==> chunks[1..][i] == chunks[i + 1] && parts[1..][i] == parts[i + 1];
  }

  lemma ConcatFirst<T>(first: seq<T>, rest: seq<seq<T>>, m: nat)
    requires 0 < m <= |rest| + 1
    ensures Concat(([first] + rest)[..m]) == first + Concat(rest[..m - 1])
  {
    assert ([first] + rest)[..m] == [first] + rest[..m - 1];
    ConcatCons(first, rest[..m - 1]);
  }

  lemma {:induction false} ReceivedUntil(decode: Decoder, buffer: seq<byte>, chunks: seq<Chunk>, m: nat)
    requires EndsAfter(chunks, ChunkItems(decode, buffer, chunks), m)
    ensures Received(decode, buffer, chunks) == Concat(ChunkItems(decode, buffer, chunks)[..m])
    decreases m
  {
    if chunks != [] {
      var (left, items) := FeedChunk(decode, buffer, chunks[0]);
      var rest := ChunkItems(decode, left, chunks[1..]);
      ConcatFirst(items, rest, m);
      if Ends(chunks[0], items) {
        assert rest[..0] == [];
      } else {
        EndsAfterRest(chunks, [items] + rest, m);
        assert ([items] + rest)[1..] == rest;
        ReceivedUntil(decode, left, chunks[1..], m - 1);
      }
    }
  }

  lemma {:induction false} ConcatPrefix<T>(parts: seq<seq<T>>, m: nat)
    requires m <= |parts|
    ensures Concat(parts[..m]) == Concat(parts) <==> forall j :: m <= j < |parts| ==> parts[j] == []
    decreases m
  {
    if m == 0 {
      ConcatEmpty(parts);
    } else {
      var first, rest := parts[0], parts[1..];
      assert parts == [first] + rest;
      ConcatFirst(first, rest, m);
      ConcatPrefix(rest, m - 1);
      SameAfter(first, Concat(rest[..m - 1]), Concat(rest));
      assert forall j :: m <= j < |parts| ==> parts[j] == rest[j - 1];
      assert forall j :: m - 1 <= j < |rest| ==> rest[j] == parts[j + 1];
    }
  }

  lemma SameAfter<T>(first: seq<T>, x: seq<T>, y: seq<T>)
    ensures first + x == first + y <==> x == y
  {
    assert (first + x)[|first|..] == x && (first + y)[|first|..] == y;
  }

  lemma NothingAfterFirst(decode: Decoder, chunks: seq<Chunk>)
    ensures NothingAfterStop(decode, chunks) <==>
      forall j :: FirstStop(decode, chunks) < j < |chunks| ==> Silent(decode, chunks, j)
  {
    hide Silent;
    var n, flags := FirstStop(decode, chunks), StopFlags(decode, chunks);
    assert n < |chunks| ==> flags[n] == Stops(decode, chunks, n);
    assert forall i :: 0 <= i < n ==> !flags[i] && !Stops(decode, chunks, i);
  }

  /** How many chunks count: up to the first that ends the stream, and with it. */
  ghost function Delivered(decode: Decoder, chunks: seq<Chunk>): (m: nat)
    ensures m <= |chunks|
  {
    var n := FirstStop(decode, chunks);
    if n < |chunks| then n + 1 else n
  }

  lemma ChunksEnd(decode: Decoder, chunks: seq<Chunk>)
    ensures EndsAfter(chunks, ChunkItems(decode, [], chunks), Delivered(decode, chunks))
  {
    var parts, flags := ChunkItems(decode, [], chunks), StopFlags(decode, chunks);
    forall k | 0 <= k < |chunks|
      ensures Ends(chunks[k], parts[k]) <==> flags[k]
    {
      SilentExactly(decode, chunks, k);
    }
    hide ChunkItems, Stops, Ends;
  }

  lemma NothingMissed(decode: Decoder, chunks: seq<Chunk>, parts: seq<seq<Item>>)
    requires |parts| == |chunks|
    requires forall k :: 0 <= k < |chunks| ==> (Silent(decode, chunks, k) <==> parts[k] == [])
    ensures NothingAfterStop(decode, chunks) <==>
      forall j :: Delivered(decode, chunks) <= j < |parts| ==> parts[j] == []
  {
    hide Silent, NothingAfterStop, FirstStop;
    NothingAfterFirst(decode, chunks);
  }

  /** The client receives what the chunks yield up to the first that completes no
      payload or fails; that is everything if and only if nothing comes after it. */
  lemma ReceivesAllExactly(decode: Decoder, chunks: seq<Chunk>)
    ensures Received(decode, [], chunks) == Concat(ChunkItems(decode, [], chunks)[..Delivered(decode, chunks)])
    ensures Received(decode, [], chunks) == Concat(ChunkItems(decode, [], chunks))
      <==> NothingAfterStop(decode, chunks)
  {
    var m, parts := Delivered(decode, chunks), ChunkItems(decode, [], chunks);
    ChunksEnd(decode, chunks);
    ReceivedUntil(decode, [], chunks, m);
    ConcatPrefix(parts, m);
    forall k | 0 <= k < |chunks|
      ensures Silent(decode, chunks, k) <==> parts[k] == []
    {
      SilentExactly(decode, chunks, k);
    }
    NothingMissed(decode, chunks, parts);
  }

  function BytesAll(chunks: seq<seq<byte>>): (all: seq<Chunk>)
    ensures |all| == |chunks| && forall i :: 0 <= i < |chunks| ==> all[i] == Bytes(chunks[i])
  {
    seq(|chunks|, i requires 0 <= i < |chunks| => Bytes(chunks[i]))
  }

  /** Without read errors, all the chunks together yield what draining yields. */
  lemma {:induction false} ChunkItemsAreDrained(decode: Decoder, buffer: seq<byte>, chunks: seq<seq<byte>>)
    ensures Concat(ChunkItems(decode, buffer, BytesAll(chunks))) ==
      ItemsOf(decode, DrainChunks(BYTES, buffer, chunks).events)
    decreases |chunks|
  {
    if chunks != [] {
      var d := Drain(BYTES, buffer + chunks[0]);
      assert BytesAll(chunks)[1..] == BytesAll(chunks[1..]);
      ChunkItemsAreDrained(decode, d.left, chunks[1..]);
      ItemsOfConcat(decode, d.events, DrainChunks(BYTES, d.left, chunks[1..]).events);
      var items := ItemsOf(decode, d.events);
      var rest := ChunkItems(decode, d.left, BytesAll(chunks[1..]));
      assert ([items] + rest)[1..] == rest;
    }
  }

  /** When no chunk completes a payload after one that did not, the client
      receives the payloads of the whole text, in order, and only then. */
  lemma ReceivesText(decode: Decoder, text: string, chunks: seq<seq<byte>>)
    requires DecodesUtf8(decode) && Concat(chunks) == Utf8(text)
    ensures Received(decode, [], BytesAll(chunks)) == DataItems(Interpret(START, ReadLines(text)))
      <==> NothingAfterStop(decode, BytesAll(chunks))
  {
    ReceivesAllExactly(decode, BytesAll(chunks));
    ChunkItemsAreDrained(decode, [], chunks);
    TextInAnyChunks(decode, text, chunks);
  }

  /** Any stream at all is lost if its first byte arrives on its own. */
  lemma FirstByteAloneLosesAll(decode: Decoder, first: byte, rest: seq<Chunk>)
    ensures Received(decode, [], [Bytes([first])] + rest) == []
  {
    assert [] + [first] == [first];
    DrainItemsDone(decode, [first]);
  }
}
