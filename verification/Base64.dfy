/** The base64 decoder of the Consul configuration source: a bit accumulator in
    a 32-bit word, against section 4 of RFC 4648. */
module Base64 {
  import opened Wrappers
  import opened Text
  import opened Bits

  const UPPER := "ABCDEFGHIJKLMNOPQRSTUVWXYZ"
  const LOWER := "abcdefghijklmnopqrstuvwxyz"
  const REST := "0123456789+/"
  const TABLE := UPPER + LOWER + REST

  type digit = d: int | 0 <= d < 64

  /** The position of a character in a table. */
  function Position(table: string, c: char): (p: Option<nat>)
    ensures p.Some? ==> p.value < |table| && table[p.value] == c
    ensures p.None? ==> c !in table
  {
    if table == "" then None
    else if table[0] == c then Some(0)
    else match Position(table[1..], c)
      case None => None
      case Some(i) => Some(i + 1)
  }

  /** The digits a string spells, or its first character that is none. */
  function Digits(table: string, s: string): (r: Result<seq<digit>, char>)
    requires |table| == 64
    ensures r.Ok? ==> |r.value| == |s|
  {
    if s == "" then Ok([])
    else match Position(table, s[0])
      case None => Err(s[0])
      case Some(d) => match Digits(table, s[1..])
        case Err(c) => Err(c)
        case Ok(ds) => Ok([d] + ds)
  }

  function TrimPadding(s: string): string {
    if s != "" && s[|s| - 1] == '=' then TrimPadding(s[..|s| - 1]) else s
  }

  // The reference: both strings are numbers, written in base 64 and in base 256.

  function DigitsNumber(ds: seq<digit>): nat {
    if ds == [] then 0 else DigitsNumber(ds[..|ds| - 1]) * 64 + ds[|ds| - 1]
  }

  function BytesNumber(bytes: seq<byte>): nat {
    if bytes == [] then 0 else BytesNumber(bytes[..|bytes| - 1]) * 256 + bytes[|bytes| - 1]
  }

  /** The last `length` base-256 digits of a number. */
  function BytesOf(length: nat, n: nat): (bytes: seq<byte>)
    ensures |bytes| == length
  {
    if length == 0 then [] else BytesOf(length - 1, n / 256) + [n % 256]
  }

  /** All whole bytes of the 6 * n bits that n digits carry, most significant first. */
  function DecodeDigits(ds: seq<digit>): (bytes: seq<byte>)
    ensures |bytes| == 6 * |ds| / 8
  {
    BytesOf(6 * |ds| / 8, ShiftRight(DigitsNumber(ds), 6 * |ds| % 8))
  }

  function DecodeBy(table: string, s: string): Result<seq<byte>, char>
    requires |table| == 64
  {
    match Digits(table, TrimPadding(s))
    case Err(c) => Err(c)
    case Ok(ds) => Ok(DecodeDigits(ds))
  }

  function Decode(s: string): Result<seq<byte>, char> {
    DecodeBy(TABLE, s)
  }

  lemma DigitsNumberAppend(ds: seq<digit>, d: digit)
    ensures DigitsNumber(ds + [d]) == DigitsNumber(ds) * 64 + d
  {
    assert (ds + [d])[..|ds|] == ds;
  }

  lemma BytesNumberAppend(bytes: seq<byte>, b: byte)
    ensures BytesNumber(bytes + [b]) == BytesNumber(bytes) * 256 + b
  {
    assert (bytes + [b])[..|bytes|] == bytes;
  }

  /** The whole bytes of a number, read back. */
  lemma {:induction false} BytesOfNumber(bytes: seq<byte>)
    ensures BytesOf(|bytes|, BytesNumber(bytes)) == bytes
  {
    if bytes != [] {
      var init, last := bytes[..|bytes| - 1], bytes[|bytes| - 1];
      BytesOfNumber(init);
      assert bytes == init + [last];
    }
  }

  function Both(p: Result<seq<digit>, char>, q: Result<seq<digit>, char>): Result<seq<digit>, char> {
    if p.Err? then p else if q.Err? then q else Ok(p.value + q.value)
  }

  lemma {:induction false} DigitsConcat(table: string, s: string, t: string)
    requires |table| == 64
    ensures Digits(table, s + t) == Both(Digits(table, s), Digits(table, t))
  {
    if s == "" {
      assert s + t == t;
      assert Digits(table, t).Ok? ==> [] + Digits(table, t).value == Digits(table, t).value;
    } else {
      assert (s + t)[1..] == s[1..] + t;
      DigitsConcat(table, s[1..], t);
      var found := Position(table, s[0]);
      if found.Some? && Digits(table, s[1..]).Ok? && Digits(table, t).Ok? {
        var d: digit, ds, es := found.value, Digits(table, s[1..]).value, Digits(table, t).value;
        assert [d] + (ds + es) == [d] + ds + es;
      }
    }
  }

  lemma DigitsNext(table: string, s: string, i: nat)
    requires |table| == 64 && i < |s| && Digits(table, s[..i]).Ok?
    ensures match Position(table, s[i])
      case None => Digits(table, s) == Err(s[i])
      case Some(d) => Digits(table, s[..i + 1]) == Ok(Digits(table, s[..i]).value + [d])
  {
    var one := [s[i]];
    assert s[..i + 1] == s[..i] + one;
    DigitsConcat(table, s[..i], one);
    assert one[1..] == "";
    assert Digits(table, "") == Ok([]);
    var found := Position(table, s[i]);
    if found.Some? {
      var d: digit := found.value;
      assert [d] + [] == [d];
      assert Digits(table, one) == Ok([d]);
    }
    assert s == s[..i + 1] + s[i + 1..];
    DigitsConcat(table, s[..i + 1], s[i + 1..]);
  }

  // The accumulator.

  /** A number shifted left by `bits`, for the bit counts that occur. */
  function Scaled(n: nat, bits: nat): nat {
    if bits == 0 then n else if bits == 2 then n * 4 else if bits == 4 then n * 16 else n * 64
  }

  /** The bits collected so far that do not yet make a byte. */
  ghost predicate Collects(buffer: nat, bits: nat) {
    bits in {0, 2, 4, 6} && buffer < Pow2(bits)
  }

  lemma Shifts(n: nat)
    ensures ShiftRight(n, 0) == n && ShiftRight(n, 2) == n / 4 && ShiftRight(n, 4) == n / 16 && ShiftRight(n, 6) == n / 64
  {
    assert ShiftRight(n, 2) == ShiftRight(n / 2, 1) == n / 2 / 2;
    assert ShiftRight(n, 4) == ShiftRight(n / 2 / 2, 2) == n / 2 / 2 / 2 / 2;
    assert ShiftRight(n, 6) == ShiftRight(n / 2 / 2 / 2 / 2, 2) == n / 2 / 2 / 2 / 2 / 2 / 2;
  }

  lemma Powers()
    ensures Pow2(0) == 1 && Pow2(2) == 4 && Pow2(4) == 16 && Pow2(6) == 64
    ensures Pow2(8) == 256 && Pow2(10) == 1024 && Pow2(12) == 4096
  {
    assert Pow2(3) == 8 && Pow2(5) == 32 && Pow2(7) == 128 && Pow2(9) == 512 && Pow2(11) == 2048;
  }

  /** The accumulator with a digit shifted in. */
  function ShiftIn(buffer: nat, d: digit): nat {
    Or(Shl32(buffer, 6), d)
  }

  /** The low `k` bits. */
  function LowBits(n: nat, k: nat): nat {
    And(n, Pow2(k) - 1)
  }

  /** Taking in a digit loses no bit: the shift stays within 32 bits, the byte
      taken out fits its type, and the mask keeps exactly the other bits. */
  lemma TakesInDigit(buffer: nat, bits: nat, d: digit)
    requires Collects(buffer, bits)
    ensures
      var wide := ShiftIn(buffer, d);
      wide == buffer * 64 + d < Pow2(bits + 6) &&
      (bits < 2 ==> Collects(wide, bits + 6)) &&
      (bits >= 2 ==>
        ShiftRight(wide, bits - 2) < 256 && Collects(LowBits(wide, bits - 2), bits - 2) &&
        LowBits(wide, bits - 2) == wide % Pow2(bits - 2))
  {
    Powers();
    assert Shl32(buffer, 6) == buffer * Pow2(6);
    OrDisjoint(buffer, d, 6);
    Shifts(buffer * 64 + d);
    Masks(buffer * 64 + d);
  }

  /** The number read so far is the bytes put out, then the bits still collected. */
  ghost predicate Accounts(ds: seq<digit>, output: seq<byte>, buffer: nat, bits: nat) {
    && Collects(buffer, bits)
    && 6 * |ds| == 8 * |output| + bits
    && DigitsNumber(ds) == Scaled(BytesNumber(output), bits) + buffer
  }

  /** A digit that does not complete a byte. */
  lemma AccountsLonger(ds: seq<digit>, output: seq<byte>, buffer: nat, bits: nat, d: digit, wide: nat)
    requires Accounts(ds, output, buffer, bits) && bits + 6 < 8
    requires wide == buffer * 64 + d && Collects(wide, bits + 6)
    ensures Accounts(ds + [d], output, wide, bits + 6)
  {
    DigitsNumberAppend(ds, d);
  }

  lemma SplitsOff(n: nat, out: nat, buffer: nat, bits: nat, d: digit, wide: nat)
    requires Collects(buffer, bits) && bits >= 2 && n == Scaled(out, bits) + buffer
    requires wide == buffer * 64 + d
    ensures n * 64 + d == Scaled(out * 256 + ShiftRight(wide, bits - 2), bits - 2) + wide % Pow2(bits - 2)
  {
    Powers();
    Shifts(wide);
  }

  /** A digit that completes a byte. */
  lemma AccountsByte(ds: seq<digit>, output: seq<byte>, buffer: nat, bits: nat, d: digit, b: byte, rest: nat)
    requires Accounts(ds, output, buffer, bits) && bits + 6 >= 8 && Collects(rest, bits - 2)
    requires DigitsNumber(ds) * 64 + d == Scaled(BytesNumber(output) * 256 + b, bits - 2) + rest
    ensures Accounts(ds + [d], output + [b], rest, bits - 2)
  {
    DigitsNumberAppend(ds, d);
    BytesNumberAppend(output, b);
  }

  lemma Unscale(n: nat, out: nat, buffer: nat, bits: nat)
    requires Collects(buffer, bits) && n == Scaled(out, bits) + buffer
    ensures ShiftRight(n, bits) == out
  {
    Powers();
    Shifts(n);
  }

  lemma AccountsDecode(ds: seq<digit>, output: seq<byte>, buffer: nat, bits: nat)
    requires Accounts(ds, output, buffer, bits)
    ensures output == DecodeDigits(ds)
  {
    Unscale(DigitsNumber(ds), BytesNumber(output), buffer, bits);
    BytesOfNumber(output);
    assert 6 * |ds| / 8 == |output| && 6 * |ds| % 8 == bits;
  }

  /** The byte a digit completes, and the bits it leaves. */
  lemma CompletesByte(n: nat, out: nat, buffer: nat, bits: nat, d: digit) returns (b: byte, rest: nat)
    requires Collects(buffer, bits) && bits >= 2 && n == Scaled(out, bits) + buffer
    ensures b == ShiftRight(ShiftIn(buffer, d), bits - 2) && rest == LowBits(ShiftIn(buffer, d), bits - 2)
    ensures Collects(rest, bits - 2) && n * 64 + d == Scaled(out * 256 + b, bits - 2) + rest
  {
    var wide := ShiftIn(buffer, d);
    TakesInDigit(buffer, bits, d);
    b, rest := ShiftRight(wide, bits - 2), LowBits(wide, bits - 2);
    SplitsOff(n, out, buffer, bits, d, wide);
  }

  lemma ByteMod(b: byte)
    ensures b % 256 == b
  {
  }

  lemma StepByte(ds: seq<digit>, output: seq<byte>, buffer: nat, bits: nat, d: digit)
    requires Accounts(ds, output, buffer, bits) && bits >= 2
    ensures
      var wide := ShiftIn(buffer, d);
      Accounts(ds + [d], output + [ShiftRight(wide, bits - 2) % 256], LowBits(wide, bits - 2), bits - 2)
  {
    var b, rest := CompletesByte(DigitsNumber(ds), BytesNumber(output), buffer, bits, d);
    ByteMod(b);
    AccountsByte(ds, output, buffer, bits, d, b, rest);
  }

  lemma StepLonger(ds: seq<digit>, output: seq<byte>, buffer: nat, bits: nat, d: digit)
    requires Accounts(ds, output, buffer, bits) && bits < 2
    ensures Accounts(ds + [d], output, ShiftIn(buffer, d), bits + 6)
  {
    TakesInDigit(buffer, bits, d);
    AccountsLonger(ds, output, buffer, bits, d, ShiftIn(buffer, d));
  }

  /** The loop's state after `i` characters. */
  ghost predicate Reads(table: string, s: string, i: nat, output: seq<byte>, buffer: nat, bits: nat)
    requires |table| == 64 && i <= |s|
  {
    var ds := Digits(table, s[..i]);
    ds.Ok? && Accounts(ds.value, output, buffer, bits)
  }

  lemma ReadsNothing(table: string, s: string)
    requires |table| == 64
    ensures Reads(table, s, 0, [], 0, 0)
  {
    Powers();
  }

  lemma ReadsNext(table: string, s: string, i: nat, output: seq<byte>, buffer: nat, bits: nat)
    requires |table| == 64 && i < |s| && Reads(table, s, i, output, buffer, bits)
    ensures match Position(table, s[i])
      case None => Digits(table, s) == Err(s[i])
      case Some(d) =>
        var wide := ShiftIn(buffer, d);
        if bits >= 2 then
          Reads(table, s, i + 1, output + [ShiftRight(wide, bits - 2) % 256], LowBits(wide, bits - 2), bits - 2)
        else Reads(table, s, i + 1, output, wide, bits + 6)
  {
    hide Digits, Accounts, ShiftIn, ShiftRight, LowBits;
    DigitsNext(table, s, i);
    var found, ds := Position(table, s[i]), Digits(table, s[..i]).value;
    if found.Some? {
      if bits >= 2 {
        StepByte(ds, output, buffer, bits, found.value);
      } else {
        StepLonger(ds, output, buffer, bits, found.value);
      }
    }
  }

  lemma ReadsAll(table: string, s: string, output: seq<byte>, buffer: nat, bits: nat)
    requires |table| == 64 && Reads(table, s, |s|, output, buffer, bits)
    ensures Digits(table, s).Ok? && output == DecodeDigits(Digits(table, s).value)
  {
    assert s[..|s|] == s;
    AccountsDecode(Digits(table, s).value, output, buffer, bits);
  }

  method DecodeWith(table: string, input: string) returns (r: Result<seq<byte>, char>)
    requires |table| == 64
    ensures r == DecodeBy(table, input)
  {
    hide Reads, ShiftIn, ShiftRight, LowBits, Digits;
    var s := TrimPadding(input);
    var output: seq<byte> := [];
    var buffer: nat := 0;
    var bits: nat := 0;
    ReadsNothing(table, s);
    for i := 0 to |s|
      invariant Reads(table, s, i, output, buffer, bits)
    {
      ReadsNext(table, s, i, output, buffer, bits);
      var found := Position(table, s[i]);
      if found.None? {
        return Err(s[i]);
      }
      var d: digit := found.value;
      buffer := ShiftIn(buffer, d);
      bits := bits + 6;
      if bits >= 8 {
        bits := bits - 8;
        output := output + [ShiftRight(buffer, bits) % 256];
        buffer := LowBits(buffer, bits);
      }
    }
    ReadsAll(table, s, output, buffer, bits);
    r := Ok(output);
  }

  method Base64Decode(input: string) returns (r: Result<seq<byte>, char>)
    ensures r == Decode(input)
  {
    r := DecodeWith(TABLE, input);
  }

  // The encoding of section 4 of RFC 4648: each three bytes are four digits; a
  // last group of one or two bytes is filled up with zero bits, and padded.

  function EncodeGroup(a: byte, b: byte, c: byte): (ds: seq<digit>)
    ensures |ds| == 4
  {
    [a / 4, a % 4 * 16 + b / 16, b % 16 * 4 + c / 64, c % 64]
  }

  function EncodeWhole(bytes: seq<byte>): seq<digit>
    requires |bytes| % 3 == 0
  {
    if bytes == [] then []
    else
      var n := |bytes|;
      EncodeWhole(bytes[..n - 3]) + EncodeGroup(bytes[n - 3], bytes[n - 2], bytes[n - 1])
  }

  /** The digits of what is left after the whole groups. */
  function EncodeTail(tail: seq<byte>): seq<digit>
    requires |tail| < 3
  {
    if |tail| == 0 then []
    else if |tail| == 1 then [tail[0] / 4, tail[0] % 4 * 16]
    else [tail[0] / 4, tail[0] % 4 * 16 + tail[1] / 16, tail[1] % 16 * 4]
  }

  function EncodeDigits(bytes: seq<byte>): seq<digit> {
    var whole := |bytes| - |bytes| % 3;
    EncodeWhole(bytes[..whole]) + EncodeTail(bytes[whole..])
  }

  function Padding(n: nat): string {
    if n % 3 == 0 then "" else if n % 3 == 1 then "==" else "="
  }

  function Spell(ds: seq<digit>): (s: string)
    ensures |s| == |ds|
  {
    seq(|ds|, i requires 0 <= i < |ds| => TABLE[ds[i]])
  }

  function Encode(bytes: seq<byte>): string {
    Spell(EncodeDigits(bytes)) + Padding(|bytes|)
  }

  lemma DigitsNumberOfTwo(ds: seq<digit>, x: digit, y: digit)
    ensures DigitsNumber(ds + [x, y]) == (DigitsNumber(ds) * 64 + x) * 64 + y
  {
    DigitsNumberAppend(ds, x);
    DigitsNumberAppend(ds + [x], y);
    assert ds + [x, y] == ds + [x] + [y];
  }

  lemma DigitsNumberOfThree(ds: seq<digit>, x: digit, y: digit, z: digit)
    ensures DigitsNumber(ds + [x, y, z]) == ((DigitsNumber(ds) * 64 + x) * 64 + y) * 64 + z
  {
    DigitsNumberOfTwo(ds, x, y);
    DigitsNumberAppend(ds + [x, y], z);
    assert ds + [x, y, z] == ds + [x, y] + [z];
  }

  lemma BytesNumberOfTwo(bytes: seq<byte>, a: byte, b: byte)
    ensures BytesNumber(bytes + [a, b]) == (BytesNumber(bytes) * 256 + a) * 256 + b
  {
    BytesNumberAppend(bytes, a);
    BytesNumberAppend(bytes + [a], b);
    assert bytes + [a, b] == bytes + [a] + [b];
  }

  lemma GroupNumber(ds: seq<digit>, bytes: seq<byte>, a: byte, b: byte, c: byte)
    requires DigitsNumber(ds) == BytesNumber(bytes)
    ensures DigitsNumber(ds + EncodeGroup(a, b, c)) == BytesNumber(bytes + [a, b, c])
  {
    var x: digit, y: digit, z: digit := a / 4, a % 4 * 16 + b / 16, b % 16 * 4 + c / 64;
    DigitsNumberOfThree(ds, x, y, z);
    DigitsNumberAppend(ds + [x, y, z], c % 64);
    assert ds + EncodeGroup(a, b, c) == ds + [x, y, z] + [c % 64];
    BytesNumberOfTwo(bytes, a, b);
    BytesNumberAppend(bytes + [a, b], c);
    assert bytes + [a, b, c] == bytes + [a, b] + [c];
  }

  lemma {:induction false} WholeNumber(bytes: seq<byte>)
    requires |bytes| % 3 == 0
    ensures |EncodeWhole(bytes)| == |bytes| / 3 * 4
    ensures DigitsNumber(EncodeWhole(bytes)) == BytesNumber(bytes)
  {
    var n := |bytes|;
    if n > 0 {
      var init := bytes[..n - 3];
      WholeNumber(init);
      GroupNumber(EncodeWhole(init), init, bytes[n - 3], bytes[n - 2], bytes[n - 1]);
      assert bytes == init + [bytes[n - 3], bytes[n - 2], bytes[n - 1]];
    }
  }

  /** The encoding is the same number followed by zero bits, as many as fill the
      last digit. */
  ghost predicate Encodes(bytes: seq<byte>, fill: nat) {
    var ds := EncodeDigits(bytes);
    6 * |ds| == 8 * |bytes| + fill && DigitsNumber(ds) == Scaled(BytesNumber(bytes), fill)
  }

  lemma OneByteInTwoDigits(a: byte, ds: nat, bytes: nat)
    requires ds == bytes
    ensures (ds * 64 + a / 4) * 64 + a % 4 * 16 == (bytes * 256 + a) * 16
  {
  }

  lemma TwoBytesInThreeDigits(a: byte, b: byte, ds: nat, bytes: nat)
    requires ds == bytes
    ensures ((ds * 64 + a / 4) * 64 + (a % 4 * 16 + b / 16)) * 64 + b % 16 * 4 == ((bytes * 256 + a) * 256 + b) * 4
  {
  }

  lemma EncodesNone(init: seq<byte>)
    requires |init| % 3 == 0
    ensures DigitsNumber(EncodeWhole(init) + EncodeTail([])) == Scaled(BytesNumber(init + []), 0)
  {
    assert EncodeWhole(init) + [] == EncodeWhole(init) && init + [] == init;
    WholeNumber(init);
  }

  lemma EncodesOne(init: seq<byte>, a: byte)
    requires |init| % 3 == 0
    ensures DigitsNumber(EncodeWhole(init) + EncodeTail([a])) == Scaled(BytesNumber(init + [a]), 4)
  {
    hide EncodeWhole, DigitsNumber, BytesNumber;
    var ds := EncodeWhole(init);
    WholeNumber(init);
    DigitsNumberOfTwo(ds, a / 4, a % 4 * 16);
    BytesNumberAppend(init, a);
    OneByteInTwoDigits(a, DigitsNumber(ds), BytesNumber(init));
  }

  lemma EncodesTwo(init: seq<byte>, a: byte, b: byte)
    requires |init| % 3 == 0
    ensures DigitsNumber(EncodeWhole(init) + EncodeTail([a, b])) == Scaled(BytesNumber(init + [a, b]), 2)
  {
    hide EncodeWhole, DigitsNumber, BytesNumber;
    var ds := EncodeWhole(init);
    WholeNumber(init);
    DigitsNumberOfThree(ds, a / 4, a % 4 * 16 + b / 16, b % 16 * 4);
    BytesNumberOfTwo(init, a, b);
    TwoBytesInThreeDigits(a, b, DigitsNumber(ds), BytesNumber(init));
  }

  /** The zero bits after a tail of one or two bytes. */
  function Fill(tail: nat): nat {
    if tail == 1 then 4 else if tail == 2 then 2 else 0
  }

  lemma EncodesTail(init: seq<byte>, tail: seq<byte>)
    requires |init| % 3 == 0 && |tail| < 3
    ensures DigitsNumber(EncodeWhole(init) + EncodeTail(tail)) == Scaled(BytesNumber(init + tail), Fill(|tail|))
  {
    if |tail| == 0 {
      EncodesNone(init);
    } else if |tail| == 1 {
      assert tail == [tail[0]];
      EncodesOne(init, tail[0]);
    } else {
      assert tail == [tail[0], tail[1]];
      EncodesTwo(init, tail[0], tail[1]);
    }
  }

  lemma EncodedNumber(bytes: seq<byte>) returns (fill: nat)
    ensures fill in {0, 2, 4} && Encodes(bytes, fill)
  {
    hide DigitsNumber, BytesNumber;
    var whole := |bytes| - |bytes| % 3;
    var init, tail := bytes[..whole], bytes[whole..];
    assert bytes == init + tail;
    fill := Fill(|tail|);
    WholeNumber(init);
    EncodesTail(init, tail);
  }

  lemma DigitsRoundTrip(bytes: seq<byte>)
    ensures DecodeDigits(EncodeDigits(bytes)) == bytes
  {
    var fill := EncodedNumber(bytes);
    Powers();
    AccountsDecode(EncodeDigits(bytes), bytes, 0, fill);
  }

  // Spelling.

  lemma {:induction false} PositionAt(table: string, i: nat)
    requires i < |table| && forall j :: 0 <= j < i ==> table[j] != table[i]
    ensures Position(table, table[i]) == Some(i)
  {
    if i > 0 {
      assert table[1..][i - 1] == table[i];
      forall j | 0 <= j < i - 1
        ensures table[1..][j] != table[1..][i - 1]
      {
        assert table[1..][j] == table[j + 1];
      }
      PositionAt(table[1..], i - 1);
    }
  }

  /** No character stands for two digits, and the padding for none. */
  lemma TableDistinct(i: nat, j: nat)
    requires i < j < 64
    ensures TABLE[i] != TABLE[j] && TABLE[i] != '=' && TABLE[j] != '='
  {
    TableCode(i);
    TableCode(j);
  }

  function CodeAt(d: digit): int {
    if d < 26 then 65 + d else if d < 52 then 71 + d else if d < 62 then d - 4 else if d == 62 then 43 else 47
  }

  lemma TableCode(d: digit)
    ensures TABLE[d] as int == CodeAt(d)
  {
    if d < 26 {
      assert TABLE[d] == UPPER[d];
    } else if d < 52 {
      assert TABLE[d] == LOWER[d - 26];
    } else {
      assert TABLE[d] == REST[d - 52];
    }
  }

  lemma {:induction false} SpellReads(ds: seq<digit>)
    ensures Digits(TABLE, Spell(ds)) == Ok(ds)
  {
    if ds != [] {
      forall j: nat | j < ds[0]
        ensures TABLE[j] != TABLE[ds[0]]
      {
        TableDistinct(j, ds[0]);
      }
      PositionAt(TABLE, ds[0]);
      assert Spell(ds)[1..] == Spell(ds[1..]);
      SpellReads(ds[1..]);
      assert [ds[0]] + ds[1..] == ds;
    }
  }

  lemma SpellingHasNoPadding(ds: seq<digit>)
    ensures TrimPadding(Spell(ds)) == Spell(ds)
  {
    if ds != [] {
      var last := ds[|ds| - 1];
      TableCode(last);
      assert Spell(ds)[|ds| - 1] == TABLE[last];
    }
  }

  lemma TrimsOne(s: string)
    ensures TrimPadding(s + "=") == TrimPadding(s)
  {
    assert (s + "=")[..|s|] == s;
  }

  lemma TrimsPadding(ds: seq<digit>, n: nat)
    ensures TrimPadding(Spell(ds) + Padding(n)) == Spell(ds)
  {
    var s := Spell(ds);
    SpellingHasNoPadding(ds);
    TrimsOne(s);
    TrimsOne(s + "=");
    assert s + "==" == s + "=" + "=" && s + "" == s;
  }

  /** Decoding the RFC's encoding of any bytes gives them back. */
  lemma EncodeDecodeRoundTrip(bytes: seq<byte>)
    ensures Decode(Encode(bytes)) == Ok(bytes)
  {
    TrimsPadding(EncodeDigits(bytes), |bytes|);
    SpellReads(EncodeDigits(bytes));
    DigitsRoundTrip(bytes);
  }

  lemma {:induction false} DigitsOkExactly(table: string, s: string)
    requires |table| == 64
    ensures Digits(table, s).Ok? <==> forall i :: 0 <= i < |s| ==> s[i] in table
  {
    if s != "" {
      DigitsOkExactly(table, s[1..]);
      assert forall i :: 1 <= i < |s| ==> s[i] == s[1..][i - 1];
    }
  }

  /** Exactly the strings of table characters, then any padding, are accepted:
      the padding is not counted, and neither the length nor the fill is checked. */
  lemma AcceptsExactly(table: string, input: string)
    requires |table| == 64
    ensures
      var s, r := TrimPadding(input), DecodeBy(table, input);
      (r.Ok? <==> forall i :: 0 <= i < |s| ==> s[i] in table) &&
      (r.Ok? ==> |r.value| == 6 * |s| / 8)
  {
    DigitsOkExactly(table, TrimPadding(input));
  }

  /** However much padding there is, it is taken off. */
  lemma {:induction false} PaddingIsTrimmed(s: string, padding: string)
    requires s != "" ==> s[|s| - 1] != '='
    requires forall i :: 0 <= i < |padding| ==> padding[i] == '='
    ensures TrimPadding(s + padding) == s
  {
    if padding == "" {
      assert s + padding == s;
    } else {
      var n := |padding| - 1;
      assert (s + padding)[..|s| + n] == s + padding[..n];
      PaddingIsTrimmed(s, padding[..n]);
    }
  }

  /** The error is the first character that is not in the table. */
  lemma RejectsFirst(table: string, good: string, c: char, rest: string, padding: string)
    requires |table| == 64 && c !in table && forall i :: 0 <= i < |good| ==> good[i] in table
    requires if rest == "" then c != '=' else rest[|rest| - 1] != '='
    requires forall i :: 0 <= i < |padding| ==> padding[i] == '='
    ensures DecodeBy(table, good + [c] + rest + padding) == Err(c)
  {
    PaddingIsTrimmed(good + [c] + rest, padding);
    DigitsOkExactly(table, good);
    DigitsConcat(table, good, [c] + rest);
    assert good + [c] + rest == good + ([c] + rest);
    assert Position(table, c) == None;
  }
}
