/** Byte formats of java.io.DataOutput / java.io.DataInput that the two
    serialisers use (writeInt, writeUTF, writeBoolean and their readers), and
    the nullable-Data layout written by IOUtil.writeNullableData.
    Everything here is pure: the stream objects that apply these formats step
    by step live in module Streams. */
module Wire {

  /** One octet on the wire. */
  type byte = b: int | 0 <= b < 0x100

  const INT32_MIN: int := -0x8000_0000
  const INT32_MAX: int := 0x7FFF_FFFF

  /** A Java `int`. */
  type Int32 = x: int | INT32_MIN <= x <= INT32_MAX

  /** A Java `char`: one UTF-16 code unit. */
  type JChar = c: int | 0 <= c < 0x1_0000

  /** A Java `String`: a sequence of UTF-16 code units. */
  type JString = seq<JChar>

  /** A serialised Hazelcast `Data` blob: opaque bytes, at most as many as a
      Java array can hold. */
  type Data = d: seq<byte> | |d| <= INT32_MAX

  datatype Option<+T> = None | Some(value: T)

  /** The exceptions a read or write can end with. */
  datatype IoError =
    | EndOfStream        // java.io.EOFException: the input ended early
    | MalformedUtf       // java.io.UTFDataFormatException while reading
    | UtfTooLong         // java.io.UTFDataFormatException while writing (> 65535 bytes)
    | UnknownEnumName    // IllegalArgumentException from Enum.valueOf
    | NegativeSize       // a negative element count or payload length

  datatype Result<+T, +E> = Ok(value: T) | Err(error: E) {
    predicate IsFailure() { Err? }
    function PropagateFailure<U>(): Result<U, E> requires Err? { Err(error) }
    function Extract(): T requires Ok? { value }
  }

  /** Success or an error, for operations that produce no value. */
  datatype Outcome<+E> = Pass | Fail(error: E)

  /** A decoded value and the position just past the bytes it took. */
  datatype Read<+T> = Read(item: T, next: nat)

  /** `s` carries the bytes `w` starting at position `at`, compared byte
      by byte. */
  predicate Holds(s: seq<byte>, at: nat, w: seq<byte>)
    decreases |w|, 1
  {
    HoldsStep(s, at, w)
  }

  /** One byte of Holds. The two predicates are split so that the
      verifier unfolds a claim about a whole encoding one byte at a time,
      only when a proof asks for it. */
  predicate HoldsStep(s: seq<byte>, at: nat, w: seq<byte>)
    decreases |w|, 0
  {
    if w == [] then at <= |s|
    else at < |s| && s[at] == w[0] && Holds(s, at + 1, w[1..])
  }

  /** Carrying `w` at `at` is having the slice of `s` there equal to `w`. */
  lemma {:induction false} HoldsSlice(s: seq<byte>, at: nat, w: seq<byte>)
    ensures Holds(s, at, w) <==> at + |w| <= |s| && s[at..at + |w|] == w
    decreases |w|
  {
    if w != [] {
      HoldsSlice(s, at + 1, w[1..]);
      if at + |w| <= |s| {
        assert s[at..at + |w|] == [s[at]] + s[at + 1..at + 1 + |w[1..]|];
        assert w == [w[0]] + w[1..];
      }
    }
  }

  /** Bytes written back to back are found back to back. */
  lemma HoldsSplit(s: seq<byte>, at: nat, a: seq<byte>, b: seq<byte>, mid: nat)
    requires Holds(s, at, a + b)
    requires mid == at + |a|
    ensures Holds(s, at, a) && Holds(s, mid, b)
  {
    HoldsSlice(s, at, a + b);
    HoldsSlice(s, at, a);
    HoldsSlice(s, at + |a|, b);
    assert s[at..at + |a|] == (a + b)[..|a|];
    assert s[at + |a|..at + |a| + |b|] == (a + b)[|a|..];
  }

  lemma AppendAssoc(a: seq<byte>, b: seq<byte>, c: seq<byte>)
    ensures a + b + c == a + (b + c)
  {
  }

  /** The UTF-16 code units of a string literal made of ASCII characters. */
  function Lit(s: string): (r: JString)
    requires forall i :: 0 <= i < |s| ==> s[i] as int < 0x80
    ensures |r| == |s|
    ensures forall i :: 0 <= i < |s| ==> r[i] == s[i] as int
  {
    seq(|s|, i requires 0 <= i < |s| => s[i] as int)
  }

  // ---------------------------------------------------------------------
  // writeInt / readInt: four bytes, big-endian, two's complement

  function EncodeInt32(x: Int32): (r: seq<byte>)
    ensures |r| == 4
  {
    var u := if x < 0 then x + 0x1_0000_0000 else x;
    [u / 0x100_0000, (u / 0x1_0000) % 0x100, (u / 0x100) % 0x100, u % 0x100]
  }

  /** readInt at position `at`: fails with EOF when fewer than four bytes
      remain. */
  function DecodeInt32(s: seq<byte>, at: nat): (r: Result<Read<Int32>, IoError>)
    ensures r.Ok? <==> at + 4 <= |s|
    ensures r.Ok? ==> r.value.next == at + 4
    ensures r.Err? ==> r.error == EndOfStream
  {
    if |s| < at + 4 then Err(EndOfStream)
    else
      var u := (s[at] as int) * 0x100_0000 + (s[at + 1] as int) * 0x1_0000
               + (s[at + 2] as int) * 0x100 + s[at + 3] as int;
      Ok(Read(if u >= 0x8000_0000 then u - 0x1_0000_0000 else u, at + 4))
  }

  /** readInt gives back what writeInt wrote, wherever it was written. */
  lemma Int32RoundTrip(x: Int32, s: seq<byte>, at: nat)
    requires Holds(s, at, EncodeInt32(x))
    ensures DecodeInt32(s, at) == Ok(Read(x, at + 4))
  {
    var w := EncodeInt32(x);
    HoldsSlice(s, at, w);
    assert s[at..at + 4] == w;
    assert s[at] == w[0] && s[at + 1] == w[1] && s[at + 2] == w[2] && s[at + 3] == w[3];
    Int32Bytes(x);
  }

  /** The four bytes of writeInt, weighted big-endian and taken as two's
      complement, give the int back. */
  lemma Int32Bytes(x: Int32)
    ensures var w := EncodeInt32(x);
            var u := (w[0] as int) * 0x100_0000 + (w[1] as int) * 0x1_0000 + (w[2] as int) * 0x100 + w[3] as int;
            (if u >= 0x8000_0000 then u - 0x1_0000_0000 else u) == x
  {
    var u := if x < 0 then x + 0x1_0000_0000 else x;
    var a := u / 0x100;
    var b := a / 0x100;
    assert u == a * 0x100 + u % 0x100;
    assert a == b * 0x100 + a % 0x100;
    assert b == (u / 0x100_0000) * 0x100 + b % 0x100;
    assert b == u / 0x1_0000;
  }

  /** writeInt of what readInt decoded reproduces the four bytes read. */
  lemma Int32Canonical(s: seq<byte>, at: nat)
    requires at + 4 <= |s|
    ensures Holds(s, at, EncodeInt32(DecodeInt32(s, at).value.item))
  {
    var b0, b1, b2, b3 := s[at] as int, s[at + 1] as int, s[at + 2] as int, s[at + 3] as int;
    var hi := b0 * 0x100 + b1;
    var mid := hi * 0x100 + b2;
    var u := mid * 0x100 + b3;
    DivMod(mid, b3);
    DivMod(hi, b2);
    DivMod(b0, b1);
    assert u / 0x1_0000 == hi && u / 0x100_0000 == b0;
    assert EncodeInt32(DecodeInt32(s, at).value.item) == s[at..at + 4];
    HoldsSlice(s, at, s[at..at + 4]);
  }

  /** Division by 256 recovers the quotient and remainder a number was
      built from. */
  lemma DivMod(q: int, r: int)
    requires 0 <= r < 0x100
    ensures (q * 0x100 + r) / 0x100 == q && (q * 0x100 + r) % 0x100 == r
  {
  }

  // ---------------------------------------------------------------------
  // writeUTF / readUTF: an unsigned 16-bit byte count, then modified UTF-8

  /** The modified UTF-8 form of one code unit: 1..0x7F in one byte, 0 and
      0x80..0x7FF in two, the rest in three. */
  function UtfUnit(c: JChar): (r: seq<byte>)
    ensures 1 <= |r| <= 3
    ensures |r| == 1 <==> 1 <= c < 0x80
    ensures |r| == 3 <==> c >= 0x800
  {
    if 1 <= c < 0x80 then [c]
    else if c < 0x800 then [0xC0 + c / 0x40, 0x80 + c % 0x40]
    else [0xE0 + c / 0x1000, 0x80 + (c / 0x40) % 0x40, 0x80 + c % 0x40]
  }

  /** The bytes that follow the length prefix, code unit by code unit. */
  function UtfBody(s: JString): (r: seq<byte>)
    ensures |s| <= |r| <= 3 * |s|
  {
    if s == [] then [] else UtfUnit(s[0]) + UtfBody(s[1..])
  }

  /** writeUTF: fails, writing nothing, when the body exceeds 65535 bytes. */
  function EncodeUtf(s: JString): (r: Result<seq<byte>, IoError>)
    ensures r.Ok? <==> |UtfBody(s)| <= 0xFFFF
    ensures r.Err? ==> r.error == UtfTooLong
    ensures r.Ok? ==> |r.value| == 2 + |UtfBody(s)|
  {
    var body := UtfBody(s);
    if |body| > 0xFFFF then Err(UtfTooLong)
    else Ok([|body| / 0x100, |body| % 0x100] + body)
  }

  /** Every string of at most 21845 code units fits writeUTF's limit. */
  lemma ShortStringsEncode(s: JString)
    requires |s| <= 0xFFFF / 3
    ensures EncodeUtf(s).Ok?
  {
  }

  /** True of a continuation byte 10xxxxxx. */
  predicate IsContinuation(b: byte) { 0x80 <= b < 0xC0 }

  /** Decodes a complete modified UTF-8 body, with readUTF's rules: a lead
      byte 0xxxxxxx is one unit, 110xxxxx and 1110xxxx start two- and
      three-byte groups whose other bytes must be continuation bytes, and a
      group cut short by the end of the body or any other lead byte is
      malformed. Overlong forms are accepted, as readUTF accepts them. */
  function DecodeUtfBody(b: seq<byte>): (r: Result<JString, IoError>)
    ensures r.Ok? ==> |r.value| <= |b|
    ensures r.Err? ==> r.error == MalformedUtf
    decreases |b|, 1
  {
    if b == [] then Ok([]) else DecodeGroup(b)
  }

  /** The first group of a non-empty body, then the rest of the body. */
  function DecodeGroup(b: seq<byte>): (r: Result<JString, IoError>)
    requires b != []
    ensures r.Ok? ==> |r.value| <= |b|
    ensures r.Err? ==> r.error == MalformedUtf
    decreases |b|, 0
  {
    var c := b[0];
    if c < 0x80 then
      var t :- DecodeUtfBody(b[1..]);
      Ok([c] + t)
    else if 0xC0 <= c < 0xE0 then
      if |b| < 2 || !IsContinuation(b[1]) then Err(MalformedUtf)
      else
        var t :- DecodeUtfBody(b[2..]);
        Ok([(c - 0xC0) * 0x40 + (b[1] - 0x80)] + t)
    else if 0xE0 <= c < 0xF0 then
      if |b| < 3 || !IsContinuation(b[1]) || !IsContinuation(b[2]) then Err(MalformedUtf)
      else
        var t :- DecodeUtfBody(b[3..]);
        Ok([(c - 0xE0) * 0x1000 + (b[1] - 0x80) * 0x40 + (b[2] - 0x80)] + t)
    else Err(MalformedUtf)
  }

  /** readUTF at position `at`: the two-byte count, then exactly that many
      bytes of body. */
  function DecodeUtf(s: seq<byte>, at: nat): (r: Result<Read<JString>, IoError>)
    ensures r.Ok? ==> at + 2 <= r.value.next <= |s|
    ensures r.Ok? ==> r.value.next == at + 2 + (s[at] as int) * 0x100 + s[at + 1] as int
  {
    if |s| < at + 2 then Err(EndOfStream)
    else
      var len := (s[at] as int) * 0x100 + s[at + 1] as int;
      if |s| < at + 2 + len then Err(EndOfStream)
      else
        var str :- DecodeUtfBody(s[at + 2..at + 2 + len]);
        Ok(Read(str, at + 2 + len))
  }

  /** Decoding the encoding of one unit yields that unit and leaves what
      follows it to be decoded as before. */
  lemma UtfUnitRoundTrip(c: JChar, rest: seq<byte>)
    ensures DecodeUtfBody(UtfUnit(c) + rest) ==
      match DecodeUtfBody(rest)
      case Ok(t) => Ok([c] + t)
      case Err(e) => Err(e)
  {
    var u := UtfUnit(c);
    var b := u + rest;
    assert b[|u|..] == rest;
    if 1 <= c < 0x80 {
      assert b[0] == c;
    } else if c < 0x800 {
      TwoByteGroup(c, b);
    } else {
      ThreeByteGroup(c, b);
    }
  }

  /** The two bytes of a unit in 0 or 0x80..0x7FF form a valid group that
      decodes to it. */
  lemma TwoByteGroup(c: JChar, b: seq<byte>)
    requires (c == 0 || 0x80 <= c < 0x800) && |b| >= 2 && b[..2] == UtfUnit(c)
    ensures 0xC0 <= b[0] < 0xE0 && IsContinuation(b[1])
    ensures (b[0] as int - 0xC0) * 0x40 + (b[1] as int - 0x80) == c
  {
    assert b[0] == 0xC0 + c / 0x40 && b[1] == 0x80 + c % 0x40;
  }

  /** The three bytes of a unit at or above 0x800 form a valid group that
      decodes to it. */
  lemma ThreeByteGroup(c: JChar, b: seq<byte>)
    requires c >= 0x800 && |b| >= 3 && b[..3] == UtfUnit(c)
    ensures 0xE0 <= b[0] < 0xF0 && IsContinuation(b[1]) && IsContinuation(b[2])
    ensures (b[0] as int - 0xE0) * 0x1000 + (b[1] as int - 0x80) * 0x40 + (b[2] as int - 0x80) == c
  {
    assert b[0] == 0xE0 + c / 0x1000 && b[1] == 0x80 + (c / 0x40) % 0x40 && b[2] == 0x80 + c % 0x40;
    assert c == (c / 0x1000) * 0x1000 + ((c / 0x40) % 0x40) * 0x40 + c % 0x40;
  }

  lemma {:induction false} UtfBodyRoundTrip(s: JString)
    ensures DecodeUtfBody(UtfBody(s)) == Ok(s)
  {
    if s != [] {
      UtfBodyRoundTrip(s[1..]);
      UtfUnitRoundTrip(s[0], UtfBody(s[1..]));
      assert [s[0]] + s[1..] == s;
    }
  }

  /** Where writeUTF's output lies, the count read back is the body's
      length and the body follows it. */
  lemma UtfFrame(str: JString, s: seq<byte>, at: nat)
    requires EncodeUtf(str).Ok? && Holds(s, at, EncodeUtf(str).value)
    ensures at + 2 <= |s|
    ensures (s[at] as int) * 0x100 + s[at + 1] as int == |UtfBody(str)|
    ensures at + 2 + |UtfBody(str)| <= |s| && s[at + 2..at + 2 + |UtfBody(str)|] == UtfBody(str)
  {
    var body := UtfBody(str);
    var len := |body|;
    HoldsSplit(s, at, [len / 0x100, len % 0x100], body, at + 2);
    HoldsSlice(s, at, [len / 0x100, len % 0x100]);
    assert s[at..at + 2] == [len / 0x100, len % 0x100];
    assert s[at] == len / 0x100 && s[at + 1] == len % 0x100;
    HoldsSlice(s, at + 2, body);
  }

  /** readUTF gives back what writeUTF wrote, wherever it was written. */
  lemma UtfRoundTrip(str: JString, s: seq<byte>, at: nat, e: nat)
    requires EncodeUtf(str).Ok? && Holds(s, at, EncodeUtf(str).value)
    requires e == at + |EncodeUtf(str).value|
    ensures DecodeUtf(s, at) == Ok(Read(str, e))
  {
    UtfFrame(str, s, at);
    UtfBodyRoundTrip(str);
  }

  // ---------------------------------------------------------------------
  // IOUtil.writeNullableData / readNullableData: a presence byte, then for
  // a present blob its int length and its bytes

  function EncodeNullableData(d: Option<Data>): (r: seq<byte>)
    ensures |r| >= 1
    ensures (r[0] == 0) <==> d.None?
  {
    match d
    case None => [0]
    case Some(p) => [1] + EncodeInt32(|p|) + p
  }

  /** readNullableData at position `at`. The presence byte is read as a
      Java boolean: any non-zero byte means a blob follows. */
  function DecodeNullableData(s: seq<byte>, at: nat): (r: Result<Read<Option<Data>>, IoError>)
    ensures r.Ok? ==> at + 1 <= r.value.next <= |s|
    ensures at + 1 <= |s| && s[at] == 0 ==> r == Ok(Read(None, at + 1))
  {
    if |s| < at + 1 then Err(EndOfStream)
    else if s[at] == 0 then Ok(Read(None, at + 1))
    else
      var n :- DecodeInt32(s, at + 1);
      if n.item < 0 then Err(NegativeSize)
      else if |s| < at + 5 + n.item then Err(EndOfStream)
      else Ok(Read(Some(s[at + 5..at + 5 + n.item]), at + 5 + n.item))
  }

  /** readNullableData gives back what writeNullableData wrote, null or
      not, wherever it was written. */
  lemma NullableDataRoundTrip(d: Option<Data>, s: seq<byte>, at: nat, e: nat)
    requires Holds(s, at, EncodeNullableData(d))
    requires e == at + |EncodeNullableData(d)|
    ensures DecodeNullableData(s, at) == Ok(Read(d, e))
  {
    var w := EncodeNullableData(d);
    assert s[at] == w[0];
    if d.Some? {
      var p := d.value;
      HoldsSplit(s, at, [1] + EncodeInt32(|p|), p, at + 5);
      HoldsSplit(s, at, [1], EncodeInt32(|p|), at + 1);
      Int32RoundTrip(|p|, s, at + 1);
      HoldsSlice(s, at + 5, p);
    }
  }
}
