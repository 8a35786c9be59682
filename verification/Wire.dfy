/** Little-endian integers and the fixed-size headers of the Snapcast protocol, as byte sequences. */
module Wire {

  type byte = b: int | 0 <= b < 256
  type uint16 = x: int | 0 <= x < 0x1_0000
  type uint32 = x: int | 0 <= x < 0x1_0000_0000
  type int32 = x: int | -0x8000_0000 <= x < 0x8000_0000

  datatype Option<T> = None | Some(value: T)

  const BASE_MESSAGE_SIZE := 26
  const TIME_MESSAGE_SIZE := 8

  /** (x / unit) & 0xff. */
  function ByteAt(x: int, unit: int): byte
    requires unit > 0
  {
    var q: int := x / unit;
    q % 256
  }

  function Le16(x: uint16): (s: seq<byte>)
    ensures |s| == 2
  {
    [ByteAt(x, 1), ByteAt(x, 0x100)]
  }

  /** The low 32 bits, least significant byte first. */
  function Le32(x: int): (s: seq<byte>)
    ensures |s| == 4
  {
    [ByteAt(x, 1), ByteAt(x, 0x100), ByteAt(x, 0x1_0000), ByteAt(x, 0x100_0000)]
  }

  function FromLe16(s: seq<byte>): uint16
    requires |s| >= 2
  {
    var (a: int, b: int) := (s[0], s[1]);
    a + 0x100 * b
  }

  function FromLe32(s: seq<byte>): uint32
    requires |s| >= 4
  {
    var (a: int, b: int, c: int, d: int) := (s[0], s[1], s[2], s[3]);
    a + 0x100 * b + 0x1_0000 * c + 0x100_0000 * d
  }

  lemma Le16RoundTrip(x: uint16, rest: seq<byte>)
    ensures FromLe16(Le16(x) + rest) == x
  {
    var s := Le16(x) + rest;
    assert s[0] == ByteAt(x, 1) && s[1] == ByteAt(x, 0x100);
  }

  lemma Le32RoundTrip(x: uint32, rest: seq<byte>)
    ensures FromLe32(Le32(x) + rest) == x
  {
    var s := Le32(x) + rest;
    assert s[0] == ByteAt(x, 1) && s[1] == ByteAt(x, 0x100) && s[2] == ByteAt(x, 0x1_0000) && s[3] == ByteAt(x, 0x100_0000);
    var v: int := x;
    assert v / 0x1_0000 == v / 0x100 / 0x100 && v / 0x100_0000 == v / 0x1_0000 / 0x100;
  }

  /** Two's complement: the cast between a 32-bit field and the unsigned word on the wire. */
  function ToUnsigned(x: int32): uint32 {
    if x < 0 then x + 0x1_0000_0000 else x
  }

  function ToSigned(x: uint32): int32 {
    if x >= 0x8000_0000 then x - 0x1_0000_0000 else x
  }

  datatype Tv = Tv(sec: int32, usec: int32)

  datatype Base = Base(typ: uint16, id: uint16, refersTo: uint16, sent: Tv, received: Tv, size: uint32)

  function EncodeTv(t: Tv): (s: seq<byte>)
    ensures |s| == 8
  {
    Le32(ToUnsigned(t.sec)) + Le32(ToUnsigned(t.usec))
  }

  function DecodeTv(s: seq<byte>): Tv
    requires |s| >= 8
  {
    Tv(ToSigned(FromLe32(s)), ToSigned(FromLe32(s[4..])))
  }

  function EncodeBase(m: Base): (s: seq<byte>)
    ensures |s| == BASE_MESSAGE_SIZE
  {
    Le16(m.typ) + Le16(m.id) + Le16(m.refersTo) + EncodeTv(m.sent) + EncodeTv(m.received) + Le32(m.size)
  }

  function DecodeBase(s: seq<byte>): Base
    requires |s| >= BASE_MESSAGE_SIZE
  {
    Base(FromLe16(s), FromLe16(s[2..]), FromLe16(s[4..]), DecodeTv(s[6..]), DecodeTv(s[14..]), FromLe32(s[22..]))
  }

  lemma TvRoundTrip(t: Tv, rest: seq<byte>)
    ensures DecodeTv(EncodeTv(t) + rest) == t
  {
    var s := EncodeTv(t) + rest;
    assert s == Le32(ToUnsigned(t.sec)) + (Le32(ToUnsigned(t.usec)) + rest);
    assert s[4..] == Le32(ToUnsigned(t.usec)) + rest;
    Le32RoundTrip(ToUnsigned(t.sec), Le32(ToUnsigned(t.usec)) + rest);
    Le32RoundTrip(ToUnsigned(t.usec), rest);
  }

  /** A header is read back from the bytes it was written to, whatever follows. */
  lemma BaseRoundTrip(m: Base, rest: seq<byte>)
    ensures DecodeBase(EncodeBase(m) + rest) == m
  {
    hide Le16, Le32, FromLe16, FromLe32, EncodeTv, DecodeTv;
    var s := EncodeBase(m) + rest;
    var s22 := Le32(m.size) + rest;
    var s14 := EncodeTv(m.received) + s22;
    var s6 := EncodeTv(m.sent) + s14;
    var s4 := Le16(m.refersTo) + s6;
    var s2 := Le16(m.id) + s4;
    assert s == Le16(m.typ) + s2;
    assert s[2..] == s2 && s[4..] == s4 && s[6..] == s6 && s[14..] == s14 && s[22..] == s22;
    Le16RoundTrip(m.typ, s2);
    Le16RoundTrip(m.id, s4);
    Le16RoundTrip(m.refersTo, s6);
    TvRoundTrip(m.sent, s14);
    TvRoundTrip(m.received, s22);
    Le32RoundTrip(m.size, rest);
  }

  /** Where each field of a header lies, and in which order its bytes: the least significant one first, two's
      complement. */
  lemma BaseByOffsets(m: Base)
    ensures var s := EncodeBase(m);
      && HalfAt(s, 0) == m.typ && HalfAt(s, 2) == m.id && HalfAt(s, 4) == m.refersTo
      && WordAt(s, 6) == m.sent.sec % 0x1_0000_0000 && WordAt(s, 10) == m.sent.usec % 0x1_0000_0000
      && WordAt(s, 14) == m.received.sec % 0x1_0000_0000 && WordAt(s, 18) == m.received.usec % 0x1_0000_0000
      && WordAt(s, 22) == m.size
  {
    var s := EncodeBase(m);
    TvByOffsets(m.sent);
    TvByOffsets(m.received);
    Le32ByOffsets(m.size);
    Le16ByOffsets(m.typ);
    Le16ByOffsets(m.id);
    Le16ByOffsets(m.refersTo);
    hide Le16, Le32, EncodeTv;
    assert s[0..2] == Le16(m.typ) && s[2..4] == Le16(m.id) && s[4..6] == Le16(m.refersTo);
    assert s[6..14] == EncodeTv(m.sent) && s[14..22] == EncodeTv(m.received) && s[22..26] == Le32(m.size);
  }

  /** The little-endian word at an offset. */
  function WordAt(s: seq<byte>, k: nat): int
    requires k + 4 <= |s|
  {
    s[k] as int + 0x100 * s[k + 1] as int + 0x1_0000 * s[k + 2] as int + 0x100_0000 * s[k + 3] as int
  }

  function HalfAt(s: seq<byte>, k: nat): int
    requires k + 2 <= |s|
  {
    s[k] as int + 0x100 * s[k + 1] as int
  }

  lemma Le16ByOffsets(x: uint16)
    ensures HalfAt(Le16(x), 0) == x
  {
  }

  lemma Le32ByOffsets(x: uint32)
    ensures WordAt(Le32(x), 0) == x
  {
    Le32RoundTrip(x, []);
    assert Le32(x) + [] == Le32(x);
  }

  lemma TvByOffsets(t: Tv)
    ensures WordAt(EncodeTv(t), 0) == t.sec % 0x1_0000_0000 && WordAt(EncodeTv(t), 4) == t.usec % 0x1_0000_0000
  {
    Le32ByOffsets(ToUnsigned(t.sec));
    Le32ByOffsets(ToUnsigned(t.usec));
    hide Le32;
  }

  lemma FromLe32RoundTrip(s: seq<byte>)
    requires |s| == 4
    ensures Le32(FromLe32(s)) == s
  {
    DigitsOf(s[0], s[1], s[2], s[3], FromLe32(s));
  }

  lemma DigitsOf(a: byte, b: byte, c: byte, d: byte, x: int)
    requires x == a as int + 0x100 * b as int + 0x1_0000 * c as int + 0x100_0000 * d as int
    ensures ByteAt(x, 1) == a && ByteAt(x, 0x100) == b && ByteAt(x, 0x1_0000) == c && ByteAt(x, 0x100_0000) == d
  {
    assert x / 0x100 == b as int + 0x100 * c as int + 0x1_0000 * d as int;
    assert x / 0x1_0000 == c as int + 0x100 * d as int;
    assert x / 0x100_0000 == d as int;
  }
}
