/** The bounded buffers of libbuffer and the (de)serialisers built on them. */
module Buffers {
  import opened Wire

  lemma ByteOfWrapped(v: int, unit: int)
    requires unit in {1, 0x100, 0x1_0000, 0x100_0000}
    ensures ByteAt(v + 0x1_0000_0000, unit) == ByteAt(v, unit)
  {
    if unit == 1 {
    } else if unit == 0x100 {
      assert (v + 0x1_0000_0000) / 0x100 == v / 0x100 + 0x100_0000;
    } else if unit == 0x1_0000 {
      assert (v + 0x1_0000_0000) / 0x1_0000 == v / 0x1_0000 + 0x1_0000;
    } else {
      assert (v + 0x1_0000_0000) / 0x100_0000 == v / 0x100_0000 + 0x100;
    }
  }

  /** A signed value is written as the bytes of its two's complement. */
  lemma Le32OfSigned(x: int32)
    ensures Le32(x) == Le32(ToUnsigned(x))
  {
    hide ByteAt;
    ByteOfWrapped(x, 1);
    ByteOfWrapped(x, 0x100);
    ByteOfWrapped(x, 0x1_0000);
    ByteOfWrapped(x, 0x100_0000);
  }

  class WriteBuffer {
    const buffer: array<byte>
    const size: nat
    var index: nat

    ghost predicate Valid()
      reads this
    {
      index <= size <= buffer.Length
    }

    /** What has been written so far. */
    ghost function Written(): seq<byte>
      requires Valid()
      reads this, buffer
    {
      buffer[..index]
    }

    /** What lies behind. */
    ghost function Tail(): seq<byte>
      requires Valid()
      reads this, buffer
    {
      buffer[index..]
    }

    constructor (data: array<byte>, n: nat)
      requires n <= data.Length
      ensures Valid() && buffer == data && size == n && index == 0
    {
      buffer, size, index := data, n, 0;
    }

    method WriteByte(b: byte)
      requires Valid() && index < size
      modifies this`index, buffer
      ensures Valid() && Written() == old(Written()) + [b]
      ensures Tail() == old(Tail())[1..]
      ensures index == old(index) + 1
    {
      buffer[index] := b;
      index := index + 1;
    }

    /** A failed write changes nothing; a successful one appends exactly the given bytes. */
    method WriteUint16(x: uint16) returns (rc: int)
      requires Valid()
      modifies this`index, buffer
      ensures Valid() && (rc == 0 || rc == 1) && (rc == 0 <==> size - old(index) >= 2)
      ensures rc == 0 ==> Written() == old(Written()) + Le16(x) && Tail() == old(Tail())[2..]
      ensures rc == 1 ==> Written() == old(Written()) && Tail() == old(Tail())
      ensures index == old(index) + if rc == 0 then 2 else 0
    {
      if size - index < 2 {
        return 1;
      }
      WriteByte(ByteAt(x, 1));
      WriteByte(ByteAt(x, 0x100));
      return 0;
    }

    method Write32(x: int) returns (rc: int)
      requires Valid()
      modifies this`index, buffer
      ensures Valid() && (rc == 0 || rc == 1) && (rc == 0 <==> size - old(index) >= 4)
      ensures rc == 0 ==> Written() == old(Written()) + Le32(x) && Tail() == old(Tail())[4..]
      ensures rc == 1 ==> Written() == old(Written()) && Tail() == old(Tail())
      ensures index == old(index) + if rc == 0 then 4 else 0
    {
      if size - index < 4 {
        return 1;
      }
      WriteByte(ByteAt(x, 1));
      WriteByte(ByteAt(x, 0x100));
      WriteByte(ByteAt(x, 0x1_0000));
      WriteByte(ByteAt(x, 0x100_0000));
      return 0;
    }
  }

  class ReadBuffer {
    const buffer: array<byte>
    const size: nat
    var index: nat

    ghost predicate Valid()
      reads this
    {
      index <= size <= buffer.Length
    }

    /** What is still to be read. */
    ghost function Rest(): seq<byte>
      requires Valid()
      reads this, buffer
    {
      buffer[index..size]
    }

    constructor (data: array<byte>, n: nat)
      requires n <= data.Length
      ensures Valid() && buffer == data && size == n && index == 0
    {
      buffer, size, index := data, n, 0;
    }

    method ReadByte() returns (b: byte)
      requires Valid() && index < size
      modifies this`index
      ensures Valid() && index == old(index) + 1
      ensures b == old(Rest())[0] && Rest() == old(Rest())[1..]
    {
      b := buffer[index];
      index := index + 1;
    }

    method ReadUint16() returns (rc: int, x: uint16)
      requires Valid()
      modifies this`index
      ensures Valid() && (rc == 0 || rc == 1) && (rc == 0 <==> |old(Rest())| >= 2)
      ensures rc == 0 ==> x == FromLe16(old(Rest())) && Rest() == old(Rest())[2..]
      ensures rc == 1 ==> index == old(index)
    {
      if size - index < 2 {
        return 1, 0;
      }
      var a := ReadByte();
      var b := ReadByte();
      x := FromLe16([a, b]);
      return 0, x;
    }

    method ReadUint32() returns (rc: int, x: uint32)
      requires Valid()
      modifies this`index
      ensures Valid() && (rc == 0 || rc == 1) && (rc == 0 <==> |old(Rest())| >= 4)
      ensures rc == 0 ==> x == FromLe32(old(Rest())) && Rest() == old(Rest())[4..]
      ensures rc == 1 ==> index == old(index)
    {
      if size - index < 4 {
        return 1, 0;
      }
      var a := ReadByte();
      var b := ReadByte();
      var c := ReadByte();
      var d := ReadByte();
      x := FromLe32([a, b, c, d]);
      return 0, x;
    }

    method ReadInt32() returns (rc: int, x: int32)
      requires Valid()
      modifies this`index
      ensures Valid() && (rc == 0 || rc == 1) && (rc == 0 <==> |old(Rest())| >= 4)
      ensures rc == 0 ==> x == ToSigned(FromLe32(old(Rest()))) && Rest() == old(Rest())[4..]
      ensures rc == 1 ==> index == old(index)
    {
      var u;
      rc, u := ReadUint32();
      x := ToSigned(u);
    }
  }

  function Or(a: int, b: int): int {
    if a == 0 && b == 0 then 0 else 1
  }

  /** The header is written exactly when it fits, and then only its 26 bytes change. */
  method BaseMessageSerialize(msg: Base, data: array<byte>, size: nat) returns (result: int)
    requires size <= data.Length
    modifies data
    ensures result == 0 <==> size >= BASE_MESSAGE_SIZE
    ensures result == 0 ==> data[..] == EncodeBase(msg) + old(data[BASE_MESSAGE_SIZE..])
  {
    hide Le16, Le32, EncodeBase;
    var buffer := new WriteBuffer(data, size);
    result := SerializeIds(msg, buffer);
    var rc := SerializeTimes(msg, buffer);
    result := Or(result, rc);
    if result == 0 {
      BaseAsWritten(msg);
      DroppedHeader(old(data[..]));
      assert data[..] == buffer.Written() + buffer.Tail();
    }
  }

  method SerializeIds(msg: Base, buffer: WriteBuffer) returns (result: int)
    requires buffer.Valid()
    modifies buffer`index, buffer.buffer
    ensures buffer.Valid() && (result == 0 <==> buffer.size - old(buffer.index) >= 6)
    ensures result == 0 ==> buffer.index == old(buffer.index) + 6
    ensures result == 0 ==> buffer.Written() == old(buffer.Written()) + (Le16(msg.typ) + Le16(msg.id) + Le16(msg.refersTo))
    ensures result == 0 ==> buffer.Tail() == old(buffer.Tail())[2..][2..][2..]
    ensures result != 0 ==> buffer.size - buffer.index < 2
  {
    hide Le16;
    var rc := buffer.WriteUint16(msg.typ);
    result := rc;
    rc := buffer.WriteUint16(msg.id);
    result := Or(result, rc);
    rc := buffer.WriteUint16(msg.refersTo);
    result := Or(result, rc);
  }

  method SerializeTimes(msg: Base, buffer: WriteBuffer) returns (result: int)
    requires buffer.Valid()
    modifies buffer`index, buffer.buffer
    ensures buffer.Valid() && (result == 0 <==> buffer.size - old(buffer.index) >= 20)
    ensures result == 0 ==> buffer.Written() == old(buffer.Written()) + TimesAsWritten(msg)
    ensures result == 0 ==> buffer.Tail() == old(buffer.Tail())[4..][4..][4..][4..][4..]
  {
    hide Le32;
    var rc := buffer.Write32(msg.sent.sec);
    result := rc;
    rc := buffer.Write32(msg.sent.usec);
    result := Or(result, rc);
    rc := buffer.Write32(msg.received.sec);
    result := Or(result, rc);
    rc := buffer.Write32(msg.received.usec);
    result := Or(result, rc);
    rc := buffer.Write32(msg.size);
    result := Or(result, rc);
  }

  ghost function TimesAsWritten(m: Base): seq<byte> {
    Le32(m.sent.sec) + Le32(m.sent.usec) + Le32(m.received.sec) + Le32(m.received.usec) + Le32(m.size)
  }

  lemma DroppedHeader(s: seq<byte>)
    requires |s| >= BASE_MESSAGE_SIZE
    ensures s[2..][2..][2..][4..][4..][4..][4..][4..] == s[BASE_MESSAGE_SIZE..]
  {
    assert s[2..][2..] == s[4..] && s[4..][2..] == s[6..] && s[6..][4..] == s[10..] && s[10..][4..] == s[14..];
    assert s[14..][4..] == s[18..] && s[18..][4..] == s[22..] && s[22..][4..] == s[26..];
  }

  lemma BaseAsWritten(m: Base)
    ensures EncodeBase(m) == Le16(m.typ) + Le16(m.id) + Le16(m.refersTo) + TimesAsWritten(m)
  {
    Le32OfSigned(m.sent.sec);
    Le32OfSigned(m.sent.usec);
    Le32OfSigned(m.received.sec);
    Le32OfSigned(m.received.usec);
  }

  method BaseMessageDeserialize(data: array<byte>, size: nat) returns (result: int, msg: Base)
    requires size <= data.Length
    ensures result == 0 <==> size >= BASE_MESSAGE_SIZE
    ensures result == 0 ==> msg == DecodeBase(data[..size])
  {
    hide FromLe16, FromLe32;
    var buffer := new ReadBuffer(data, size);
    var rc, typ := buffer.ReadUint16();
    result := rc;
    var id, refersTo, sentSec, sentUsec, receivedSec, receivedUsec, length;
    rc, id := buffer.ReadUint16();
    result := Or(result, rc);
    rc, refersTo := buffer.ReadUint16();
    result := Or(result, rc);
    rc, sentSec := buffer.ReadInt32();
    result := Or(result, rc);
    rc, sentUsec := buffer.ReadInt32();
    result := Or(result, rc);
    rc, receivedSec := buffer.ReadInt32();
    result := Or(result, rc);
    rc, receivedUsec := buffer.ReadInt32();
    result := Or(result, rc);
    rc, length := buffer.ReadUint32();
    result := Or(result, rc);
    msg := Base(typ, id, refersTo, Tv(sentSec, sentUsec), Tv(receivedSec, receivedUsec), length);
    if result == 0 {
      Suffixes(data[..size]);
    }
  }

  /** Reading field by field is reading at the field offsets. */
  lemma Suffixes(s: seq<byte>)
    requires |s| >= BASE_MESSAGE_SIZE
    ensures s[2..][2..] == s[4..] && s[4..][2..] == s[6..] && s[6..][4..] == s[10..] && s[10..][4..] == s[14..]
    ensures s[14..][4..] == s[18..] && s[18..][4..] == s[22..]
  {
  }

  /** Whatever is serialised into an array is deserialised from it. */
  method HeaderRoundTrip(msg: Base, data: array<byte>, size: nat) returns (ok: bool, copy: Base)
    requires size <= data.Length
    modifies data
    ensures ok <==> size >= BASE_MESSAGE_SIZE
    ensures ok ==> copy == msg
  {
    var result := BaseMessageSerialize(msg, data, size);
    var result';
    result', copy := BaseMessageDeserialize(data, size);
    ok := result == 0 && result' == 0;
    if ok {
      BaseRoundTrip(msg, data[BASE_MESSAGE_SIZE..size]);
      assert data[..size] == EncodeBase(msg) + data[BASE_MESSAGE_SIZE..size];
    }
  }

  method TimeMessageSerialize(latency: Tv, data: array<byte>, size: nat) returns (result: int)
    requires size <= data.Length
    modifies data
    ensures result == 0 <==> size >= TIME_MESSAGE_SIZE
    ensures result == 0 ==> data[..] == EncodeTv(latency) + old(data[TIME_MESSAGE_SIZE..])
  {
    var buffer := new WriteBuffer(data, size);
    var rc := buffer.Write32(latency.sec);
    result := rc;
    rc := buffer.Write32(latency.usec);
    result := Or(result, rc);
    if result == 0 {
      Le32OfSigned(latency.sec);
      Le32OfSigned(latency.usec);
      assert data[..] == buffer.Written() + buffer.Tail();
    }
  }

  method TimeMessageDeserialize(data: array<byte>, size: nat) returns (result: int, latency: Tv)
    requires size <= data.Length
    ensures result == 0 <==> size >= TIME_MESSAGE_SIZE
    ensures result == 0 ==> latency == DecodeTv(data[..size])
  {
    hide FromLe32;
    var buffer := new ReadBuffer(data, size);
    var rc, sec := buffer.ReadInt32();
    result := rc;
    var usec;
    rc, usec := buffer.ReadInt32();
    result := Or(result, rc);
    latency := Tv(sec, usec);
  }

  /** Time stamp, size and the place where the payload starts. */
  method WireChunkMessageDeserialize(data: array<byte>, size: nat)
    returns (result: int, timestamp: Tv, payloadSize: uint32, payloadStart: nat)
    requires size <= data.Length
    ensures result == 0 <==> size >= 12
    ensures result == 0 ==> timestamp == DecodeTv(data[..size]) && payloadSize == FromLe32(data[..size][8..])
    ensures result == 0 ==> payloadStart == 12
  {
    hide FromLe32;
    var buffer := new ReadBuffer(data, size);
    var rc, sec := buffer.ReadInt32();
    result := rc;
    var usec;
    rc, usec := buffer.ReadInt32();
    result := Or(result, rc);
    rc, payloadSize := buffer.ReadUint32();
    result := Or(result, rc);
    timestamp := Tv(sec, usec);
    payloadStart := buffer.index;
    if result == 0 {
      assert data[..size][4..][4..] == data[..size][8..];
    }
  }
}
