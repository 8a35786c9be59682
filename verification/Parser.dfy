/** The Snapcast message parsers: byte-pulling code, specified by what it reads off the stream. */
module Parsers {
  import opened Wire
  import opened Pcm
  import opened Connections

  datatype Codec = NONE | PCM | FLAC | OGG | OPUS

  predicate Supported(c: Codec) {
    c.OPUS? || c.FLAC? || c.PCM?
  }

  datatype ParserState = Ok | RestartConnection

  /** 32-bit unsigned subtraction. */
  function Minus(size: uint32, k: nat): (n: nat)
    requires k < 0x1_0000_0000
    ensures n < 0x1_0000_0000
  {
    (size - k) % 0x1_0000_0000
  }

  /** The C string in a buffer: the bytes before the first zero. */
  function CString(s: seq<byte>): seq<byte> {
    if s == [] || s[0] == 0 then [] else [s[0]] + CString(s[1..])
  }

  const OPUS_NAME: seq<byte> := [111, 112, 117, 115]
  const FLAC_NAME: seq<byte> := [102, 108, 97, 99]
  const PCM_NAME: seq<byte> := [112, 99, 109]

  function CodecOf(name: seq<byte>): Codec {
    var c := CString(name);
    if c == OPUS_NAME then OPUS else if c == FLAC_NAME then FLAC else if c == PCM_NAME then PCM else NONE
  }

  /** As strcmp reads the buffer: the letters and then a zero, which the parser puts behind the bytes received. */
  predicate Spells(name: seq<byte>, letters: string) {
    && |name| >= |letters| && (|name| > |letters| ==> name[|letters|] == 0)
    && forall i :: 0 <= i < |letters| ==> name[i] == letters[i] as int != 0
  }

  /** Which names are accepted, and as which codec. */
  lemma CodecsByName(name: seq<byte>)
    ensures CodecOf(name).OPUS? <==> Spells(name, "opus")
    ensures CodecOf(name).FLAC? <==> Spells(name, "flac")
    ensures CodecOf(name).PCM? <==> Spells(name, "pcm")
    ensures Supported(CodecOf(name)) || CodecOf(name).NONE?
  {
    CStringSpells(name, OPUS_NAME, "opus");
    CStringSpells(name, FLAC_NAME, "flac");
    CStringSpells(name, PCM_NAME, "pcm");
    hide Spells, CString;
  }

  lemma {:induction false} CStringSpells(name: seq<byte>, bytes: seq<byte>, letters: string)
    requires |bytes| == |letters| && forall i :: 0 <= i < |letters| ==> bytes[i] == letters[i] as int != 0
    ensures CString(name) == bytes <==> Spells(name, letters)
  {
    if letters == "" {
    } else if name != [] && name[0] == bytes[0] {
      CStringSpells(name[1..], bytes[1..], letters[1..]);
      SpellsStep(name, letters);
      assert bytes == [bytes[0]] + bytes[1..];
    }
  }

  lemma SpellsStep(name: seq<byte>, letters: string)
    requires name != [] && letters != "" && name[0] == letters[0] as int != 0
    ensures Spells(name, letters) <==> Spells(name[1..], letters[1..])
  {
    if Spells(name[1..], letters[1..]) {
      forall i | 0 <= i < |letters| ensures name[i] == letters[i] as int != 0 {
        if i > 0 {
          assert name[1..][i - 1] == letters[1..][i - 1] as int != 0;
        }
      }
    }
  }

  // ----- what the stream says -----

  datatype Gate = Gate(header: bool, codec: Codec)

  /** The name and its terminator do not fit the buffer of eight bytes; the sum is 32 bits wide. */
  predicate TooLong(codecStringLen: uint32) {
    var n: int := codecStringLen;
    (n + 1) % 0x1_0000_0000 > 8
  }

  /** A refusal: is it because the stream ends? */
  datatype CodecHeader = Accepted(gate: Gate, payload: seq<byte>, rest: seq<byte>) | Refused(gate: Gate, starved: bool)

  /** A codec header at the front of the stream; a refused one still clears the flag and may set the codec. */
  function CodecHeaderOf(s: seq<byte>, codec: Codec): CodecHeader {
    if |s| < 4 then Refused(Gate(false, codec), true) else
    var n := FromLe32(s);
    if TooLong(n) then Refused(Gate(false, codec), |s| < 11)
    else if |s| - 4 < n then Refused(Gate(false, codec), true) else
    var c := CodecOf(s[4..4 + n]);
    var t := s[4 + n..];
    if c.NONE? then Refused(Gate(false, c), false)
    else if |t| < 4 || |t| - 4 < FromLe32(t) then Refused(Gate(false, c), true) else
    var p := FromLe32(t);
    Accepted(Gate(true, c), t[4..4 + p], t[4 + p..])
  }

  function Available(s: seq<byte>, n: nat): (t: seq<byte>)
    ensures |t| == if n <= |s| then n else |s|
  {
    if n <= |s| then s[..n] else s
  }

  // ----- the readers -----

  method ReadData(conn: Connection, n: nat) returns (ok: bool, data: seq<byte>)
    requires conn.Valid()
    modifies conn
    ensures conn.Valid() && (ok <==> |old(conn.Remaining())| >= n)
    ensures ok ==> data == old(conn.Remaining())[..n] && conn.Remaining() == old(conn.Remaining())[n..]
    ensures !ok ==> conn.state.RestartRequired?
    ensures ok ==> conn.state.BufferFilled? || (n == 0 && conn.state == old(conn.state))
  {
    hide Connection.Valid, Connection.Remaining;
    ghost var all := conn.Remaining();
    data := [];
    var i := 0;
    while i < n
      invariant i <= n && i <= |all| && conn.Valid()
      invariant data == all[..i] && conn.Remaining() == all[i..]
      invariant conn.state.BufferFilled? || (i == 0 && conn.state == old(conn.state))
    {
      var rc, b := conn.GetByte();
      if rc != 0 {
        return false, data;
      }
      data := data + [b];
      i := i + 1;
    }
    return true, data;
  }

  method ReadUint16(conn: Connection) returns (ok: bool, x: uint16)
    requires conn.Valid()
    modifies conn
    ensures conn.Valid() && (ok <==> |old(conn.Remaining())| >= 2)
    ensures ok ==> x == FromLe16(old(conn.Remaining())) && conn.Remaining() == old(conn.Remaining())[2..]
    ensures if ok then conn.state.BufferFilled? else conn.state.RestartRequired?
  {
    hide Connection.Valid, Connection.Remaining;
    var data;
    ok, data := ReadData(conn, 2);
    x := if ok then FromLe16(data) else 0;
  }

  method ReadUint32(conn: Connection) returns (ok: bool, x: uint32)
    requires conn.Valid()
    modifies conn
    ensures conn.Valid() && (ok <==> |old(conn.Remaining())| >= 4)
    ensures ok ==> x == FromLe32(old(conn.Remaining())) && conn.Remaining() == old(conn.Remaining())[4..]
    ensures if ok then conn.state.BufferFilled? else conn.state.RestartRequired?
  {
    hide Connection.Valid, Connection.Remaining;
    var data;
    ok, data := ReadData(conn, 4);
    x := if ok then FromLe32(data) else 0;
  }

  method ReadTimestamp(conn: Connection) returns (ok: bool, t: Tv)
    requires conn.Valid()
    modifies conn
    ensures conn.Valid() && (ok <==> |old(conn.Remaining())| >= 8)
    ensures ok ==> t == DecodeTv(old(conn.Remaining())) && conn.Remaining() == old(conn.Remaining())[8..]
    ensures if ok then conn.state.BufferFilled? else conn.state.RestartRequired?
  {
    hide Connection.Valid, Connection.Remaining, FromLe32;
    t := Tv(0, 0);
    var sec, usec;
    ok, sec := ReadUint32(conn);
    if !ok {
      return;
    }
    ok, usec := ReadUint32(conn);
    t := Tv(ToSigned(sec), ToSigned(usec));
  }

  method ParseBaseMessage(conn: Connection) returns (r: ParserState, m: Base)
    requires conn.Valid()
    modifies conn
    ensures conn.Valid() && (r.Ok? <==> |old(conn.Remaining())| >= BASE_MESSAGE_SIZE)
    ensures r.Ok? ==> m == DecodeBase(old(conn.Remaining())) && conn.Remaining() == old(conn.Remaining())[BASE_MESSAGE_SIZE..]
    ensures if r.Ok? then conn.state.BufferFilled? else conn.state.RestartRequired?
  {
    hide Connection.Valid, Connection.Remaining, FromLe16, FromLe32, DecodeTv;
    ghost var s := conn.Remaining();
    m := Base(0, 0, 0, Tv(0, 0), Tv(0, 0), 0);
    var ok, typ := ReadUint16(conn);
    if !ok { return RestartConnection, m; }
    var id;
    ok, id := ReadUint16(conn);
    if !ok { return RestartConnection, m; }
    var refersTo;
    ok, refersTo := ReadUint16(conn);
    if !ok { return RestartConnection, m; }
    var sent;
    ok, sent := ReadTimestamp(conn);
    if !ok { return RestartConnection, m; }
    var received;
    ok, received := ReadTimestamp(conn);
    if !ok { return RestartConnection, m; }
    var size;
    ok, size := ReadUint32(conn);
    if !ok { return RestartConnection, m; }
    HeaderSuffixes(s);
    return Ok, Base(typ, id, refersTo, sent, received, size);
  }

  lemma HeaderSuffixes(s: seq<byte>)
    requires |s| >= BASE_MESSAGE_SIZE
    ensures s[2..][2..] == s[4..] && s[4..][2..] == s[6..] && s[6..][8..] == s[14..] && s[14..][8..] == s[22..]
    ensures s[22..][4..] == s[26..]
  {
  }

  /** The byte loop of the PCM branch. `aligned` tells whether the chunk has just been allocated. */
  method ReadPcm(conn: Connection, n: nat, chunk: Option<Chunk>, aligned: bool) returns (ok: bool, result: Option<Chunk>)
    requires conn.Valid()
    modifies conn
    ensures conn.Valid() && (ok <==> |old(conn.Remaining())| >= n)
    ensures ok ==> conn.Remaining() == old(conn.Remaining())[n..]
    ensures !ok ==> conn.state.RestartRequired?
    ensures result == Assembled(chunk, (if aligned then [] else [0, 0, 0]) + Available(old(conn.Remaining()), n))
  {
    hide Connection.Valid, Connection.Remaining, Shifting, Assembled;
    ghost var all := conn.Remaining();
    ghost var pad: seq<byte> := if aligned then [] else [0, 0, 0];
    result := chunk;
    var tmpData: bv32 := 0;
    var payloadDataShift := if aligned then 3 else 0;
    var word := 0;  // payloadOffset / 4
    StartShifting(chunk, aligned);
    assert pad + all[..0] == pad;
    var i := 0;
    while i < n
      invariant i <= n && i <= |all| && conn.Valid() && conn.Remaining() == all[i..]
      invariant Shifting(chunk, pad + all[..i], tmpData, payloadDataShift, word, result)
    {
      var rc, b := conn.GetByte();
      if rc != 0 {
        assert Available(all, n) == all[..i];
        ShiftingStores(chunk, pad + all[..i], tmpData, payloadDataShift, word, result);
        return false, result;
      }
      assert pad + all[..i + 1] == pad + all[..i] + [b];
      tmpData, payloadDataShift, word, result := ShiftIn(chunk, pad + all[..i], tmpData, payloadDataShift, word, result, b);
      i := i + 1;
    }
    ShiftingStores(chunk, pad + all[..i], tmpData, payloadDataShift, word, result);
    return true, result;
  }

  /** The byte loop after the bytes p: the shift register, its position, the next word and the chunk. */
  ghost predicate Shifting(chunk: Option<Chunk>, p: seq<byte>, tmpData: bv32, shift: int, word: int, result: Option<Chunk>) {
    && shift == 3 - |p| % 4 && tmpData == Partial(Leftover(p))
    && result == Assembled(chunk, p)
    && word == if Stores(chunk) then |p| / 4 else 0
  }

  lemma ShiftingStores(chunk: Option<Chunk>, p: seq<byte>, tmpData: bv32, shift: int, word: int, result: Option<Chunk>)
    requires Shifting(chunk, p, tmpData, shift, word, result)
    ensures result == Assembled(chunk, p)
  {
  }

  lemma StartShifting(chunk: Option<Chunk>, aligned: bool)
    ensures Shifting(chunk, if aligned then [] else [0, 0, 0], 0, if aligned then 3 else 0, 0, chunk)
  {
    hide Partial, Leftover, Assembled;
    NothingRead(chunk);
  }

  method ShiftIn(ghost chunk: Option<Chunk>, ghost p: seq<byte>, tmp: bv32, shift: int, at: int, stored: Option<Chunk>,
                 b: byte)
    returns (tmpData: bv32, payloadDataShift: int, word: int, result: Option<Chunk>)
    requires Shifting(chunk, p, tmp, shift, at, stored)
    ensures Shifting(chunk, p + [b], tmpData, payloadDataShift, word, result)
  {
    hide Words, Word, Partial, AtShift, Swapped, Assembled, Leftover;
    PcmStep(chunk, p, b);
    word, result := at, stored;
    tmpData := tmp | AtShift(b, shift);
    payloadDataShift := shift - 1;
    if payloadDataShift < 0 {
      payloadDataShift := 3;
      if Stores(result) {
        tmpData := Swapped(tmpData);
        result := Store(result, word, tmpData);
        word := word + 1;
      }
      tmpData := 0;
    }
  }

  predicate Stores(chunk: Option<Chunk>) {
    chunk.Some? && chunk.value.hasPayload
  }

  /** Writing the word number `word` of the payload. */
  function Store(chunk: Option<Chunk>, word: nat, w: bv32): Option<Chunk>
    requires Stores(chunk)
  {
    var words := chunk.value.words;
    Some(chunk.value.(words := if word < |words| then words[word := w] else words + [w]))
  }

  lemma NothingRead(chunk: Option<Chunk>)
    ensures Partial(Leftover([])) == 0 && Partial(Leftover([0, 0, 0])) == 0
    ensures Assembled(chunk, []) == chunk == Assembled(chunk, [0, 0, 0])
  {
    hide Partial;
    assert Leftover([0, 0, 0]) == [0, 0, 0];
    PartialOfZeros();
    if Stores(chunk) {
      assert Overwrite(chunk.value.words, []) == chunk.value.words;
    }
  }

  lemma PartialOfZeros()
    ensures Partial([]) == 0 && Partial([0, 0, 0]) == 0
  {
    ByteIsZero();
    hide Bv;
  }

  /** What one more byte does to the shift register and to the stored words. */
  lemma PcmStep(chunk: Option<Chunk>, p: seq<byte>, b: byte)
    ensures Stores(Assembled(chunk, p)) == Stores(chunk)
    ensures |p| % 4 != 3 ==>
      && Partial(Leftover(p + [b])) == Partial(Leftover(p)) | AtShift(b, 3 - |p| % 4)
      && Assembled(chunk, p + [b]) == Assembled(chunk, p)
    ensures |p| % 4 == 3 ==>
      && Partial(Leftover(p + [b])) == 0
      && Assembled(chunk, p + [b]) ==
           if Stores(chunk) then Store(Assembled(chunk, p), |p| / 4, Swapped(Partial(Leftover(p)) | AtShift(b, 0)))
           else Assembled(chunk, p)
  {
    hide Partial, Word, Swapped, AtShift, Words, Leftover;
    WordsStep(p, b);
    LeftoverStep(p, b);
    NothingRead(chunk);
    if |p| % 4 == 3 {
      LeftoverBytes(p);
      assert Leftover(p + [b]) == [] == Leftover([]) by { LeftoverOfNothing(); }
      LastByte(Leftover(p), b);
      if Stores(chunk) {
        AssembledStep(chunk.value, p, b);
      }
    } else {
      PartialStep(Leftover(p), b);
    }
  }

  lemma LeftoverOfNothing()
    ensures Leftover([]) == []
  {
  }

  lemma LeftoverBytes(p: seq<byte>)
    requires |p| % 4 == 3
    ensures Leftover(p) == [p[|p| - 3], p[|p| - 2], p[|p| - 1]]
  {
  }

  lemma LastByte(q: seq<byte>, b: byte)
    requires |q| == 3
    ensures Swapped(Partial(q) | AtShift(b, 0)) == Word(q[0], q[1], q[2], b)
  {
    SwapIsWord(q, b);
  }

  // ----- typed messages -----

  /** What the allocation of a PCM chunk yields; without memory for the payload the chunk stands for silence. */
  datatype Allocation = NoChunk | NoPayload | WithPayload

  /** The chunk that the PCM branch fills: the one left over, or else a new one. */
  function Entered(chunk: Option<Chunk>, allocation: Allocation, size: uint32): Option<Chunk> {
    if chunk.Some? || allocation.NoChunk? then chunk else Some(Chunk(size, allocation.WithPayload?, []))
  }

  function Filled(chunk: Option<Chunk>, allocation: Allocation, size: uint32, data: seq<byte>): Option<Chunk> {
    Assembled(Entered(chunk, allocation, size), (if chunk.None? then [] else [0, 0, 0]) + data)
  }

  /** The payload buffer has `size` bytes. */
  predicate InsidePayload(c: Chunk) {
    4 * |c.words| <= c.size
  }

  /** The byte loop does not look at the size of the buffer: the stores of a payload into a new chunk stay inside
      exactly if the chunk's size covers the whole frames that the message carries. */
  lemma NewChunkStaysInside(size: uint32, data: seq<byte>)
    ensures var c := Filled(None, WithPayload, size, data);
      c.Some? && (InsidePayload(c.value) <==> |data| / 4 <= size / 4)
  {
    hide Words;
    assert [] + data == data;
    FramesFit(|data|, size);
  }

  /** For a chunk left over there have to be three bytes more. */
  lemma LeftoverStaysInside(c: Chunk, allocation: Allocation, size: uint32, data: seq<byte>)
    requires c.hasPayload && InsidePayload(c)
    ensures var d := Filled(Some(c), allocation, size, data);
      d.Some? && (InsidePayload(d.value) <==> (|data| + 3) / 4 <= c.size / 4)
  {
    hide Words;
    FramesFit(|data| + 3, c.size);
    var w := Words([0, 0, 0] + data);
    assert |w| == (|data| + 3) / 4;
  }

  lemma FramesFit(n: nat, size: nat)
    ensures 4 * (n / 4) <= size <==> n / 4 <= size / 4
  {
  }

  /** The name and its terminator stay inside their buffer of eight bytes for every length that passes the check,
      except the one for which the check wraps around. */
  lemma NameStaysInside(codecStringLen: uint32)
    requires !TooLong(codecStringLen)
    ensures var n: int := codecStringLen; n + 1 <= 8 <==> n != 0xFFFF_FFFF
  {
  }

  /** The bytes of an encoded chunk stay inside their buffer, which has the size the chunk announces. */
  predicate EncodedInside(base: Base, size: uint32) {
    Minus(base.size, 12) <= size
  }

  /** They do exactly if the message is not larger than the chunk and its header; a message smaller than the header
      is taken for one of about four gigabytes. */
  lemma EncodedStaysInside(base: Base, size: uint32)
    ensures EncodedInside(base, size) <==>
              if base.size >= 12 then base.size as int <= size + 12 else 0x1_0000_0000 + base.size <= size + 12
  {
  }

  /** The settings and the terminator behind the announced length stay inside a buffer of typedMsgLen + 1 bytes, a
      number of 32 bits. */
  predicate SettingsInside(base: Base, typedMsgLen: uint32) {
    var room := (typedMsgLen + 1) % 0x1_0000_0000;
    Minus(base.size, 4) <= room && typedMsgLen < room
  }

  lemma SettingsStayInside(base: Base, typedMsgLen: uint32)
    ensures SettingsInside(base, typedMsgLen) <==>
      && typedMsgLen != 0xFFFF_FFFF
      && if base.size >= 4 then base.size as int <= typedMsgLen + 5 else 0x1_0000_0000 + base.size <= typedMsgLen + 5
  {
  }

  method ParseWireChunkMessage(conn: Connection, base: Base, codec: Codec, chunk: Option<Chunk>, allocation: Allocation)
    returns (r: ParserState, timestamp: Tv, size: uint32, inData: seq<byte>, pcmData: Option<Chunk>)
    requires conn.Valid() && Supported(codec)
    modifies conn
    ensures conn.Valid()
    ensures r.Ok? <==> |old(conn.Remaining())| >= 12 + Minus(base.size, 12)
    ensures r.RestartConnection? ==> conn.state.RestartRequired?
    ensures r.Ok? ==>
      && timestamp == DecodeTv(old(conn.Remaining())) && size == FromLe32(old(conn.Remaining())[8..])
      && conn.Remaining() == old(conn.Remaining())[12 + Minus(base.size, 12)..]
      && (!codec.PCM? ==> inData == old(conn.Remaining())[12..12 + Minus(base.size, 12)])
    ensures pcmData ==
      if codec.PCM? && |old(conn.Remaining())| >= 12 then
        Filled(chunk, allocation, FromLe32(old(conn.Remaining())[8..]),
               Available(old(conn.Remaining())[12..], Minus(base.size, 12)))
      else chunk
  {
    hide Connection.Valid, Connection.Remaining, FromLe32, DecodeTv, Assembled, Minus;
    ghost var s := conn.Remaining();
    size, inData, pcmData := 0, [], chunk;
    var ok;
    ok, timestamp := ReadTimestamp(conn);
    if !ok { return RestartConnection, timestamp, size, inData, pcmData; }
    ok, size := ReadUint32(conn);
    if !ok { return RestartConnection, timestamp, size, inData, pcmData; }
    assert s[8..][4..] == s[12..];
    var tmpSize := Minus(base.size, 12);
    assert |s| >= 12 + tmpSize ==> s[12..][tmpSize..] == s[12 + tmpSize..];
    match codec {
      case OPUS | FLAC =>
        ok, inData := ReadData(conn, tmpSize);
        if !ok { return RestartConnection, timestamp, size, inData, pcmData; }
      case PCM =>
        if pcmData.None? {
          match allocation {
            case NoChunk => pcmData := None;
            case NoPayload => pcmData := Some(Chunk(size, false, []));
            case WithPayload => pcmData := Some(Chunk(size, true, []));
          }
        }
        ok, pcmData := ReadPcm(conn, tmpSize, pcmData, chunk.None?);
        if !ok { return RestartConnection, timestamp, size, inData, pcmData; }
      case _ =>
        assert false;
    }
    return Ok, timestamp, size, inData, pcmData;
  }

  /** Accepts opus, flac and pcm; clears the flag first and sets it only at the end. */
  method ParseCodecHeaderMessage(conn: Connection, codec: Codec)
    returns (r: ParserState, receivedCodecHeader: bool, codec': Codec, payload: seq<byte>)
    requires conn.Valid()
    modifies conn
    ensures conn.Valid()
    ensures match CodecHeaderOf(old(conn.Remaining()), codec)
            case Accepted(gate, p, rest) =>
              r.Ok? && receivedCodecHeader && Gate(true, codec') == gate && payload == p && conn.Remaining() == rest
            case Refused(gate, starved) =>
              && r.RestartConnection? && !receivedCodecHeader && Gate(false, codec') == gate
              && if starved then conn.state.RestartRequired? else conn.state.BufferFilled?
  {
    hide Connection.Valid, Connection.Remaining, FromLe32, CodecOf;
    ghost var s := conn.Remaining();
    receivedCodecHeader, codec', payload := false, codec, [];
    var ok, codecStringLen := ReadUint32(conn);
    if !ok { return RestartConnection, false, codec', payload; }
    var codecString;
    if TooLong(codecStringLen) {
      ok, codecString := ReadData(conn, 7);
      return RestartConnection, false, codec', payload;
    }
    ok, codecString := ReadData(conn, codecStringLen);
    if !ok { return RestartConnection, false, codec', payload; }
    assert s[4..][..codecStringLen] == s[4..4 + codecStringLen];
    assert s[4..][codecStringLen..] == s[4 + codecStringLen..];
    codec' := CodecOf(codecString);
    if codec'.NONE? { return RestartConnection, false, codec', payload; }
    var codecPayloadLen;
    ok, codecPayloadLen := ReadUint32(conn);
    if !ok { return RestartConnection, false, codec', payload; }
    ghost var t := s[4 + codecStringLen..];
    ok, payload := ReadData(conn, codecPayloadLen);
    if !ok { return RestartConnection, false, codec', payload; }
    assert t[4..][..codecPayloadLen] == t[4..4 + codecPayloadLen];
    assert t[4..][codecPayloadLen..] == t[4 + codecPayloadLen..];
    return Ok, true, codec', payload;
  }

  /** The text is read by the size of the message, not by the length field in front of it. */
  method ParseServerSettingsMessage(conn: Connection, base: Base)
    returns (r: ParserState, typedMsgLen: uint32, text: seq<byte>)
    requires conn.Valid()
    modifies conn
    ensures conn.Valid() && (r.Ok? <==> |old(conn.Remaining())| >= 4 + Minus(base.size, 4))
    ensures r.RestartConnection? ==> conn.state.RestartRequired?
    ensures r.Ok? ==>
      && typedMsgLen == FromLe32(old(conn.Remaining()))
      && text == old(conn.Remaining())[4..4 + Minus(base.size, 4)]
      && conn.Remaining() == old(conn.Remaining())[4 + Minus(base.size, 4)..]
  {
    hide Connection.Valid, Connection.Remaining, FromLe32, Minus;
    ghost var s := conn.Remaining();
    text := [];
    var ok;
    ok, typedMsgLen := ReadUint32(conn);
    if !ok { return RestartConnection, typedMsgLen, text; }
    var tmpSize := Minus(base.size, 4);
    ok, text := ReadData(conn, tmpSize);
    if !ok { return RestartConnection, typedMsgLen, text; }
    assert s[4..][..tmpSize] == s[4..4 + tmpSize] && s[4..][tmpSize..] == s[4 + tmpSize..];
    return Ok, typedMsgLen, text;
  }

  /** Always reads eight bytes; a smaller announced size is refused after them. */
  method ParseTimeMessage(conn: Connection, base: Base) returns (r: ParserState, latency: Tv)
    requires conn.Valid()
    modifies conn
    ensures conn.Valid() && (r.Ok? <==> |old(conn.Remaining())| >= 8 && base.size >= 8)
    ensures r.Ok? ==> latency == DecodeTv(old(conn.Remaining())) && conn.Remaining() == old(conn.Remaining())[8..]
    ensures if |old(conn.Remaining())| < 8 then conn.state.RestartRequired? else conn.state.BufferFilled?
  {
    hide Connection.Valid, Connection.Remaining, DecodeTv;
    var ok;
    ok, latency := ReadTimestamp(conn);
    if !ok { return RestartConnection, latency; }
    if base.size < 8 { return RestartConnection, latency; }
    return Ok, latency;
  }

  method SkipTypedMessage(conn: Connection, base: Base) returns (r: ParserState)
    requires conn.Valid()
    modifies conn
    ensures conn.Valid() && (r.Ok? <==> |old(conn.Remaining())| >= base.size)
    ensures r.Ok? ==> conn.Remaining() == old(conn.Remaining())[base.size..]
    ensures r.RestartConnection? ==> conn.state.RestartRequired?
  {
    hide Connection.Valid, Connection.Remaining;
    ghost var all := conn.Remaining();
    var i := 0;
    while i < base.size
      invariant 0 <= i <= base.size && i <= |all| && conn.Valid() && conn.Remaining() == all[i..]
    {
      var rc, dummy := conn.GetByte();
      if rc != 0 { return RestartConnection; }
      i := i + 1;
    }
    return Ok;
  }
}
