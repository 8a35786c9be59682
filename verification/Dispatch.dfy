/** The dispatch loop over one connection, and reconnecting. */
module Dispatch {
  import opened Wire
  import opened Pcm
  import opened Connections
  import opened Parsers

  const CODEC_HEADER := 1
  const WIRE_CHUNK := 2
  const SERVER_SETTINGS := 3
  const TIME := 4

  /** What is handed on for one message. */
  datatype Delivered =
    | CodecHeaderReceived(codec: Codec, payload: seq<byte>)
    | ChunkDecoded(decoder: Codec, timestamp: Tv, inData: seq<byte>)
    | PcmInserted(pcm: Chunk, pcmTimestamp: Tv)
    | PcmLost(lostTimestamp: Tv)
    | ServerSettingsReceived(length: uint32, text: seq<byte>)
    | TimeReceived(base: Base, latency: Tv)
    | MessageSkipped(typ: uint16)

  type Clock = t: int | 0 <= t < 0x8000_0000 * 1000000

  /** What the environment contributes to the processing of one message. */
  datatype Env = Env(now: Clock, allocation: Allocation)

  function ReceivedAt(m: Base, now: Clock): Base {
    m.(received := Tv(now / 1000000, now % 1000000))
  }

  predicate Gated(g: Gate) {
    g.header ==> Supported(g.codec)
  }

  /** Done: delivered, the bytes left, the codec state and the chunk carried over. Broken: the connection has to
      be restarted, in this state; starved if the stream ended, otherwise a message was refused. */
  datatype Outcome =
    | Done(delivered: Delivered, rest: seq<byte>, gate: Gate, pcm: Option<Chunk>)
    | Broken(gate: Gate, pcm: Option<Chunk>, starved: bool)

  /** A chunk left over survives encoded chunks, unless there is no memory for what Opus decodes. */
  function Kept(pcm: Option<Chunk>, codec: Codec, allocation: Allocation): Option<Chunk> {
    if codec.OPUS? && allocation.NoChunk? then None else pcm
  }

  function ProcessChunk(m: Base, t: seq<byte>, g: Gate, pcm: Option<Chunk>, env: Env): Outcome {
    var n := Minus(m.size, 12);
    if |t| < 12 then Broken(g, pcm, true)
    else
      var filled := Filled(pcm, env.allocation, FromLe32(t[8..]), Available(t[12..], n));
      if |t| < 12 + n then Broken(g, if g.codec.PCM? then filled else pcm, true)
      else if !g.codec.PCM? then
        Done(ChunkDecoded(g.codec, DecodeTv(t), t[12..12 + n]), t[12 + n..], g, Kept(pcm, g.codec, env.allocation))
      else Done(if filled.Some? then PcmInserted(filled.value, DecodeTv(t)) else PcmLost(DecodeTv(t)), t[12 + n..], g, None)
  }

  function ProcessTyped(m: Base, t: seq<byte>, g: Gate, pcm: Option<Chunk>, env: Env): Outcome {
    if m.typ == WIRE_CHUNK && g.header then ProcessChunk(m, t, g, pcm, env)
    else if m.typ == CODEC_HEADER then
      match CodecHeaderOf(t, g.codec)
      case Accepted(gate, payload, rest) => Done(CodecHeaderReceived(gate.codec, payload), rest, gate, pcm)
      case Refused(gate, starved) => Broken(gate, pcm, starved)
    else if m.typ == SERVER_SETTINGS then
      var n := Minus(m.size, 4);
      if |t| < 4 + n then Broken(g, pcm, true)
      else Done(ServerSettingsReceived(FromLe32(t), t[4..4 + n]), t[4 + n..], g, pcm)
    else if m.typ == TIME then
      if |t| < 8 || m.size < 8 then Broken(g, pcm, |t| < 8)
      else Done(TimeReceived(m, DecodeTv(t)), t[8..], g, pcm)
    else if |t| < m.size then Broken(g, pcm, true)
    else Done(MessageSkipped(m.typ), t[m.size..], g, pcm)
  }

  /** One message at the front of the stream. */
  function Process(s: seq<byte>, g: Gate, pcm: Option<Chunk>, env: Env): Outcome {
    if |s| < BASE_MESSAGE_SIZE then Broken(g, pcm, true)
    else ProcessTyped(ReceivedAt(DecodeBase(s), env.now), s[BASE_MESSAGE_SIZE..], g, pcm, env)
  }

  // ----- nothing depends on what comes later -----

  lemma SliceOfSum(s: seq<byte>, t: seq<byte>, k: nat)
    requires k <= |s|
    ensures (s + t)[k..] == s[k..] + t
  {
  }

  lemma TakeOfSum(s: seq<byte>, t: seq<byte>, j: nat, k: nat)
    requires j <= k <= |s|
    ensures (s + t)[j..k] == s[j..k]
  {
  }

  lemma NumbersOfSum(s: seq<byte>, t: seq<byte>)
    ensures |s| >= 4 ==> FromLe32(s + t) == FromLe32(s)
    ensures |s| >= 8 ==> DecodeTv(s + t) == DecodeTv(s)
    ensures |s| >= BASE_MESSAGE_SIZE ==> DecodeBase(s + t) == DecodeBase(s)
  {
    var u := s + t;
    if |s| >= 4 {
      assert u[..4] == s[..4];
    }
    if |s| >= 8 {
      assert u[4..][..4] == s[4..][..4];
    }
    if |s| >= BASE_MESSAGE_SIZE {
      HeaderOfSum(s, t);
    }
  }

  lemma HeaderOfSum(s: seq<byte>, t: seq<byte>)
    requires |s| >= BASE_MESSAGE_SIZE
    ensures DecodeBase(s + t) == DecodeBase(s)
  {
    SliceOfSum(s, t, 2);
    SliceOfSum(s, t, 4);
    SliceOfSum(s, t, 6);
    SliceOfSum(s, t, 14);
    SliceOfSum(s, t, 22);
    TvOfSum(s[6..], t);
    TvOfSum(s[14..], t);
    hide DecodeTv;
  }

  lemma TvOfSum(s: seq<byte>, t: seq<byte>)
    requires |s| >= 8
    ensures DecodeTv(s + t) == DecodeTv(s)
  {
    SliceOfSum(s, t, 4);
  }

  /** What o becomes when t follows. */
  function Followed(o: Outcome, t: seq<byte>): Outcome {
    if o.Done? then o.(rest := o.rest + t) else o
  }

  predicate Starved(o: Outcome) {
    o.Broken? && o.starved
  }

  lemma ChunkIsLocal(m: Base, s: seq<byte>, t: seq<byte>, g: Gate, pcm: Option<Chunk>, env: Env)
    ensures var o := ProcessChunk(m, s, g, pcm, env);
      !Starved(o) ==> ProcessChunk(m, s + t, g, pcm, env) == Followed(o, t)
  {
    hide FromLe32, DecodeTv, Filled, Minus;
    var n := Minus(m.size, 12);
    if |s| >= 12 + n {
      NumbersOfSum(s, t);
      SliceOfSum(s, t, 8);
      NumbersOfSum(s[8..], t);
      SliceOfSum(s, t, 12);
      SliceOfSum(s, t, 12 + n);
      TakeOfSum(s, t, 12, 12 + n);
      assert (s[12..] + t)[..n] == s[12..][..n];
    }
  }

  lemma CodecHeaderIsLocal(s: seq<byte>, t: seq<byte>, c: Codec)
    ensures match CodecHeaderOf(s, c)
            case Accepted(gate, payload, rest) => CodecHeaderOf(s + t, c) == Accepted(gate, payload, rest + t)
            case Refused(gate, starved) => !starved ==> CodecHeaderOf(s + t, c) == Refused(gate, false)
  {
    hide FromLe32, CodecOf, TooLong;
    if |s| < 4 || TooLong(FromLe32(s)) || |s| - 4 < FromLe32(s) {
      NumbersOfSum(s, t);
    } else {
      SizedIsLocal(s, t);
      var n: int := FromLe32(s);
      var (name, u, all) := (s[4..4 + n], s[4 + n..], s + t);
      assert all[4..4 + n] == name && all[4 + n..] == u + t;
      if !CodecOf(name).NONE? {
        SizedIsLocal(u, t);
      }
    }
  }

  lemma SizedIsLocal(s: seq<byte>, t: seq<byte>)
    ensures |s| >= 4 && |s| - 4 >= FromLe32(s) ==>
      var p: int := FromLe32(s);
      FromLe32(s + t) == p && (s + t)[4..4 + p] == s[4..4 + p] && (s + t)[4 + p..] == s[4 + p..] + t
  {
    hide FromLe32;
    NumbersOfSum(s, t);
  }

  lemma TypedIsLocal(m: Base, s: seq<byte>, t: seq<byte>, g: Gate, pcm: Option<Chunk>, env: Env)
    ensures var o := ProcessTyped(m, s, g, pcm, env);
      !Starved(o) ==> ProcessTyped(m, s + t, g, pcm, env) == Followed(o, t)
  {
    hide FromLe32, DecodeTv, ProcessChunk, CodecHeaderOf, Minus;
    ChunkIsLocal(m, s, t, g, pcm, env);
    CodecHeaderIsLocal(s, t, g.codec);
    NumbersOfSum(s, t);
    var n := Minus(m.size, 4);
    if |s| >= 4 + n {
      TakeOfSum(s, t, 4, 4 + n);
      SliceOfSum(s, t, 4 + n);
    }
    if |s| >= 8 {
      SliceOfSum(s, t, 8);
    }
    if |s| >= m.size {
      SliceOfSum(s, t, m.size);
    }
  }

  /** A message that has been processed or refused does not depend on what follows in the stream. */
  lemma ProcessIsLocal(s: seq<byte>, t: seq<byte>, g: Gate, pcm: Option<Chunk>, env: Env)
    ensures var o := Process(s, g, pcm, env);
      !Starved(o) ==> Process(s + t, g, pcm, env) == Followed(o, t)
  {
    hide ProcessTyped, DecodeBase;
    if |s| >= BASE_MESSAGE_SIZE {
      NumbersOfSum(s, t);
      SliceOfSum(s, t, BASE_MESSAGE_SIZE);
      TypedIsLocal(ReceivedAt(DecodeBase(s), env.now), s[BASE_MESSAGE_SIZE..], t, g, pcm, env);
    }
  }

  /** Only the end of the stream starves a message: with enough bytes every message is processed or refused. */
  lemma NotStarvedForLong(s: seq<byte>, g: Gate, pcm: Option<Chunk>, env: Env)
    requires |s| >= BASE_MESSAGE_SIZE + 8 + 2 * 0x1_0000_0000
    ensures !Starved(Process(s, g, pcm, env))
  {
    hide FromLe32, DecodeTv, DecodeBase, Filled, CodecOf, Minus;
  }

  /** A time message is stamped with the time of its processing, split into seconds and microseconds. */
  lemma ReceivedIsNow(s: seq<byte>, g: Gate, pcm: Option<Chunk>, env: Env)
    ensures var o := Process(s, g, pcm, env);
      o.Done? && o.delivered.TimeReceived? ==>
        var received := o.delivered.base.received;
        received.sec * 1000000 + received.usec == env.now && 0 <= received.usec < 1000000
  {
    hide FromLe32, DecodeTv, Filled, Minus, CodecOf;
    if |s| >= BASE_MESSAGE_SIZE {
      Split(DecodeBase(s), env.now);
    }
  }

  lemma Split(m: Base, now: Clock)
    ensures var received := ReceivedAt(m, now).received;
      received.sec * 1000000 + received.usec == now && 0 <= received.usec < 1000000
  {
  }

  lemma AcceptedIsSupported(s: seq<byte>, c: Codec)
    ensures Gated(match CodecHeaderOf(s, c) case Accepted(gate, _, _) => gate case Refused(gate, _) => gate)
  {
    hide FromLe32;
  }

  lemma ProcessConsumes(s: seq<byte>, g: Gate, pcm: Option<Chunk>, env: Env)
    requires Process(s, g, pcm, env).Done?
    ensures |Process(s, g, pcm, env).rest| <= |s| - BASE_MESSAGE_SIZE
  {
    hide DecodeBase, DecodeTv, FromLe32, Filled, Minus, CodecOf;
  }

  /** The flag is set only together with a supported codec, whatever arrives. */
  lemma ProcessKeepsGate(s: seq<byte>, g: Gate, pcm: Option<Chunk>, env: Env)
    requires Gated(g)
    ensures Gated(Process(s, g, pcm, env).gate)
    ensures Process(s, g, pcm, env).Done? && Process(s, g, pcm, env).gate.header && !g.header ==>
              Process(s, g, pcm, env).delivered.CodecHeaderReceived?
  {
    hide DecodeBase, DecodeTv, FromLe32, Filled, Minus;
  }

  /** The deliveries over one connection: messages are processed until one breaks it. */
  ghost function RunLog(s: seq<byte>, g: Gate, pcm: Option<Chunk>, env: nat -> Env, j: nat): seq<Delivered>
    decreases |s|
  {
    var o := Process(s, g, pcm, env(j));
    if o.Broken? then [] else
      ProcessConsumes(s, g, pcm, env(j));
      [o.delivered] + RunLog(o.rest, o.gate, o.pcm, env, j + 1)
  }

  /** How a connection ends: the outcome that breaks it. */
  ghost function RunEnd(s: seq<byte>, g: Gate, pcm: Option<Chunk>, env: nat -> Env, j: nat): (o: Outcome)
    ensures o.Broken?
    decreases |s|
  {
    var o := Process(s, g, pcm, env(j));
    if o.Broken? then o else
      ProcessConsumes(s, g, pcm, env(j));
      RunEnd(o.rest, o.gate, o.pcm, env, j + 1)
  }

  class Client {
    var conn: Connection
    var receivedCodecHeader: bool
    var codec: Codec
    var pcmData: Option<Chunk>
    var log: seq<Delivered>

    ghost predicate Valid()
      reads this, conn
    {
      conn.Valid() && Gated(Gate(receivedCodecHeader, codec))
    }

    constructor (script: seq<Event>)
      requires Plausible(script)
      ensures Valid() && fresh(conn) && conn.Remaining() == EventBytes(script)
      ensures !receivedCodecHeader && codec.NONE? && pcmData.None? && log == []
    {
      conn := new Connection(script);
      receivedCodecHeader, codec, pcmData, log := false, NONE, None, [];
    }

    /** The client agrees with an outcome. */
    ghost predicate After(o: Outcome, rc: int, before: seq<Delivered>)
      requires conn.Valid()
      reads this, conn
    {
      && Gate(receivedCodecHeader, codec) == o.gate && pcmData == o.pcm
      && (o.Done? ==> rc == 0 && log == before + [o.delivered] && conn.Remaining() == o.rest)
      && (o.Broken? ==> rc == -1 && log == before)
      && (o.Broken? ==> if o.starved then conn.state.RestartRequired? else conn.state.BufferFilled?)
    }

    /** Reads and handles one message. */
    method ProcessData(env: Env) returns (rc: int)
      requires Valid()
      modifies this, conn
      ensures Valid() && conn == old(conn)
      ensures After(Process(old(conn.Remaining()), old(Gate(receivedCodecHeader, codec)), old(pcmData), env), rc, old(log))
    {
      hide Connection.Valid, Connection.Remaining, DecodeBase, ProcessTyped;
      ghost var s, g := conn.Remaining(), Gate(receivedCodecHeader, codec);
      var r, m := ParseBaseMessage(conn);
      if r.RestartConnection? { return -1; }
      rc := HandleTyped(ReceivedAt(m, env.now), env);
    }

    method HandleTyped(m: Base, env: Env) returns (rc: int)
      requires Valid()
      modifies this, conn
      ensures Valid() && conn == old(conn)
      ensures After(ProcessTyped(m, old(conn.Remaining()), old(Gate(receivedCodecHeader, codec)), old(pcmData), env),
                    rc, old(log))
    {
      hide Connection.Valid, Connection.Remaining, ProcessChunk, DecodeTv, FromLe32, Minus, CodecHeaderOf;
      var r;
      if m.typ == WIRE_CHUNK && receivedCodecHeader {
        rc := HandleWireChunk(m, env);
        return;
      } else if m.typ == CODEC_HEADER {
        AcceptedIsSupported(conn.Remaining(), codec);
        var payload;
        r, receivedCodecHeader, codec, payload := ParseCodecHeaderMessage(conn, codec);
        if r.RestartConnection? { return -1; }
        log := log + [CodecHeaderReceived(codec, payload)];
        return 0;
      } else if m.typ == SERVER_SETTINGS {
        var length, text;
        r, length, text := ParseServerSettingsMessage(conn, m);
        if r.RestartConnection? { return -1; }
        log := log + [ServerSettingsReceived(length, text)];
        return 0;
      } else if m.typ == TIME {
        var latency;
        r, latency := ParseTimeMessage(conn, m);
        if r.RestartConnection? { return -1; }
        log := log + [TimeReceived(m, latency)];
        return 0;
      } else {
        // chunks before the codec header are skipped like messages of unknown type
        r := SkipTypedMessage(conn, m);
        if r.RestartConnection? { return -1; }
        log := log + [MessageSkipped(m.typ)];
        return 0;
      }
    }

    method HandleWireChunk(m: Base, env: Env) returns (rc: int)
      requires Valid() && receivedCodecHeader
      modifies this, conn
      ensures Valid() && conn == old(conn)
      ensures After(ProcessChunk(m, old(conn.Remaining()), old(Gate(receivedCodecHeader, codec)), old(pcmData), env),
                    rc, old(log))
    {
      hide Connection.Valid, Connection.Remaining, DecodeTv, FromLe32, Filled, Minus;
      var r, timestamp, size, inData, pcm := ParseWireChunkMessage(conn, m, codec, pcmData, env.allocation);
      pcmData := pcm;
      if r.RestartConnection? { return -1; }
      HandleChunkMessage(timestamp, inData, env.allocation);
      return 0;
    }

    /** Hands the chunk to the decoder, or to the player; the default branch is unreachable. */
    method HandleChunkMessage(timestamp: Tv, inData: seq<byte>, allocation: Allocation)
      requires Supported(codec)
      modifies this`log, this`pcmData
      ensures log == old(log) + [if !codec.PCM? then ChunkDecoded(codec, timestamp, inData)
                                 else if old(pcmData).Some? then PcmInserted(old(pcmData).value, timestamp)
                                 else PcmLost(timestamp)]
      ensures pcmData == if codec.PCM? then None else Kept(old(pcmData), codec, allocation)
    {
      match codec {
        case OPUS =>
          log := log + [ChunkDecoded(codec, timestamp, inData)];
          if allocation.NoChunk? {
            pcmData := None;
          }
        case FLAC =>
          log := log + [ChunkDecoded(codec, timestamp, inData)];
        case PCM =>
          if pcmData.Some? {
            log := log + [PcmInserted(pcmData.value, timestamp)];
          } else {
            log := log + [PcmLost(timestamp)];
          }
          pcmData := None;
        case _ =>
          assert false;
      }
    }

    /** The inner loop of http_get_task: process messages until the connection has to be restarted. All network
        buffers have then been deleted exactly if it was the stream that ended; after a refusal one is left behind. */
    method ConnectionLoop(env: nat -> Env)
      requires Valid()
      modifies this, conn
      ensures Valid() && conn == old(conn)
      ensures log == old(log) + RunLog(old(conn.Remaining()), old(Gate(receivedCodecHeader, codec)), old(pcmData), env, 0)
      ensures var end := RunEnd(old(conn.Remaining()), old(Gate(receivedCodecHeader, codec)), old(pcmData), env, 0);
        && Gate(receivedCodecHeader, codec) == end.gate && pcmData == end.pcm
        && |conn.deleted| == if end.starved then conn.received else conn.received - 1
    {
      hide Connection.Valid, Connection.Remaining, Process;
      ghost var all := RunLog(conn.Remaining(), Gate(receivedCodecHeader, codec), pcmData, env, 0);
      ghost var end := RunEnd(conn.Remaining(), Gate(receivedCodecHeader, codec), pcmData, env, 0);
      var i := 0;
      var result := 0;
      while result == 0
        invariant Valid() && conn == old(conn) && i >= 0
        invariant result == 0 ==>
          && old(log) + all == log + RunLog(conn.Remaining(), Gate(receivedCodecHeader, codec), pcmData, env, i)
          && end == RunEnd(conn.Remaining(), Gate(receivedCodecHeader, codec), pcmData, env, i)
        invariant result != 0 ==> log == old(log) + all && After(end, result, log)
        decreases result == 0, |conn.Remaining()|
      {
        ghost var s, g, pcm, before := conn.Remaining(), Gate(receivedCodecHeader, codec), pcmData, log;
        if Process(s, g, pcm, env(i)).Done? {
          ProcessConsumes(s, g, pcm, env(i));
        }
        result := ProcessData(env(i));
        if result == 0 {
          var o := Process(s, g, pcm, env(i));
          assert before + ([o.delivered] + RunLog(o.rest, o.gate, o.pcm, env, i + 1))
              == log + RunLog(o.rest, o.gate, o.pcm, env, i + 1);
        }
        i := i + 1;
      }
      conn.BuffersLeftBehind();
    }

    /** Reconnecting clears the flag; the codec and a half filled chunk survive. */
    method Reconnect(script: seq<Event>)
      requires Valid() && Plausible(script)
      modifies this
      ensures Valid() && fresh(conn) && conn.Remaining() == EventBytes(script)
      ensures !receivedCodecHeader && codec == old(codec) && pcmData == old(pcmData) && log == old(log)
    {
      receivedCodecHeader := false;
      conn := new Connection(script);
    }
  }
}
