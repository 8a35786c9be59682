/** What a server sends, and what the client makes of it, end to end. */
module Protocol {
  import opened Wire
  import opened Pcm
  import opened Connections
  import opened Parsers
  import opened Dispatch

  /** A message as the server means it; the type and the size of the header follow from the rest. */
  datatype Message =
    | CodecHeaderMessage(header: Base, name: seq<byte>, setup: seq<byte>)
    | WireChunkMessage(header: Base, timestamp: Tv, samples: seq<byte>)
    | ServerSettingsMessage(header: Base, text: seq<byte>)
    | TimeMessage(header: Base, latency: Tv)
    | OtherMessage(header: Base, body: seq<byte>)

  predicate Fits(s: seq<byte>) {
    |s| < 0x1_0000_0000
  }

  function Sized(s: seq<byte>): seq<byte>
    requires Fits(s)
  {
    Le32(|s|) + s
  }

  predicate WellFormed(m: Message) {
    match m
    case CodecHeaderMessage(_, name, setup) =>
      |name| <= 7 && Supported(CodecOf(name)) && Fits(setup) && Fits(Sized(name) + Sized(setup))
    case WireChunkMessage(_, timestamp, samples) => Fits(samples) && Fits(EncodeTv(timestamp) + Sized(samples))
    case ServerSettingsMessage(_, text) => Fits(text) && Fits(Sized(text))
    case TimeMessage(_, _) => true
    case OtherMessage(header, body) =>
      Fits(body) && header.typ !in {WIRE_CHUNK, CODEC_HEADER, SERVER_SETTINGS, TIME}
  }

  function Body(m: Message): (s: seq<byte>)
    requires WellFormed(m)
    ensures Fits(s)
  {
    match m
    case CodecHeaderMessage(_, name, setup) => Sized(name) + Sized(setup)
    case WireChunkMessage(_, timestamp, samples) => EncodeTv(timestamp) + Sized(samples)
    case ServerSettingsMessage(_, text) => Sized(text)
    case TimeMessage(_, latency) => EncodeTv(latency)
    case OtherMessage(_, body) => body
  }

  function TypeOf(m: Message): uint16 {
    match m
    case CodecHeaderMessage(_, _, _) => CODEC_HEADER
    case WireChunkMessage(_, _, _) => WIRE_CHUNK
    case ServerSettingsMessage(_, _) => SERVER_SETTINGS
    case TimeMessage(_, _) => TIME
    case OtherMessage(header, _) => header.typ
  }

  function Header(m: Message): Base
    requires WellFormed(m)
  {
    m.header.(typ := TypeOf(m), size := |Body(m)|)
  }

  function Encode(m: Message): (s: seq<byte>)
    requires WellFormed(m)
    ensures |s| == BASE_MESSAGE_SIZE + |Body(m)|
  {
    EncodeBase(Header(m)) + Body(m)
  }

  /** The PCM chunk handed to the player for a payload. */
  function Fresh(samples: seq<byte>, allocation: Allocation): Option<Chunk>
    requires Fits(samples)
  {
    match allocation
    case NoChunk => None
    case NoPayload => Some(Chunk(|samples|, false, []))
    case WithPayload => Some(Chunk(|samples|, true, Words(samples)))
  }

  /** What the client has to hand on for a message. */
  function Expected(m: Message, g: Gate, env: Env): Delivered
    requires WellFormed(m)
  {
    match m
    case CodecHeaderMessage(_, name, setup) => CodecHeaderReceived(CodecOf(name), setup)
    case WireChunkMessage(_, timestamp, samples) =>
      if !g.header then MessageSkipped(WIRE_CHUNK)
      else if !g.codec.PCM? then ChunkDecoded(g.codec, timestamp, samples)
      else if env.allocation.NoChunk? then PcmLost(timestamp)
      else PcmInserted(Fresh(samples, env.allocation).value, timestamp)
    case ServerSettingsMessage(_, text) => ServerSettingsReceived(|text|, text)
    case TimeMessage(_, latency) => TimeReceived(ReceivedAt(Header(m), env.now), latency)
    case OtherMessage(header, _) => MessageSkipped(header.typ)
  }

  /** The numbers of the message types on the wire. */
  lemma TypesOnTheWire(m: Message)
    requires WellFormed(m) && !m.OtherMessage?
    ensures Encode(m)[1] == 0
    ensures Encode(m)[0] == match m
                            case CodecHeaderMessage(_, _, _) => 1
                            case WireChunkMessage(_, _, _) => 2
                            case ServerSettingsMessage(_, _) => 3
                            case _ => 4
  {
    BaseByOffsets(Header(m));
    hide EncodeBase, Body;
  }

  function Next(m: Message, g: Gate): Gate {
    if m.CodecHeaderMessage? then Gate(true, CodecOf(m.name)) else g
  }

  // ----- one message -----

  lemma SizedRoundTrip(s: seq<byte>, rest: seq<byte>)
    requires Fits(s)
    ensures var t := Sized(s) + rest;
      FromLe32(t) == |s| && |t| >= 4 + |s| && t[4..4 + |s|] == s && t[4 + |s|..] == rest && t[4..] == s + rest
  {
    hide FromLe32, Le32;
    assert Sized(s) + rest == Le32(|s|) + (s + rest);
    Le32RoundTrip(|s|, s + rest);
  }

  lemma CodecHeaderRoundTrip(m: Message, rest: seq<byte>, c: Codec)
    requires m.CodecHeaderMessage? && WellFormed(m)
    ensures CodecHeaderOf(Body(m) + rest, c) == Accepted(Gate(true, CodecOf(m.name)), m.setup, rest)
  {
    hide FromLe32, CodecOf, Sized;
    assert Body(m) + rest == Sized(m.name) + (Sized(m.setup) + rest);
    SizedRoundTrip(m.name, Sized(m.setup) + rest);
    SizedRoundTrip(m.setup, rest);
  }

  lemma ChunkBody(m: Message, rest: seq<byte>)
    requires m.WireChunkMessage? && WellFormed(m)
    ensures var t := Body(m) + rest;
      && |t| >= 12 + |m.samples| && DecodeTv(t) == m.timestamp && FromLe32(t[8..]) == |m.samples|
      && t[12..12 + |m.samples|] == m.samples && t[12 + |m.samples|..] == rest && t[12..] == m.samples + rest
    ensures Minus(|Body(m)|, 12) == |m.samples|
  {
    hide FromLe32, DecodeTv, EncodeTv, Sized;
    var u := Sized(m.samples) + rest;
    var t := Body(m) + rest;
    assert t == EncodeTv(m.timestamp) + u;
    TvRoundTrip(m.timestamp, u);
    SizedRoundTrip(m.samples, rest);
    assert t[8..] == u;
    var n := |m.samples|;
    assert t[12..] == u[4..] && t[12..12 + n] == u[4..4 + n] && t[12 + n..] == u[4 + n..];
    assert |Sized(m.samples)| == 4 + |m.samples| by { SizedLength(m.samples); }
  }

  lemma SizedLength(s: seq<byte>)
    requires Fits(s)
    ensures |Sized(s)| == 4 + |s|
  {
  }

  lemma FreshIsFilled(samples: seq<byte>, allocation: Allocation)
    requires Fits(samples)
    ensures Filled(None, allocation, |samples|, samples) == Fresh(samples, allocation)
  {
    assert [] + samples == samples;
  }

  /** A chunk left over from an earlier connection only gets in the way of PCM chunks. */
  predicate Undisturbed(m: Message, g: Gate, pcm: Option<Chunk>) {
    m.WireChunkMessage? && g.header && g.codec.PCM? ==> pcm.None?
  }

  /** It gets lost when an Opus chunk is decoded without memory for the result. */
  function LeftOver(m: Message, g: Gate, pcm: Option<Chunk>, env: Env): Option<Chunk> {
    if m.WireChunkMessage? && g == Gate(true, OPUS) && env.allocation == NoChunk then None else pcm
  }

  lemma ChunkRoundTrip(m: Message, rest: seq<byte>, g: Gate, pcm: Option<Chunk>, env: Env)
    requires m.WireChunkMessage? && WellFormed(m) && g.header && Undisturbed(m, g, pcm)
    ensures ProcessChunk(ReceivedAt(Header(m), env.now), Body(m) + rest, g, pcm, env)
         == Done(Expected(m, g, env), rest, g, LeftOver(m, g, pcm, env))
  {
    hide FromLe32, DecodeTv, Body, Filled, Minus;
    ChunkBody(m, rest);
    var t := Body(m) + rest;
    assert Available(t[12..], |m.samples|) == m.samples;
    FreshIsFilled(m.samples, env.allocation);
  }

  lemma TypedRoundTrip(m: Message, rest: seq<byte>, g: Gate, pcm: Option<Chunk>, env: Env)
    requires WellFormed(m) && Undisturbed(m, g, pcm)
    ensures ProcessTyped(ReceivedAt(Header(m), env.now), Body(m) + rest, g, pcm, env)
         == Done(Expected(m, g, env), rest, Next(m, g), LeftOver(m, g, pcm, env))
  {
    hide FromLe32, DecodeTv, EncodeTv, ProcessChunk, Sized, Fresh, CodecOf, CodecHeaderOf;
    var t := Body(m) + rest;
    match m {
      case CodecHeaderMessage(_, _, _) =>
        CodecHeaderRoundTrip(m, rest, g.codec);
      case WireChunkMessage(_, _, _) =>
        if g.header {
          ChunkRoundTrip(m, rest, g, pcm, env);
        } else {
          assert t[|Body(m)|..] == rest;
        }
      case ServerSettingsMessage(_, text) =>
        SizedLength(text);
        SizedRoundTrip(text, rest);
      case TimeMessage(_, latency) =>
        TvRoundTrip(latency, rest);
        assert t[8..] == rest;
      case OtherMessage(_, body) =>
        assert t[|body|..] == rest;
    }
  }

  /** A message is recovered from its bytes, whatever follows, and exactly 26 + size bytes are used. */
  lemma MessageRoundTrip(m: Message, rest: seq<byte>, g: Gate, pcm: Option<Chunk>, env: Env)
    requires WellFormed(m) && Undisturbed(m, g, pcm)
    ensures Process(Encode(m) + rest, g, pcm, env)
         == Done(Expected(m, g, env), rest, Next(m, g), LeftOver(m, g, pcm, env))
    ensures |Encode(m)| == BASE_MESSAGE_SIZE + Header(m).size
  {
    hide ProcessTyped, DecodeBase, EncodeBase, Body;
    var s := Encode(m) + rest;
    assert s == EncodeBase(Header(m)) + (Body(m) + rest);
    BaseRoundTrip(Header(m), Body(m) + rest);
    assert s[BASE_MESSAGE_SIZE..] == Body(m) + rest;
    TypedRoundTrip(m, rest, g, pcm, env);
  }

  /** What the parser stores for a message stays inside the buffers allocated for it. */
  predicate StaysInside(m: Message)
    requires WellFormed(m)
  {
    match m
    case CodecHeaderMessage(_, name, _) => |name| + 1 <= 8
    case WireChunkMessage(_, _, samples) =>
      EncodedInside(Header(m), |samples|) && InsidePayload(Fresh(samples, WithPayload).value)
    case ServerSettingsMessage(_, text) => SettingsInside(Header(m), |text|)
    case _ => true
  }

  /** A server that announces what it sends never makes the client leave a buffer. */
  lemma WellFormedStaysInside(m: Message)
    requires WellFormed(m)
    ensures StaysInside(m)
  {
    match m {
      case WireChunkMessage(_, _, samples) =>
        ChunkBody(m, []);
        NewChunkStaysInside(|samples|, samples);
        FreshIsFilled(samples, WithPayload);
      case ServerSettingsMessage(_, text) =>
        SizedLength(text);
        SettingsStayInside(Header(m), |text|);
      case _ =>
    }
  }

  // ----- a whole connection -----

  predicate AllWellFormed(ms: seq<Message>) {
    forall m :: m in ms ==> WellFormed(m)
  }

  function EncodeAll(ms: seq<Message>): seq<byte>
    requires AllWellFormed(ms)
  {
    if ms == [] then [] else Encode(ms[0]) + EncodeAll(ms[1..])
  }

  ghost function ExpectedLog(ms: seq<Message>, g: Gate, env: nat -> Env, j: nat): seq<Delivered>
    requires AllWellFormed(ms)
  {
    if ms == [] then []
    else [Expected(ms[0], g, env(j))] + ExpectedLog(ms[1..], Next(ms[0], g), env, j + 1)
  }

  function GateAfter(ms: seq<Message>, g: Gate): Gate {
    if ms == [] then g else GateAfter(ms[1..], Next(ms[0], g))
  }

  /** The whole list of messages is recovered, and the stream is in step with whatever comes behind it. */
  lemma {:induction false} MessagesRoundTrip(ms: seq<Message>, tail: seq<byte>, g: Gate, env: nat -> Env, j: nat)
    requires AllWellFormed(ms)
    ensures RunLog(EncodeAll(ms) + tail, g, None, env, j)
         == ExpectedLog(ms, g, env, j) + RunLog(tail, GateAfter(ms, g), None, env, j + |ms|)
  {
    hide Process, Encode, Expected, Next, WellFormed, RunLog, LeftOver;
    if ms == [] {
      assert EncodeAll(ms) + tail == tail;
    } else {
      var rest, g', head := EncodeAll(ms[1..]) + tail, Next(ms[0], g), Expected(ms[0], g, env(j));
      assert EncodeAll(ms) + tail == Encode(ms[0]) + rest;
      RunLogStep(ms[0], rest, g, env, j);
      MessagesRoundTrip(ms[1..], tail, g', env, j + 1);
      var (later, end) := (ExpectedLog(ms[1..], g', env, j + 1), RunLog(tail, GateAfter(ms, g), None, env, j + |ms|));
      assert [head] + (later + end) == ([head] + later) + end;
    }
  }

  lemma RunLogStep(m: Message, rest: seq<byte>, g: Gate, env: nat -> Env, j: nat)
    requires WellFormed(m)
    ensures RunLog(Encode(m) + rest, g, None, env, j) == [Expected(m, g, env(j))] + RunLog(rest, Next(m, g), None, env, j + 1)
  {
    hide Process, Encode, Expected, WellFormed;
    MessageRoundTrip(m, rest, g, None, env(j));
  }

  /** However the bytes of a list of messages are cut into network buffers and segments, a new connection delivers
      exactly that list. */
  method Receive(ms: seq<Message>, script: seq<Event>, end: seq<Event>, env: nat -> Env) returns (log: seq<Delivered>)
    requires AllWellFormed(ms) && Clean(script) && Payload(script) == EncodeAll(ms)
    requires Plausible(end) && EventBytes(end) == []
    ensures log == ExpectedLog(ms, Gate(false, NONE), env, 0)
  {
    hide Payload, EventBytes, EncodeAll, ExpectedLog, Connection.Valid, Connection.Remaining;
    assert Plausible(script + end);
    var client := new Client(script + end);
    CutsDoNotMatter(script, end);
    MessagesRoundTrip(ms, [], Gate(false, NONE), env, 0);
    client.ConnectionLoop(env);
    log := client.log;
  }

  // ----- no chunk before a codec header -----

  /** Chunks are only ever handed to the decoder named by the latest codec header of the same connection. */
  predicate DecodedInOrder(log: seq<Delivered>, g: Gate) {
    log == [] ||
    match log[0]
    case CodecHeaderReceived(codec, _) => Supported(codec) && DecodedInOrder(log[1..], Gate(true, codec))
    case ChunkDecoded(decoder, _, _) =>
      g.header && decoder == g.codec && (decoder.OPUS? || decoder.FLAC?) && DecodedInOrder(log[1..], g)
    case PcmInserted(_, _) => g.header && g.codec.PCM? && DecodedInOrder(log[1..], g)
    case PcmLost(_) => g.header && g.codec.PCM? && DecodedInOrder(log[1..], g)
    case _ => DecodedInOrder(log[1..], g)
  }

  lemma AcceptedOpensGate(s: seq<byte>, c: Codec)
    ensures CodecHeaderOf(s, c).Accepted? ==> CodecHeaderOf(s, c).gate.header && Supported(CodecHeaderOf(s, c).gate.codec)
  {
    hide FromLe32;
  }

  lemma StepInOrder(s: seq<byte>, g: Gate, pcm: Option<Chunk>, env: Env, log: seq<Delivered>)
    requires Gated(g) && Process(s, g, pcm, env).Done?
    requires DecodedInOrder(log, Process(s, g, pcm, env).gate)
    ensures DecodedInOrder([Process(s, g, pcm, env).delivered] + log, g)
  {
    hide DecodeBase, DecodeTv, FromLe32, Filled, Minus, CodecHeaderOf;
    var o := Process(s, g, pcm, env);
    var all := [o.delivered] + log;
    assert all[0] == o.delivered && all[1..] == log;
    AcceptedOpensGate(s[BASE_MESSAGE_SIZE..], g.codec);
  }

  lemma {:induction false} ConnectionDecodesInOrder(s: seq<byte>, g: Gate, pcm: Option<Chunk>, env: nat -> Env, j: nat)
    requires Gated(g)
    ensures DecodedInOrder(RunLog(s, g, pcm, env, j), g)
    decreases |s|
  {
    hide Process, DecodedInOrder;
    var o := Process(s, g, pcm, env(j));
    if o.Done? {
      ProcessConsumes(s, g, pcm, env(j));
      ProcessKeepsGate(s, g, pcm, env(j));
      ConnectionDecodesInOrder(o.rest, o.gate, o.pcm, env, j + 1);
      StepInOrder(s, g, pcm, env(j), RunLog(o.rest, o.gate, o.pcm, env, j + 1));
    } else {
      assert DecodedInOrder([], g) by { NothingDecoded(g); }
    }
  }

  lemma NothingDecoded(g: Gate)
    ensures DecodedInOrder([], g)
  {
  }

  predicate UsesDecoder(d: Delivered) {
    d.ChunkDecoded? || d.PcmInserted? || d.PcmLost?
  }

  function DecoderUsed(d: Delivered): Codec
    requires UsesDecoder(d)
  {
    if d.ChunkDecoded? then d.decoder else PCM
  }

  predicate HeaderAt(log: seq<Delivered>, k: int, c: Codec) {
    0 <= k < |log| && log[k].CodecHeaderReceived? && log[k].codec == c
  }

  /** In terms of positions: some earlier message of the connection was a header that named the decoder used. */
  lemma {:induction false} HeaderComesFirst(log: seq<Delivered>, g: Gate, i: nat)
    requires DecodedInOrder(log, g) && i < |log| && UsesDecoder(log[i])
    ensures (g.header && g.codec == DecoderUsed(log[i])) || exists k :: k < i && HeaderAt(log, k, DecoderUsed(log[i]))
  {
    if i > 0 {
      var g' := if log[0].CodecHeaderReceived? then Gate(true, log[0].codec) else g;
      HeaderComesFirst(log[1..], g', i - 1);
      if g'.header && g'.codec == DecoderUsed(log[i]) {
        assert log[0].CodecHeaderReceived? ==> HeaderAt(log, 0, DecoderUsed(log[i]));
      } else {
        var k :| k < i - 1 && HeaderAt(log[1..], k, DecoderUsed(log[i]));
        assert HeaderAt(log, k + 1, DecoderUsed(log[i]));
      }
    }
  }

  /** Which codec was used on an earlier connection does not matter. */
  lemma {:induction false} ClosedGate(log: seq<Delivered>, c: Codec, c': Codec)
    requires DecodedInOrder(log, Gate(false, c))
    ensures DecodedInOrder(log, Gate(false, c'))
  {
    if log != [] && !log[0].CodecHeaderReceived? {
      ClosedGate(log[1..], c, c');
    }
  }

  /** The network task over any number of connections, each with its own log. */
  method HttpGetTask(client: Client, scripts: seq<seq<Event>>, env: nat -> Env) returns (logs: seq<seq<Delivered>>)
    requires client.Valid() && forall s :: s in scripts ==> Plausible(s)
    modifies client, client.conn
    ensures client.Valid() && |logs| == |scripts|
    ensures forall k :: 0 <= k < |logs| ==> DecodedInOrder(logs[k], Gate(false, NONE))
  {
    hide Connection.Valid, Connection.Remaining, RunLog, DecodedInOrder, Gated, EventBytes, Plausible;
    logs := [];
    var k := 0;
    while k < |scripts|
      invariant 0 <= k <= |scripts| && client.Valid() && |logs| == k
      invariant fresh(client.conn) || client.conn == old(client.conn)
      invariant forall k :: 0 <= k < |logs| ==> DecodedInOrder(logs[k], Gate(false, NONE))
    {
      client.Reconnect(scripts[k]);
      var before := client.log;
      ghost var s, g, pcm := client.conn.Remaining(), Gate(false, client.codec), client.pcmData;
      ConnectionDecodesInOrder(s, g, pcm, env, 0);
      client.ConnectionLoop(env);
      ClosedGate(RunLog(s, g, pcm, env, 0), g.codec, NONE);
      logs := logs + [client.log[|before|..]];
      k := k + 1;
    }
  }

  // ----- what goes wrong -----

  predicate Silent(samples: seq<byte>) {
    |samples| % 4 == 0 && forall i :: 0 <= i < |samples| ==> Bv(samples[i]) == 0
  }

  /** When a chunk left over happens to be what a new one would have become. */
  predicate LeftoverFits(c: Chunk, samples: seq<byte>, allocation: Allocation) {
    && c.size == |samples|
    && match allocation
       case NoChunk => false
       case NoPayload => !c.hasPayload && c.words == []
       case WithPayload => c.hasPayload && |c.words| <= |samples| / 4 && Silent(samples)
  }

  lemma OverwriteIsFresh(words: seq<bv32>, samples: seq<byte>)
    ensures Overwrite(words, Words([0, 0, 0] + samples)) == Words(samples)
       <==> |words| <= |samples| / 4 && Silent(samples)
  {
    hide Words, Bv;
    var shifted := Words([0, 0, 0] + samples);
    MisalignedUnlessSilent(samples);
    assert |shifted| == (|samples| + 3) / 4 && |Words(samples)| == |samples| / 4;
    if |words| <= |shifted| {
      assert Overwrite(words, shifted) == shifted;
    } else {
      assert |Overwrite(words, shifted)| == |words|;
    }
  }

  /** A PCM chunk left over from a broken connection takes the place of a new one: its size stays, and its frames are
      those of the payload behind three zero bytes, written over what is there. So the chunk delivered is the right
      one exactly if the sizes agree, no more had been stored than arrives now, and all that arrives is silence; or
      if both chunks have no payload. */
  lemma LeftoverChunkIsDelivered(m: Message, rest: seq<byte>, g: Gate, c: Chunk, env: Env)
    requires m.WireChunkMessage? && WellFormed(m) && g == Gate(true, PCM)
    ensures var o := Process(Encode(m) + rest, g, Some(c), env);
      && o.Done? && o.rest == rest && o.gate == g && o.pcm.None? && o.delivered.PcmInserted? && o.delivered.pcm.size == c.size
      && (c.hasPayload ==> o.delivered.pcm.words == Overwrite(c.words, Words([0, 0, 0] + m.samples)))
      && (o.delivered == Expected(m, g, env) <==> LeftoverFits(c, m.samples, env.allocation))
  {
    hide DecodeBase, EncodeBase, Body, FromLe32, DecodeTv, Words, Minus, Silent, Overwrite;
    var s := Encode(m) + rest;
    var t := Body(m) + rest;
    assert s == EncodeBase(Header(m)) + t;
    BaseRoundTrip(Header(m), t);
    assert s[BASE_MESSAGE_SIZE..] == t;
    ChunkBody(m, rest);
    assert Available(t[12..], |m.samples|) == m.samples;
    OverwriteIsFresh(c.words, m.samples);
  }

  /** The bytes of a message up to its payload byte number k. */
  function Truncated(m: Message, k: nat): seq<byte>
    requires m.WireChunkMessage? && WellFormed(m) && k < |m.samples|
  {
    EncodeBase(Header(m)) + EncodeTv(m.timestamp) + Le32(|m.samples|) + m.samples[..k]
  }

  lemma TruncatedIsPrefix(m: Message, k: nat)
    requires m.WireChunkMessage? && WellFormed(m) && k < |m.samples|
    ensures Truncated(m, k) <= Encode(m) && |Truncated(m, k)| < |Encode(m)|
  {
    hide EncodeBase, EncodeTv, Le32;
    assert Encode(m) == Truncated(m, k) + m.samples[k..];
  }

  /** A connection that ends inside the payload of a PCM chunk leaves the chunk behind, with the frames so far. */
  lemma BrokenChunkIsLeftOver(m: Message, k: nat, g: Gate, env: Env)
    requires m.WireChunkMessage? && WellFormed(m) && k < |m.samples| && g == Gate(true, PCM)
    ensures Truncated(m, k) <= Encode(m) && |Truncated(m, k)| < |Encode(m)|
    ensures Process(Truncated(m, k), g, None, env)
         == Broken(g, Filled(None, env.allocation, |m.samples|, m.samples[..k]), true)
  {
    TruncatedIsPrefix(m, k);
    hide DecodeBase, EncodeBase, FromLe32, DecodeTv, Filled, Minus, Body, Encode, Truncated;
    var t := TruncatedBody(m, k);
    BaseRoundTrip(Header(m), t);
    assert Truncated(m, k)[BASE_MESSAGE_SIZE..] == t;
    assert Available(t[12..], |m.samples|) == m.samples[..k];
  }

  lemma TruncatedBody(m: Message, k: nat) returns (t: seq<byte>)
    requires m.WireChunkMessage? && WellFormed(m) && k < |m.samples|
    ensures Truncated(m, k) == EncodeBase(Header(m)) + t
    ensures |t| == 12 + k && FromLe32(t[8..]) == |m.samples| && t[12..] == m.samples[..k]
    ensures Header(m).size as int == |Body(m)| && Minus(|Body(m)|, 12) == |m.samples|
  {
    hide FromLe32, EncodeTv, EncodeBase, Le32, Minus, Body;
    var n := |m.samples|;
    t := EncodeTv(m.timestamp) + Le32(n) + m.samples[..k];
    assert t[8..] == Le32(n) + m.samples[..k] && t[12..] == m.samples[..k];
    Le32RoundTrip(n, m.samples[..k]);
    ChunkBody(m, []);
  }

  predicate PcmHeader(h: Message) {
    h.CodecHeaderMessage? && WellFormed(h) && CodecOf(h.name).PCM?
  }

  /** The input is real: a connection breaks in the middle of a PCM chunk, and the next one, on which everything is
      in order, delivers a wrong chunk unless the leftover happens to fit. */
  method WrongChunkAfterReconnect(h: Message, m: Message, k: nat, h': Message, m': Message,
                                  broken: seq<Event>, next: seq<Event>, env: nat -> Env, env': nat -> Env)
    returns (log: seq<Delivered>)
    requires PcmHeader(h) && m.WireChunkMessage? && WellFormed(m) && k < |m.samples|
    requires PcmHeader(h') && m'.WireChunkMessage? && WellFormed(m')
    requires Plausible(broken) && EventBytes(broken) == Encode(h) + Truncated(m, k)
    requires Plausible(next) && EventBytes(next) == Encode(h') + (Encode(m') + [])
    requires env(1).allocation.WithPayload?
    ensures |log| == 3 && log[0] == CodecHeaderReceived(PCM, h.setup) && log[1] == CodecHeaderReceived(PCM, h'.setup)
    ensures log[2] == Expected(m', Gate(true, PCM), env'(1))
       <==> LeftoverFits(Chunk(|m.samples|, true, Words(m.samples[..k])), m'.samples, env'(1).allocation)
  {
    hide Connection.Valid, Connection.Remaining, RunLog, RunEnd, Encode, Truncated, EventBytes, LeftoverFits, Words,
      WellFormed, Expected;
    var client := new Client(broken);
    ghost var c := Chunk(|m.samples|, true, Words(m.samples[..k]));
    BrokenConnection(h, m, k, env);
    client.ConnectionLoop(env);
    client.Reconnect(next);
    NextConnection(h', m', c, env');
    client.ConnectionLoop(env');
    log := client.log;
  }

  lemma BrokenConnection(h: Message, m: Message, k: nat, env: nat -> Env)
    requires PcmHeader(h) && m.WireChunkMessage? && WellFormed(m) && k < |m.samples| && env(1).allocation.WithPayload?
    ensures var s, g := Encode(h) + Truncated(m, k), Gate(false, NONE);
      && RunLog(s, g, None, env, 0) == [CodecHeaderReceived(PCM, h.setup)]
      && RunEnd(s, g, None, env, 0)
           == Broken(Gate(true, PCM), Some(Chunk(|m.samples|, true, Words(m.samples[..k]))), true)
  {
    hide Process, Encode, Truncated, Words, Expected;
    var tail, g, open := Truncated(m, k), Gate(false, NONE), Gate(true, PCM);
    MessageRoundTrip(h, tail, g, None, env(0));
    HeaderOpens(h, g, env(0));
    BrokenChunkIsLeftOver(m, k, open, env(1));
    FilledFromNothing(m.samples, k);
    assert RunLog(tail, open, None, env, 1) == [];
  }

  lemma NextConnection(h: Message, m: Message, c: Chunk, env: nat -> Env)
    requires PcmHeader(h) && m.WireChunkMessage? && WellFormed(m)
    ensures var log := RunLog(Encode(h) + (Encode(m) + []), Gate(false, PCM), Some(c), env, 0);
      && |log| == 2 && log[0] == CodecHeaderReceived(PCM, h.setup)
      && (log[1] == Expected(m, Gate(true, PCM), env(1)) <==> LeftoverFits(c, m.samples, env(1).allocation))
  {
    hide Process, Encode, LeftoverFits, WellFormed, Expected;
    var g, open := Gate(false, PCM), Gate(true, PCM);
    HeaderOpens(h, g, env(0));
    MessageRoundTrip(h, Encode(m) + [], g, Some(c), env(0));
    LeftoverChunkIsDelivered(m, [], open, c, env(1));
    NothingLeft(open, None, env, 2);
  }

  lemma HeaderOpens(h: Message, g: Gate, env: Env)
    requires PcmHeader(h)
    ensures Next(h, g) == Gate(true, PCM) && Expected(h, g, env) == CodecHeaderReceived(PCM, h.setup)
  {
    hide CodecOf;
  }

  lemma FilledFromNothing(samples: seq<byte>, k: nat)
    requires k < |samples| && Fits(samples)
    ensures Filled(None, WithPayload, |samples|, samples[..k]) == Some(Chunk(|samples|, true, Words(samples[..k])))
  {
    hide Words;
    assert [] + samples[..k] == samples[..k];
  }

  lemma NothingLeft(g: Gate, pcm: Option<Chunk>, env: nat -> Env, j: nat)
    ensures RunLog([], g, pcm, env, j) == []
  {
  }

  /** A time message is read as eight bytes whatever size it announces: the stream stays in step exactly if the
      announced size is eight. */
  lemma TimeMessageKeepsStep(header: Base, body: seq<byte>, rest: seq<byte>, g: Gate, pcm: Option<Chunk>, env: Env)
    requires header.typ == TIME && header.size == |body| && |body| >= 8
    ensures var o := Process(EncodeBase(header) + body + rest, g, pcm, env);
      o.Done? && o.rest == body[8..] + rest && (o.rest == rest <==> header.size == 8)
  {
    hide DecodeBase, EncodeBase, FromLe32, DecodeTv;
    var s := EncodeBase(header) + body + rest;
    assert s == EncodeBase(header) + (body + rest);
    BaseRoundTrip(header, body + rest);
    assert s[BASE_MESSAGE_SIZE..] == body + rest;
    assert (body + rest)[8..] == body[8..] + rest;
  }
}
