/** From the bytes of a time message to the estimate of the server's clock. */
module TimeExchanges {
  import opened Wire
  import opened Connections
  import opened Parsers
  import opened Pcm
  import opened Dispatch
  import opened Protocol
  import opened OffsetEstimates

  /** The message with which the server answers in an exchange. */
  ghost predicate Answers(m: Message, e: Exchange) {
    && m.TimeMessage?
    && m.header.sent.sec * 1000000 + m.header.sent.usec == T3(e)
    && m.latency.sec * 1000000 + m.latency.usec == T2(e) - e.t1
  }

  /** What is delivered for the bytes of an answer reports the exchange, if they are handled when they arrive. */
  lemma BytesReport(m: Message, rest: seq<byte>, g: Gate, pcm: Option<Chunk>, env: Env, e: Exchange)
    requires Answers(m, e) && env.now == T4(e)
    ensures var o := Process(Encode(m) + rest, g, pcm, env);
      && o.Done? && o.rest == rest && o.gate == g && o.pcm == pcm && o.delivered.TimeReceived?
      && Reports(o.delivered.base.received, o.delivered.base.sent, o.delivered.latency, e)
  {
    hide Process, Encode;
    MessageRoundTrip(m, rest, g, pcm, env);
    ReceivedIsNow(Encode(m) + rest, g, pcm, env);
  }

  /** Through the classes: the estimate made from the bytes of an answer is as far from the truth as half the round
      trip, and a microsecond, at most. */
  method EstimateFromBytes(client: Client, sync: TimeSync, env: Env, isFull: bool, ghost m: Message, ghost rest: seq<byte>,
                           ghost e: Exchange)
    returns (estimate: int, maxError: int)
    requires client.Valid() && sync.Valid() && Answers(m, e) && env.now == T4(e)
    requires client.conn.Remaining() == Encode(m) + rest
    modifies client, client.conn, sync
    ensures client.Valid() && sync.Valid() && client.conn == old(client.conn) && client.conn.Remaining() == rest
    ensures -(maxError + 1) <= estimate - e.offset <= maxError + 1
    ensures 0 <= 2 * maxError <= e.delayTo + e.delayBack
  {
    hide Connection.Valid, Connection.Remaining, Process, Encode, Reports, Answers, T4, EstimateOf, ErrorOf;
    BytesReport(m, rest, Gate(client.receivedCodecHeader, client.codec), client.pcmData, env, e);
    EstimateIsBounded(e);
    ghost var before := client.log;
    var rc := client.ProcessData(env);
    var delivered := client.log[|client.log| - 1];
    assert client.log == before + [delivered];
    var cleared, timeAdded;
    cleared, estimate, maxError, timeAdded := sync.TimeSyncMsgReceived(
      delivered.base.received, delivered.base.sent, delivered.latency, client.receivedCodecHeader, isFull);
  }
}
