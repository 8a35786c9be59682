/** The byte source: one byte at a time out of segmented network buffers. */
module Connections {
  import opened Wire

  /** One segment of a netbuf; reading an unreadable one reports an error. */
  datatype Segment = Data(bytes: seq<byte>) | Unreadable

  /** What one receive call yields: a netbuf (reroute: the player is muted and a preferred interface has come
      up), a timeout or other error, or the end of the connection. */
  datatype Event = Received(segments: seq<Segment>, reroute: bool) | Failed | Closed

  datatype ConnectionState = Initialized | DataReceived | BufferFilled | RestartRequired

  function SegmentBytes(segments: seq<Segment>): seq<byte> {
    if segments == [] then []
    else (if segments[0].Data? then segments[0].bytes else []) + SegmentBytes(segments[1..])
  }

  lemma SegmentBytesFrom(segments: seq<Segment>, p: nat)
    requires p < |segments|
    ensures SegmentBytes(segments[p..])
         == (if segments[p].Data? then segments[p].bytes else []) + SegmentBytes(segments[p + 1..])
  {
    assert segments[p..][1..] == segments[p + 1..];
  }

  lemma SegmentBytesAll(segments: seq<Segment>)
    ensures SegmentBytes(segments[0..]) == SegmentBytes(segments)
    ensures SegmentBytes(segments[|segments|..]) == []
  {
    assert segments[0..] == segments;
  }

  predicate LastReadable(segments: seq<Segment>)
    requires segments != []
  {
    segments[|segments| - 1].Data?
  }

  /** The bytes that a run of receive calls makes available before the connection has to be restarted. */
  function EventBytes(events: seq<Event>): seq<byte> {
    if events == [] || events[0].Closed? then []
    else if events[0].Failed? then EventBytes(events[1..])
    else if events[0].reroute || events[0].segments == [] then []
    else SegmentBytes(events[0].segments) + if LastReadable(events[0].segments) then EventBytes(events[1..]) else []
  }

  /** A received netbuf has at least one segment. */
  ghost predicate Plausible(events: seq<Event>) {
    forall e :: e in events && e.Received? ==> e.segments != []
  }

  lemma DropFirst(x: seq<byte>, y: seq<byte>, z: seq<byte>)
    requires x != []
    ensures (x + y + z)[0] == x[0] && (x + y + z)[1..] == x[1..] + y + z
  {
  }

  function Ids(n: nat): (s: seq<nat>)
    ensures |s| == n
  {
    seq(n, i => i)
  }

  lemma IdsStep(n: nat)
    ensures Ids(n) + [n] == Ids(n + 1)
  {
  }

  class Connection {
    var events: seq<Event>       // what the network will deliver; after it the connection is closed
    var state: ConnectionState
    var netbuf: seq<Segment>     // the segments of firstNetBuf
    var ptr: nat                 // its current segment
    var start: nat               // the next byte of that segment
    var len: nat                 // how many are left
    var firstReceive: bool
    var firstNetbufProcessed: bool
    var rc1Ok: bool
    var received: nat            // netbufs received so far, numbered from 0
    var deleted: seq<nat>        // the netbufs deleted, in order

    /** Network buffers are deleted in order, each once; at most the newest one is alive. */
    ghost predicate Valid()
      reads this
    {
      && Plausible(events)
      && (match state
          case Initialized =>
            if firstReceive then deleted == Ids(received)
            else Alive() && rc1Ok == LastReadable(netbuf)
          case DataReceived =>
            Alive() && !firstReceive && (firstNetbufProcessed ==> ptr < |netbuf| && netbuf[ptr].Data? && rc1Ok)
          case BufferFilled =>
            && Alive() && !firstReceive && firstNetbufProcessed && rc1Ok
            && ptr < |netbuf| && netbuf[ptr].Data? && start + len == |netbuf[ptr].bytes|
          case RestartRequired => deleted == Ids(received))
    }

    ghost predicate Alive()
      reads this
    {
      netbuf != [] && received > 0 && deleted == Ids(received - 1)
    }

    ghost function FromNetbuf(): seq<byte>
      requires Valid()
      reads this
    {
      match state
      case DataReceived => SegmentBytes(if firstNetbufProcessed then netbuf[ptr + 1..] else netbuf)
      case BufferFilled => netbuf[ptr].bytes[start..] + SegmentBytes(netbuf[ptr + 1..])
      case _ => []
    }

    /** All bytes that will still be delivered before a restart. */
    ghost function Remaining(): seq<byte>
      requires Valid()
      reads this
    {
      if state.RestartRequired? then []
      else if firstReceive then EventBytes(events)
      else FromNetbuf() + if LastReadable(netbuf) then EventBytes(events) else []
    }

    constructor (script: seq<Event>)
      requires Plausible(script)
      ensures Valid() && Remaining() == EventBytes(script) && received == 0
    {
      events := script;
      state := Initialized;
      netbuf, ptr, start, len := [], 0, 0, 0;
      firstReceive, firstNetbufProcessed, rc1Ok := true, false, true;
      received, deleted := 0, [];
    }

    method DeleteNetbuf()
      requires Alive()
      modifies this`deleted
      ensures deleted == Ids(received)
    {
      IdsStep(received - 1);
      deleted := deleted + [received - 1];
    }

    method ReceiveData() returns (rc: int)
      requires Valid() && state.Initialized?
      modifies this
      ensures state == old(state) && !firstReceive
      ensures Plausible(events)
      ensures |events| <= |old(events)|
      ensures rc == 0 ==> |events| < |old(events)| && Alive()
      ensures rc == 0 ==> old(Remaining()) == SegmentBytes(netbuf) + if LastReadable(netbuf) then EventBytes(events) else []
      ensures rc != 0 ==> deleted == Ids(received) && old(Remaining()) == []
    {
      hide SegmentBytes, Ids, LastReadable;
      if firstReceive {
        firstReceive := false;
      } else {
        DeleteNetbuf();
        if !rc1Ok {
          return -1;
        }
      }
      ghost var bytes := EventBytes(events);
      assert bytes == old(Remaining());
      while true
        invariant !firstReceive && state == old(state) && received == old(received) && deleted == Ids(received)
        invariant Plausible(events)
        invariant |events| <= |old(events)| && EventBytes(events) == bytes
        decreases |events|
      {
        if events == [] {
          return -1;
        }
        var event := events[0];
        assert event in events;
        events := events[1..];
        match event
        case Closed =>
          return -1;
        case Failed =>
        case Received(segments, reroute) =>
          netbuf := segments;
          received := received + 1;
          if reroute {
            DeleteNetbuf();
            return -1;
          }
          return 0;
      }
    }

    /** Moves to the next readable segment of the netbuf. */
    method FillBuffer() returns (rc: int)
      requires Valid() && state.DataReceived?
      modifies this`ptr, this`start, this`len, this`firstNetbufProcessed, this`rc1Ok
      ensures rc == 0 || rc == -1
      ensures rc == 0 ==> firstNetbufProcessed && rc1Ok && ptr < |netbuf| && netbuf[ptr].Data? && start == 0
      ensures rc == 0 ==> len == |netbuf[ptr].bytes|
      ensures rc == 0 ==> old(FromNetbuf()) == netbuf[ptr].bytes + SegmentBytes(netbuf[ptr + 1..])
      ensures rc == 0 ==> (old(firstNetbufProcessed) ==> ptr > old(ptr))
      ensures rc == -1 ==> old(FromNetbuf()) == [] && rc1Ok == LastReadable(netbuf)
    {
      hide EventBytes, Ids, Plausible, SegmentBytes;
      SegmentBytesAll(netbuf);
      while true
        invariant if firstNetbufProcessed then
                    && ptr < |netbuf|
                    && rc1Ok == netbuf[ptr].Data?
                    && SegmentBytes(netbuf[ptr + 1..]) == old(FromNetbuf())
                    && (old(firstNetbufProcessed) ==> ptr >= old(ptr))
                  else !old(firstNetbufProcessed)
        decreases if firstNetbufProcessed then |netbuf| - ptr else |netbuf| + 1
      {
        if !firstNetbufProcessed {
          ptr := 0;
          firstNetbufProcessed := true;
        } else {
          if ptr + 1 == |netbuf| {
            return -1;
          }
          ptr := ptr + 1;
        }
        SegmentBytesFrom(netbuf, ptr);
        match netbuf[ptr]
        case Data(bytes) =>
          rc1Ok := true;
          start, len := 0, |bytes|;
          return 0;
        case Unreadable =>
          rc1Ok := false;
      }
    }

    /** Segments of the current netbuf that have not been looked at. */
    ghost function UnreadSegments(): nat
      reads this
    {
      match state
      case Initialized => 0
      case RestartRequired => 0
      case _ => if !firstNetbufProcessed then |netbuf| else if ptr < |netbuf| then |netbuf| - ptr - 1 else 0
    }

    ghost function Rank(): nat
      reads this
    {
      match state
      case RestartRequired => 0
      case Initialized => 1
      case DataReceived => 2
      case BufferFilled => 3
    }

    /** The step out of state Initialized: fetch a netbuf, or give up. */
    method Fetch()
      requires Valid() && state.Initialized?
      modifies this
      ensures Valid() && Remaining() == old(Remaining())
      ensures (state.DataReceived? && |events| < |old(events)|) || (state.RestartRequired? && |events| <= |old(events)|)
    {
      hide EventBytes, SegmentBytes, Ids, Plausible, LastReadable;
      var rc := ReceiveData();
      if rc != 0 {
        state := RestartRequired;
      } else {
        firstNetbufProcessed := false;
        state := DataReceived;
      }
    }

    /** The step out of state DataReceived: move to the next segment, or ask for the next netbuf. */
    method Fill()
      requires Valid() && state.DataReceived?
      modifies this
      ensures Valid() && Remaining() == old(Remaining()) && events == old(events)
      ensures (state.BufferFilled? && UnreadSegments() < old(UnreadSegments())) || state.Initialized?
    {
      hide EventBytes, SegmentBytes, Ids, Plausible, LastReadable;
      var rc := FillBuffer();
      if rc != 0 {
        state := Initialized;
      } else {
        state := BufferFilled;
        assert netbuf[ptr].bytes[0..] == netbuf[ptr].bytes;
      }
    }

    /** Iterates until a byte can be read or the connection has to be restarted. */
    method EnsureByte() returns (rc: int)
      requires Valid()
      modifies this
      ensures Valid() && Remaining() == old(Remaining())
      ensures rc == if old(Remaining()) != [] then 0 else -1
      ensures rc == 0 ==> state.BufferFilled? && len > 0
      ensures rc != 0 ==> state.RestartRequired?
      ensures old(state).RestartRequired? ==> unchanged(this)
    {
      hide Valid, Remaining;
      while true
        invariant Valid() && Remaining() == old(Remaining())
        invariant old(state).RestartRequired? ==> unchanged(this)
        decreases |events|, UnreadSegments(), Rank()
      {
        match state
        case Initialized =>
          Fetch();
        case DataReceived =>
          Fill();
        case BufferFilled =>
          if len <= 0 {
            Drain();
          } else {
            Ready();
            return 0;
          }
        case RestartRequired =>
          RestartMeansNothing();
          return -1;
      }
    }

    /** The step out of state BufferFilled with nothing left. */
    method Drain()
      requires Valid() && state.BufferFilled? && len == 0
      modifies this`state
      ensures Valid() && Remaining() == old(Remaining())
      ensures state.DataReceived? && UnreadSegments() == old(UnreadSegments())
    {
      hide EventBytes, SegmentBytes, Ids, Plausible, LastReadable;
      state := DataReceived;
    }

    method Ready()
      requires Valid() && state.BufferFilled? && len > 0
      modifies this`rc1Ok
      ensures Valid() && Remaining() == old(Remaining()) && Remaining() != []
    {
      hide EventBytes, SegmentBytes, Ids, Plausible, LastReadable;
      rc1Ok := true;
    }

    lemma RestartMeansNothing()
      requires Valid() && state.RestartRequired?
      ensures Remaining() == [] && deleted == Ids(received)
    {
    }

    /** A connection given up in the restart state leaves no network buffer behind; given up while bytes could still
        be read, it leaves exactly one. */
    lemma BuffersLeftBehind()
      requires Valid() && (state.RestartRequired? || state.BufferFilled?)
      ensures |deleted| == if state.RestartRequired? then received else received - 1
    {
    }

    /** Yields the bytes of all readable segments in order, without loss or duplication. */
    method GetByte() returns (rc: int, b: byte)
      requires Valid()
      modifies this
      ensures Valid()
      ensures old(Remaining()) != [] ==> rc == 0 && b == old(Remaining())[0] && Remaining() == old(Remaining())[1..]
      ensures rc == 0 ==> state.BufferFilled?
      ensures old(Remaining()) == [] ==> rc == -1 && state.RestartRequired? && deleted == Ids(received)
      ensures old(state).RestartRequired? ==> unchanged(this)
    {
      hide Valid, Remaining;
      rc := EnsureByte();
      b := 0;
      if rc != 0 {
        RestartMeansNothing();
        return -1, b;
      }
      b := TakeByte();
      return 0, b;
    }

    method TakeByte() returns (b: byte)
      requires Valid() && state.BufferFilled? && len > 0
      modifies this`start, this`len
      ensures Valid() && old(Remaining()) != []
      ensures b == old(Remaining())[0] && Remaining() == old(Remaining())[1..]
    {
      hide EventBytes, SegmentBytes, Ids, Plausible, LastReadable, Remaining, AfterNetbuf;
      RemainingFilled();
      b := netbuf[ptr].bytes[start];
      DropFirst(netbuf[ptr].bytes[start..], SegmentBytes(netbuf[ptr + 1..]), AfterNetbuf());
      assert netbuf[ptr].bytes[start..][1..] == netbuf[ptr].bytes[start + 1..];
      start := start + 1;
      len := len - 1;
      RemainingFilled();
    }

    ghost function AfterNetbuf(): seq<byte>
      requires netbuf != []
      reads this`netbuf, this`events
    {
      if LastReadable(netbuf) then EventBytes(events) else []
    }

    lemma RemainingFilled()
      requires Valid() && state.BufferFilled?
      ensures Remaining() == netbuf[ptr].bytes[start..] + SegmentBytes(netbuf[ptr + 1..]) + AfterNetbuf()
    {
      hide EventBytes, SegmentBytes, Ids, Plausible, LastReadable;
    }
  }

  // ----- fragmentation -----

  /** A run of receive calls without errors other than timeouts, whose netbufs are all readable. */
  ghost predicate Clean(events: seq<Event>) {
    forall e :: e in events ==>
      e.Failed? || (e.Received? && !e.reroute && e.segments != [] && forall g :: g in e.segments ==> g.Data?)
  }

  function Payload(events: seq<Event>): seq<byte> {
    if events == [] then []
    else (if events[0].Received? then SegmentBytes(events[0].segments) else []) + Payload(events[1..])
  }

  lemma Regroup(x: seq<byte>, y: seq<byte>, z: seq<byte>)
    ensures x + (y + z) == (x + y) + z
  {
  }

  /** However the bytes are cut into netbufs and segments, empty ones included, and whatever timeouts lie in
      between, exactly the concatenation is delivered. */
  lemma {:induction false} CutsDoNotMatter(events: seq<Event>, rest: seq<Event>)
    requires Clean(events)
    ensures EventBytes(events + rest) == Payload(events) + EventBytes(rest)
  {
    hide SegmentBytes;
    if events == [] {
      assert [] + rest == rest;
    } else {
      assert events[0] in events;
      assert (events + rest)[0] == events[0] && (events + rest)[1..] == events[1..] + rest;
      CutsDoNotMatter(events[1..], rest);
      if events[0].Received? {
        var segments := events[0].segments;
        assert segments[|segments| - 1] in segments;
        Regroup(SegmentBytes(segments), Payload(events[1..]), EventBytes(rest));
      }
    }
  }
}
