/** The Improv serial protocol: recognising frames byte by byte, and the strings inside remote procedure calls. */
module Improv {
  import opened Wire

  const IMPROV: seq<byte> := [73, 77, 80, 82, 79, 86]
  const IMPROV_SERIAL_VERSION := 1
  const TYPE_RPC := 3
  const TYPE_RPC_RESPONSE := 4
  const UNKNOWN := 0
  const BAD_CHECKSUM := 255
  const WIFI_SETTINGS := 1
  const GET_CURRENT_STATE := 2
  const GET_DEVICE_INFO := 3
  const GET_WIFI_NETWORKS := 4
  const BUFFER_SIZE := 128
  const NEWLINE := '\n' as int

  datatype Command = Command(code: byte, ssid: seq<byte>, password: seq<byte>)

  /** onCommandCallback handles the command and returns true. */
  predicate Handled(c: Command) {
    c.code in {GET_CURRENT_STATE, WIFI_SETTINGS, GET_DEVICE_INFO, GET_WIFI_NETWORKS}
  }

  function Sum(s: seq<byte>): nat {
    if s == [] then 0 else Sum(s[..|s| - 1]) + s[|s| - 1]
  }

  function Checksum(s: seq<byte>): byte {
    Sum(s) % 256
  }

  lemma SumStep(s: seq<byte>, k: nat)
    requires k < |s|
    ensures Sum(s[..k + 1]) == Sum(s[..k]) + s[k]
  {
    assert s[..k + 1][..k] == s[..k];
  }

  /** The checksum is the sum of all bytes modulo 256, in whatever pieces they are summed. */
  lemma {:induction false} ChecksumAdds(s: seq<byte>, t: seq<byte>)
    ensures Checksum([]) == 0 && forall b: byte :: Checksum([b]) == b
    ensures Sum(s + t) == Sum(s) + Sum(t) && Checksum(s + t) == (Checksum(s) + Checksum(t)) % 256
  {
    hide Checksum;
    SmallChecksums();
    if t == [] {
      assert s + t == s;
    } else {
      ChecksumAdds(s, t[..|t| - 1]);
      assert (s + t)[..|s + t| - 1] == s + t[..|t| - 1];
    }
    ChecksumOfSums(s, t);
  }

  lemma SmallChecksums()
    ensures Checksum([]) == 0 && forall b: byte :: Checksum([b]) == b
  {
    forall b: byte ensures Checksum([b]) == b {
      assert [b][..0] == [];
    }
  }

  lemma ChecksumOfSums(s: seq<byte>, t: seq<byte>)
    ensures Sum(s + t) == Sum(s) + Sum(t) ==> Checksum(s + t) == (Checksum(s) + Checksum(t)) % 256
  {
    hide Sum;
    SumModulo(Sum(s), Sum(t));
  }

  lemma SumModulo(a: nat, b: nat)
    ensures (a + b) % 256 == (a % 256 + b % 256) % 256
  {
  }

  // ----- the data of a call -----

  /** What lies at a place that the code reads; behind the data, memory it does not control. */
  function At(data: seq<byte>, i: nat, beyond: nat -> byte): byte {
    if i < |data| then data[i] else beyond(i)
  }

  function Range(data: seq<byte>, from: nat, count: nat, beyond: nat -> byte): (s: seq<byte>)
    ensures |s| == count
    ensures from + count <= |data| ==> s == data[from..from + count]
    decreases count
  {
    if count == 0 then [] else [At(data, from, beyond)] + Range(data, from + 1, count - 1, beyond)
  }

  /** Command, and for credentials name and password. */
  function Fields(data: seq<byte>, beyond: nat -> byte): Command {
    if At(data, 0, beyond) == WIFI_SETTINGS then
      var ssidLength: int := At(data, 2, beyond);
      var ssidEnd := 3 + ssidLength;
      var passLength: int := At(data, ssidEnd, beyond);
      Command(WIFI_SETTINGS, Range(data, 3, ssidLength, beyond), Range(data, ssidEnd + 1, passLength, beyond))
    else Command(At(data, 0, beyond), [], [])
  }

  /** parseImprovData without a trailing checksum. */
  function ParseImprovData(data: seq<byte>, beyond: nat -> byte): Command {
    if |data| < 2 || At(data, 1, beyond) != |data| - 2 then Command(UNKNOWN, [], []) else Fields(data, beyond)
  }

  /** The loop counter of the checksum after so many steps; it has eight bits. */
  function Counter(steps: nat): byte {
    steps % 256
  }

  /** The checksum loop over n bytes comes to its end. */
  ghost predicate LoopEnds(n: int) {
    exists steps: nat :: Counter(steps) >= n
  }

  /** parseImprovData with a trailing checksum. None: it does not return. */
  ghost function ParseChecked(data: seq<byte>, beyond: nat -> byte): Option<Command> {
    if |data| < 3 || At(data, 1, beyond) != |data| - 3 then Some(Command(UNKNOWN, [], []))
    else if !LoopEnds(|data| - 1) then None
    else if Checksum(data[..|data| - 1]) != data[|data| - 1] then Some(Command(BAD_CHECKSUM, [], []))
    else Some(Fields(data, beyond))
  }

  /** A counter of eight bits never gets to 256. */
  lemma LoopEndsForBytes(n: int)
    ensures LoopEnds(n) <==> n <= 255
  {
    if n <= 255 {
      assert Counter(if n < 0 then 0 else n) >= n;
    }
  }

  /** So the calls on which it does not return are those of 257 and 258 bytes whose length byte is right. */
  lemma NeverReturns(data: seq<byte>, beyond: nat -> byte)
    ensures ParseChecked(data, beyond).None? <==> |data| in {257, 258} && data[1] == |data| - 3
  {
    LoopEndsForBytes(|data| - 1);
  }

  /** parseImprovData with a trailing checksum, where it returns. */
  method ParseImprovDataChecked(data: seq<byte>, beyond: nat -> byte) returns (c: Command)
    requires |data| >= 3 && data[1] == |data| - 3 ==> |data| - 1 <= 255
    ensures ParseChecked(data, beyond) == Some(c)
  {
    hide Checksum, Fields;
    if |data| < 3 || data[1] != |data| - 3 {
      return Command(UNKNOWN, [], []);
    }
    LoopEndsForBytes(|data| - 1);
    var calculated := SumButLast(data);
    if calculated != data[|data| - 1] {
      return Command(BAD_CHECKSUM, [], []);
    }
    return Fields(data, beyond);
  }

  method SumButLast(data: seq<byte>) returns (calculated: byte)
    requires 1 <= |data| <= 256
    ensures calculated == Checksum(data[..|data| - 1])
  {
    var sum: int := 0;  // cannot wrap around in 32 bits
    var i: byte := 0;
    while i < |data| - 1
      invariant 0 <= i <= |data| - 1 && sum == Sum(data[..i])
      decreases |data| - i
    {
      SumStep(data, i);
      sum := sum + data[i];
      i := Counter(i + 1);
    }
    calculated := sum % 256;
  }

  /** The strings, each behind its length; lengths are cut to eight bits. */
  function Strings(datum: seq<seq<byte>>): seq<byte> {
    if datum == [] then [] else Strings(datum[..|datum| - 1]) + [|datum[|datum| - 1]| % 256] + datum[|datum| - 1]
  }

  function Lengths(datum: seq<seq<byte>>): nat {
    if datum == [] then 0 else Lengths(datum[..|datum| - 1]) + |datum[|datum| - 1]| % 256 + 1
  }

  function RpcData(command: byte, datum: seq<seq<byte>>): seq<byte> {
    [command, Lengths(datum) % 256] + Strings(datum)
  }

  /** A 32-bit sum. */
  function Wrapped(x: nat): nat {
    x % 0x1_0000_0000
  }

  lemma NothingWrapped()
    ensures Wrapped(0) == 0
  {
  }

  lemma WrappedStep(x: nat, y: nat)
    ensures Wrapped(Wrapped(x) + y) == Wrapped(x + y)
  {
    var q, r := x / 0x1_0000_0000, x % 0x1_0000_0000;
    var z := r + y;
    var p := z / 0x1_0000_0000;
    assert x + y == 0x1_0000_0000 * (q + p) + z % 0x1_0000_0000;
  }

  lemma WrappedByte(x: nat)
    ensures Wrapped(x) % 256 == x % 256
  {
  }

  method BuildRpcResponse(command: byte, datum: seq<seq<byte>>, addChecksum: bool) returns (out: seq<byte>)
    ensures out == RpcData(command, datum) + if addChecksum then [Checksum(RpcData(command, datum))] else []
  {
    hide Wrapped;
    out := [command];
    var length := 0;
    NothingWrapped();
    var i := 0;
    while i < |datum|
      invariant 0 <= i <= |datum|
      invariant out == [command] + Strings(datum[..i]) && length == Wrapped(Lengths(datum[..i]))
    {
      assert datum[..i + 1][..i] == datum[..i];
      var len := |datum[i]| % 256;
      WrappedStep(Lengths(datum[..i]), len + 1);
      length := Wrapped(length + len + 1);
      out := out + [len];
      out := out + datum[i];
      i := i + 1;
    }
    assert datum[..|datum|] == datum;
    WrappedByte(Lengths(datum));
    out := out[..1] + [length % 256] + out[1..];
    assert out == RpcData(command, datum);
    hide RpcData;
    if addChecksum {
      var calculatedChecksum := SumBytes(out);
      out := out + [calculatedChecksum];
    } else {
      assert out + [] == out;
    }
  }

  /** The eight-bit sum of all bytes. */
  method SumBytes(data: seq<byte>) returns (checksum: byte)
    ensures checksum == Checksum(data)
  {
    checksum := 0;
    var i := 0;
    while i < |data|
      invariant 0 <= i <= |data| && checksum == Checksum(data[..i])
    {
      SumStep(data, i);
      var sum: int := checksum + data[i];
      checksum := sum % 256;
      i := i + 1;
    }
    assert data[..|data|] == data;
  }

  lemma TwoStrings(a: seq<byte>, b: seq<byte>)
    ensures Strings([a, b]) == [|a| % 256] + a + [|b| % 256] + b
    ensures Lengths([a, b]) == |a| % 256 + |b| % 256 + 2
  {
    assert [a, b][..1] == [a] && [a][..0] == [];
    assert Strings([a]) == [|a| % 256] + a && Lengths([a]) == |a| % 256 + 1;
  }

  lemma CredentialsData(ssid: seq<byte>, password: seq<byte>)
    ensures var data, n := RpcData(WIFI_SETTINGS, [ssid, password]), |ssid| + |password| + 2;
      && |data| == n + 2 && data[0] == WIFI_SETTINGS
      && (n <= 255 ==>
            && data[1] == n && data[2] == |ssid| && data[3..3 + |ssid|] == ssid
            && data[3 + |ssid|] == |password| && data[4 + |ssid|..4 + |ssid| + |password|] == password)
  {
    hide Strings, Lengths;
    TwoStrings(ssid, password);
    var (n: nat, m: nat) := (|ssid|, |password|);
    assert RpcData(WIFI_SETTINGS, [ssid, password])
        == [WIFI_SETTINGS, (n % 256 + m % 256 + 2) % 256, n % 256] + ssid + [m % 256] + password;
  }

  /** The parser recovers name and password from the builder's output exactly if their lengths, with the two length
      bytes, fit into one byte; otherwise it sees an unknown command. */
  lemma CredentialsRoundTrip(ssid: seq<byte>, password: seq<byte>, beyond: nat -> byte)
    ensures var c := ParseImprovData(RpcData(WIFI_SETTINGS, [ssid, password]), beyond);
      c == if |ssid| + |password| + 2 <= 255 then Command(WIFI_SETTINGS, ssid, password) else Command(UNKNOWN, [], [])
  {
    hide RpcData, Range;
    CredentialsData(ssid, password);
  }

  /** With a checksum behind it the limit is 253; at 254 and 255 the parser never comes back. */
  lemma CheckedRoundTrip(ssid: seq<byte>, password: seq<byte>, beyond: nat -> byte)
    ensures var data, n := RpcData(WIFI_SETTINGS, [ssid, password]), |ssid| + |password| + 2;
      ParseChecked(data + [Checksum(data)], beyond)
        == if n <= 253 then Some(Command(WIFI_SETTINGS, ssid, password))
           else if n <= 255 then None
           else Some(Command(UNKNOWN, [], []))
  {
    hide RpcData, Range, Checksum, LoopEnds;
    CredentialsData(ssid, password);
    var data, n := RpcData(WIFI_SETTINGS, [ssid, password]), |ssid| + |password| + 2;
    var all := data + [Checksum(data)];
    LoopEndsForBytes(|all| - 1);
    assert all[..|all| - 1] == data;
    if n <= 255 {
      assert all[3..3 + |ssid|] == data[3..3 + |ssid|];
      assert all[4 + |ssid|..4 + |ssid| + |password|] == data[4 + |ssid|..4 + |ssid| + |password|];
    }
  }

  // ----- frames -----

  /** A frame; its length byte is right for up to 255 bytes of data. */
  function Frame(typ: byte, data: seq<byte>): (s: seq<byte>)
    ensures |s| == 10 + |data|
  {
    var s := IMPROV + [IMPROV_SERIAL_VERSION, typ, |data| % 256] + data;
    s + [Checksum(s)]
  }

  /** One byte: what has been matched of a frame so far, the command fired, whether a checksum was wrong. */
  datatype Fed = Fed(got: seq<byte>, fired: Option<Command>, bad: bool)

  function DataLength(got: seq<byte>): int
    requires |got| > 8
  {
    got[8]
  }

  function Feed(got: seq<byte>, b: byte, beyond: nat -> byte): Fed {
    var position := |got|;
    var more, none := Fed(got + [b], None, false), Fed([], None, false);
    if position < 6 then if b == IMPROV[position] then more else none
    else if position == 6 then if b == IMPROV_SERIAL_VERSION then more else none
    else if position <= 8 || position <= 8 + DataLength(got) then more
    else if position > 9 + DataLength(got) then none
    else if Checksum(got) != b then Fed([], None, true)
    else if got[7] != TYPE_RPC then none
    else
      // the position is cleared before the call; a handled command then stores its last byte at the front
      var c := ParseImprovData(got[9..], beyond);
      Fed(if Handled(c) then [b] else [], Some(c), false)
  }

  datatype Result = Result(got: seq<byte>, commands: seq<Command>, errors: nat)

  function FeedAll(got: seq<byte>, data: seq<byte>, beyond: nat -> byte): Result
    decreases |data|
  {
    if data == [] then Result(got, [], 0) else
      var f := Feed(got, data[0], beyond);
      var r := FeedAll(f.got, data[1..], beyond);
      Result(r.got, (if f.fired.Some? then [f.fired.value] else []) + r.commands, (if f.bad then 1 else 0) + r.errors)
  }

  /** The matched bytes never exceed the buffer. */
  predicate Inside(got: seq<byte>, data: seq<byte>, beyond: nat -> byte)
    decreases |data|
  {
    |got| <= BUFFER_SIZE && (data == [] || Inside(Feed(got, data[0], beyond).got, data[1..], beyond))
  }

  class ImprovWiFi {
    const buffer: array<byte>
    var position: nat
    var commands: seq<Command>
    var errors: nat

    ghost predicate Valid() {
      buffer.Length == BUFFER_SIZE
    }

    constructor ()
      ensures Valid() && fresh(buffer) && position == 0 && commands == [] && errors == 0
    {
      buffer := new byte[BUFFER_SIZE];
      position, commands, errors := 0, [], 0;
    }

    method HandleSerial(data: seq<byte>, beyond: nat -> byte)
      requires Valid() && position <= BUFFER_SIZE && Inside(buffer[..position], data, beyond)
      modifies this`position, this`commands, this`errors, buffer
      ensures position <= BUFFER_SIZE
      ensures var r := FeedAll(old(buffer[..position]), data, beyond);
        buffer[..position] == r.got && commands == old(commands) + r.commands && errors == old(errors) + r.errors
    {
      hide Feed;
      ghost var all := FeedAll(buffer[..position], data, beyond);
      var i := 0;
      while i < |data|
        invariant 0 <= i <= |data| && position <= BUFFER_SIZE && Inside(buffer[..position], data[i..], beyond)
        invariant var r := FeedAll(buffer[..position], data[i..], beyond);
          && all.got == r.got
          && old(commands) + all.commands == commands + r.commands
          && old(errors) + all.errors == errors + r.errors
      {
        ghost var f := Feed(buffer[..position], data[i], beyond);
        ghost var r := FeedAll(f.got, data[i + 1..], beyond);
        ghost var before := commands;
        assert data[i..][0] == data[i] && data[i..][1..] == data[i + 1..];
        HandleByte(data[i], beyond);
        assert before + ((if f.fired.Some? then [f.fired.value] else []) + r.commands) == commands + r.commands;
        i := i + 1;
      }
      assert data[|data|..] == [];
    }

    method HandleByte(b: byte, beyond: nat -> byte)
      requires Valid() && position <= BUFFER_SIZE && |Feed(buffer[..position], b, beyond).got| <= BUFFER_SIZE
      modifies this`position, this`commands, this`errors, buffer
      ensures position <= BUFFER_SIZE
      ensures var f := Feed(old(buffer[..position]), b, beyond);
        && buffer[..position] == f.got
        && commands == old(commands) + (if f.fired.Some? then [f.fired.value] else [])
        && errors == old(errors) + if f.bad then 1 else 0
    {
      var accepted := ParseImprovSerial(b, beyond);
      if accepted {
        buffer[position] := b;
        position := position + 1;
      } else {
        position := 0;
      }
    }

    method ParseImprovSerial(b: byte, beyond: nat -> byte) returns (accepted: bool)
      requires Valid() && position <= BUFFER_SIZE
      modifies this`position, this`commands, this`errors
      ensures var f := Feed(old(buffer[..position]), b, beyond);
        && accepted == (f.got != [])
        && (accepted ==> position <= old(position) && f.got == buffer[..position] + [b])
        && commands == old(commands) + (if f.fired.Some? then [f.fired.value] else [])
        && errors == old(errors) + if f.bad then 1 else 0
    {
      hide ParseImprovData, Sum;
      if position < 6 { return b == IMPROV[position]; }
      if position == 6 { return b == IMPROV_SERIAL_VERSION; }
      if position <= 8 { return true; }
      var typ := buffer[7];
      var dataLen: int := buffer[8];
      if position <= 8 + dataLen { return true; }
      if position == 8 + dataLen + 1 {
        var checksum := SumBytes(buffer[..position]);
        if checksum != b {
          position := 0;
          errors := errors + 1;
          return false;
        }
        if typ == TYPE_RPC {
          var command := ParseImprovData(buffer[9..position], beyond);
          assert buffer[..position][9..] == buffer[9..position];
          position := 0;
          commands := commands + [command];
          return Handled(command);
        }
      }
      return false;
    }

    /** The length byte is cut to eight bits; the data is not. */
    static method SendResponse(response: seq<byte>) returns (data: seq<byte>)
      ensures data == Frame(4, response)
    {
      data := IMPROV + [IMPROV_SERIAL_VERSION, TYPE_RPC_RESPONSE, |response| % 256] + response;
      var checksum := SumBytes(data);
      data := data + [checksum];
    }
  }

  // ----- streams of frames -----

  /** Feeding in pieces is feeding the whole. */
  lemma {:induction false} AnySplit(got: seq<byte>, a: seq<byte>, b: seq<byte>, beyond: nat -> byte)
    ensures var r := FeedAll(got, a, beyond);
      var q := FeedAll(r.got, b, beyond);
      FeedAll(got, a + b, beyond) == Result(q.got, r.commands + q.commands, r.errors + q.errors)
    decreases |a|
  {
    hide Feed;
    if a == [] {
      assert a + b == b;
    } else {
      assert (a + b)[0] == a[0] && (a + b)[1..] == a[1..] + b;
      AnySplit(Feed(got, a[0], beyond).got, a[1..], b, beyond);
    }
  }

  /** Up to its checksum, a frame is matched byte by byte. */
  lemma {:induction false} MatchesFrame(typ: byte, data: seq<byte>, k: nat, rest: seq<byte>, beyond: nat -> byte)
    requires |data| < 256 && k <= 9 + |data|
    ensures FeedAll([], Frame(typ, data)[..k] + rest, beyond) == FeedAll(Frame(typ, data)[..k], rest, beyond)
  {
    hide ParseImprovData, Sum;
    var s := Frame(typ, data);
    if k == 0 {
      assert s[..0] + rest == rest;
    } else {
      var b := s[k - 1];
      assert s[..k] + rest == s[..k - 1] + ([b] + rest);
      MatchesFrame(typ, data, k - 1, [b] + rest, beyond);
      MatchesByte(typ, data, k - 1, beyond);
      assert ([b] + rest)[0] == b && ([b] + rest)[1..] == rest;
      assert s[..k - 1] + [b] == s[..k];
    }
  }

  lemma MatchesByte(typ: byte, data: seq<byte>, k: nat, beyond: nat -> byte)
    requires |data| < 256 && k < 9 + |data|
    ensures var s := Frame(typ, data); Feed(s[..k], s[k], beyond) == Fed(s[..k] + [s[k]], None, false)
  {
    hide ParseImprovData, Sum;
  }

  /** The checksum completes the frame: a call fires its command, other frames fire nothing. */
  lemma FrameCompletes(typ: byte, data: seq<byte>, rest: seq<byte>, beyond: nat -> byte)
    requires |data| < 256
    ensures var c := ParseImprovData(data, beyond);
      var s := Frame(typ, data);
      var q := FeedAll(if typ == TYPE_RPC && Handled(c) then [s[|s| - 1]] else [], rest, beyond);
      FeedAll([], s + rest, beyond)
        == Result(q.got, (if typ == TYPE_RPC then [c] else []) + q.commands, q.errors)
  {
    hide ParseImprovData, Sum;
    var s := Frame(typ, data);
    var n := 9 + |data|;
    var b := s[n];
    assert s + rest == s[..n] + ([b] + rest);
    MatchesFrame(typ, data, n, [b] + rest, beyond);
    assert s[..n][9..] == data;
    assert ([b] + rest)[0] == b && ([b] + rest)[1..] == rest;
  }

  /** A frame whose last byte is not its checksum fires nothing and is reported, once. */
  lemma WrongChecksumIsReported(typ: byte, data: seq<byte>, b: byte, rest: seq<byte>, beyond: nat -> byte)
    requires |data| < 256 && b != Frame(typ, data)[9 + |data|]
    ensures var q := FeedAll([], rest, beyond);
      FeedAll([], Frame(typ, data)[..9 + |data|] + ([b] + rest), beyond) == Result(q.got, q.commands, 1 + q.errors)
  {
    hide ParseImprovData, Sum;
    var s := Frame(typ, data);
    var n := 9 + |data|;
    MatchesFrame(typ, data, n, [b] + rest, beyond);
    assert ([b] + rest)[0] == b && ([b] + rest)[1..] == rest;
  }

  /** In numbers: the request for the current state, and what it fires as a call and as a response. */
  lemma ExampleFrame(beyond: nat -> byte)
    ensures Frame(3, [2, 0])
         == ['I' as int, 'M' as int, 'P' as int, 'R' as int, 'O' as int, 'V' as int, 1, 3, 2, 2, 0, 229]
    ensures FeedAll([], Frame(3, [2, 0]), beyond).commands == [Command(2, [], [])]
    ensures FeedAll([], Frame(4, [2, 0]), beyond).commands == []
  {
    hide Feed, FeedAll, ParseImprovData, Checksum;
    SumOfExample();
    assert IMPROV + [1, 3, 2] + [2, 0] == [73, 77, 80, 82, 79, 86, 1, 3, 2, 2, 0];
    ExampleFires(beyond);
  }

  lemma ExampleFires(beyond: nat -> byte)
    ensures FeedAll([], Frame(3, [2, 0]), beyond).commands == [Command(2, [], [])]
    ensures FeedAll([], Frame(4, [2, 0]), beyond).commands == []
  {
    hide Frame, FeedAll, ParseImprovData;
    var (a, b) := (Frame(3, [2, 0]), Frame(4, [2, 0]));
    assert a + [] == a && b + [] == b;
    ExampleCalls(beyond);
    FrameCompletes(3, [2, 0], [], beyond);
    FrameCompletes(4, [2, 0], [], beyond);
    NothingFed([a[|a| - 1]], beyond);
    NothingFed([], beyond);
  }

  /** The commands in numbers: those without credentials, an unknown one because of its length, and the ones handled. */
  lemma ExampleCalls(beyond: nat -> byte)
    ensures forall code: byte :: code != 1 ==> ParseImprovData([code, 0], beyond) == Command(code, [], [])
    ensures forall code: byte :: ParseImprovData([code, 5], beyond) == Command(0, [], [])
    ensures forall c: Command :: Handled(c) <==> 1 <= c.code <= 4
  {
  }

  lemma SumOfExample()
    ensures Checksum([73, 77, 80, 82, 79, 86, 1, 3, 2, 2, 0]) == 229
  {
    var s: seq<byte> := [73, 77, 80, 82, 79, 86, 1, 3, 2, 2, 0];
    assert Sum(s[..0]) == 0;
    hide Sum;
    SumStep(s, 0);
    SumStep(s, 1);
    SumStep(s, 2);
    SumStep(s, 3);
    SumStep(s, 4);
    SumStep(s, 5);
    SumStep(s, 6);
    SumStep(s, 7);
    SumStep(s, 8);
    SumStep(s, 9);
    SumStep(s, 10);
    assert s[..11] == s;
  }

  function Stream(calls: seq<seq<byte>>): seq<byte>
    requires forall i :: 0 <= i < |calls| ==> |calls[i]| < 256
  {
    if calls == [] then [] else Frame(TYPE_RPC, calls[0]) + [NEWLINE] + Stream(calls[1..])
  }

  function Commands(calls: seq<seq<byte>>, beyond: nat -> byte): seq<Command> {
    if calls == [] then [] else [ParseImprovData(calls[0], beyond)] + Commands(calls[1..], beyond)
  }

  lemma NewlineClears(got: seq<byte>, rest: seq<byte>, beyond: nat -> byte)
    requires |got| <= 1
    ensures FeedAll(got, [NEWLINE] + rest, beyond) == FeedAll([], rest, beyond)
  {
    Rejected(got, NEWLINE, rest, beyond);
  }

  /** Calls, each followed by a newline, fire exactly one command each, in order. */
  lemma {:induction false} OneCommandPerFrame(calls: seq<seq<byte>>, beyond: nat -> byte)
    requires forall i :: 0 <= i < |calls| ==> |calls[i]| < 256
    ensures FeedAll([], Stream(calls), beyond) == Result([], Commands(calls, beyond), 0)
  {
    hide Frame, Feed, ParseImprovData;
    if calls != [] {
      var data, later := calls[0], Stream(calls[1..]);
      assert Stream(calls) == Frame(TYPE_RPC, data) + ([NEWLINE] + later);
      FrameCompletes(TYPE_RPC, data, [NEWLINE] + later, beyond);
      var c := ParseImprovData(data, beyond);
      var s := Frame(TYPE_RPC, data);
      NewlineClears(if Handled(c) then [s[|s| - 1]] else [], later, beyond);
      OneCommandPerFrame(calls[1..], beyond);
    }
  }

  /** Bytes that cannot start a frame are passed over. */
  lemma {:induction false} NothingStarts(junk: seq<byte>, tail: seq<byte>, beyond: nat -> byte)
    requires IMPROV[0] !in junk
    ensures FeedAll([], junk + tail, beyond) == FeedAll([], tail, beyond)
    decreases |junk|
  {
    if junk == [] {
      assert junk + tail == tail;
    } else {
      assert junk + tail == [junk[0]] + (junk[1..] + tail);
      Rejected([], junk[0], junk[1..] + tail, beyond);
      NothingStarts(junk[1..], tail, beyond);
    }
  }

  lemma Rejected(got: seq<byte>, b: byte, rest: seq<byte>, beyond: nat -> byte)
    requires |got| <= 1 && b != IMPROV[|got|]
    ensures FeedAll(got, [b] + rest, beyond) == FeedAll([], rest, beyond)
  {
    assert ([b] + rest)[0] == b && ([b] + rest)[1..] == rest;
  }

  /** Without a separator the frame after a handled command is not seen: matching resumes behind its first eight
      bytes, and unless an I is among the rest nothing is fired. */
  lemma SecondFrameIsSkipped(first: seq<byte>, second: seq<byte>, rest: seq<byte>, beyond: nat -> byte)
    requires |first| < 256 && |second| < 256 && Handled(ParseImprovData(first, beyond))
    ensures var tail := Frame(TYPE_RPC, second)[8..];
      var q := FeedAll([], tail + rest, beyond);
      && FeedAll([], Frame(TYPE_RPC, first) + Frame(TYPE_RPC, second) + rest, beyond)
           == Result(q.got, [ParseImprovData(first, beyond)] + q.commands, q.errors)
      && (IMPROV[0] !in tail ==> q == FeedAll([], rest, beyond))
  {
    hide ParseImprovData, Sum, Feed, FeedAll;
    var a, b := Frame(TYPE_RPC, first), Frame(TYPE_RPC, second);
    assert a + b + rest == a + (b + rest);
    FrameCompletes(TYPE_RPC, first, b + rest, beyond);
    var tail := b[8..];
    var junk: seq<byte> := [77, 80, 82, 79, 86, IMPROV_SERIAL_VERSION, TYPE_RPC];
    assert b + rest == [IMPROV[0]] + (junk + (tail + rest));
    Rejected([a[|a| - 1]], IMPROV[0], junk + (tail + rest), beyond);
    NothingStarts(junk, tail + rest, beyond);
    if IMPROV[0] !in tail {
      NothingStarts(tail, rest, beyond);
    }
  }

  // ----- the receiver on such streams -----

  /** Frames with at most 119 bytes of data stay inside the buffer. */
  lemma AfterChecksum(data: seq<byte>, beyond: nat -> byte)
    requires |data| < 256
    ensures var s := Frame(TYPE_RPC, data);
      Feed(s[..9 + |data|], s[9 + |data|], beyond).got
        == if Handled(ParseImprovData(data, beyond)) then [s[9 + |data|]] else []
  {
    hide ParseImprovData, Sum;
    assert Frame(TYPE_RPC, data)[..9 + |data|][9..] == data;
  }

  lemma {:induction false} FrameStaysInside(data: seq<byte>, k: nat, rest: seq<byte>, beyond: nat -> byte)
    requires 9 + |data| <= BUFFER_SIZE && k <= 9 + |data|
    requires var s := Frame(TYPE_RPC, data);
      Inside(if Handled(ParseImprovData(data, beyond)) then [s[|s| - 1]] else [], rest, beyond)
    ensures var s := Frame(TYPE_RPC, data); Inside(s[..k], s[k..] + rest, beyond)
    decreases 9 + |data| - k
  {
    hide ParseImprovData, Frame, Feed, Inside;
    var s := Frame(TYPE_RPC, data);
    var t := s[k + 1..] + rest;
    assert s[k..] + rest == [s[k]] + t;
    if k < 9 + |data| {
      FrameStaysInside(data, k + 1, rest, beyond);
      MatchesByte(TYPE_RPC, data, k, beyond);
      assert s[..k] + [s[k]] == s[..k + 1];
    } else {
      AfterChecksum(data, beyond);
      assert t == rest;
    }
    InsideStep(s[..k], s[k], t, beyond);
  }

  lemma InsideStep(got: seq<byte>, b: byte, rest: seq<byte>, beyond: nat -> byte)
    requires |got| <= BUFFER_SIZE && Inside(Feed(got, b, beyond).got, rest, beyond)
    ensures Inside(got, [b] + rest, beyond)
  {
    hide Feed;
    assert ([b] + rest)[0] == b && ([b] + rest)[1..] == rest;
  }

  lemma {:induction false} InsideSplits(got: seq<byte>, a: seq<byte>, b: seq<byte>, beyond: nat -> byte)
    requires Inside(got, a + b, beyond)
    ensures Inside(got, a, beyond) && Inside(FeedAll(got, a, beyond).got, b, beyond)
    decreases |a|
  {
    hide Feed;
    if a == [] {
      assert a + b == b;
    } else {
      assert (a + b)[0] == a[0] && (a + b)[1..] == a[1..] + b;
      InsideSplits(Feed(got, a[0], beyond).got, a[1..], b, beyond);
    }
  }

  /** A longer frame runs over the end of the buffer, whatever follows. */
  lemma FrameLeavesBuffer(data: seq<byte>, rest: seq<byte>, beyond: nat -> byte)
    requires |data| < 256 && 9 + |data| > BUFFER_SIZE
    ensures !Inside([], Frame(TYPE_RPC, data) + rest, beyond)
  {
    hide Frame, Feed;
    var s, n := Frame(TYPE_RPC, data), BUFFER_SIZE + 1;
    assert s + rest == s[..n] + (s[n..] + rest);
    MatchesFrame(TYPE_RPC, data, n, [], beyond);
    NothingFed(s[..n], beyond);
    assert s[..n] + [] == s[..n];
    if Inside([], s + rest, beyond) {
      InsideSplits([], s[..n], s[n..] + rest, beyond);
    }
  }

  /** After a call and its newline the receiver is clear again. */
  lemma ClearAfterCall(data: seq<byte>, beyond: nat -> byte)
    requires |data| < 256
    ensures FeedAll([], Frame(TYPE_RPC, data) + [NEWLINE], beyond).got == []
  {
    hide Frame, Feed, ParseImprovData;
    var s, c := Frame(TYPE_RPC, data), ParseImprovData(data, beyond);
    var got := if Handled(c) then [s[|s| - 1]] else [];
    FrameCompletes(TYPE_RPC, data, [NEWLINE], beyond);
    assert [NEWLINE] + [] == [NEWLINE];
    NewlineClears(got, [], beyond);
    NothingFed([], beyond);
  }

  /** Calls, each followed by a newline, stay inside the buffer exactly if none has more than 119 bytes of data. */
  lemma {:induction false} StreamStaysInside(calls: seq<seq<byte>>, beyond: nat -> byte)
    requires forall i :: 0 <= i < |calls| ==> |calls[i]| < 256
    ensures Inside([], Stream(calls), beyond) <==> forall i :: 0 <= i < |calls| ==> |calls[i]| <= 119
  {
    hide Frame, ParseImprovData, Inside, FeedAll;
    if calls == [] {
      NothingInside(beyond);
    } else {
      var data, later := calls[0], Stream(calls[1..]);
      var s := Frame(TYPE_RPC, data);
      StreamStaysInside(calls[1..], beyond);
      assert Stream(calls) == s + ([NEWLINE] + later) == (s + [NEWLINE]) + later;
      if 9 + |data| > BUFFER_SIZE {
        FrameLeavesBuffer(data, [NEWLINE] + later, beyond);
      } else {
        if Inside([], later, beyond) {
          var c := ParseImprovData(data, beyond);
          InsideAfterNewline(if Handled(c) then [s[|s| - 1]] else [], later, beyond);
          FrameStaysInside(data, 0, [NEWLINE] + later, beyond);
          assert s[..0] == [] && s[0..] == s;
        }
        if Inside([], Stream(calls), beyond) {
          InsideSplits([], s + [NEWLINE], later, beyond);
          ClearAfterCall(data, beyond);
        }
      }
      assert forall i :: 0 <= i < |calls[1..]| ==> calls[1..][i] == calls[i + 1];
    }
  }

  lemma NothingInside(beyond: nat -> byte)
    ensures Inside([], [], beyond)
  {
  }

  lemma InsideAfterNewline(got: seq<byte>, rest: seq<byte>, beyond: nat -> byte)
    requires |got| <= 1 && Inside([], rest, beyond)
    ensures Inside(got, [NEWLINE] + rest, beyond)
  {
    hide Inside;
    InsideStep(got, NEWLINE, rest, beyond);
  }

  function Joined(pieces: seq<seq<byte>>): seq<byte> {
    if pieces == [] then [] else pieces[0] + Joined(pieces[1..])
  }

  /** However the serial bytes arrive in pieces, every call fires its command once, in order. */
  method Receive(calls: seq<seq<byte>>, pieces: seq<seq<byte>>, beyond: nat -> byte) returns (commands: seq<Command>)
    requires forall i :: 0 <= i < |calls| ==> |calls[i]| <= 119
    requires Joined(pieces) == Stream(calls)
    ensures commands == Commands(calls, beyond)
  {
    hide Feed, FeedAll, Inside, Stream, Commands;
    var improv := new ImprovWiFi();
    assert improv.buffer[..0] == [];
    OneCommandPerFrame(calls, beyond);
    StreamStaysInside(calls, beyond);
    var i := 0;
    assert pieces[0..] == pieces;
    while i < |pieces|
      invariant 0 <= i <= |pieces| && fresh(improv) && fresh(improv.buffer)
      invariant improv.Valid() && improv.position <= BUFFER_SIZE
      invariant Inside(improv.buffer[..improv.position], Joined(pieces[i..]), beyond)
      invariant var r := FeedAll(improv.buffer[..improv.position], Joined(pieces[i..]), beyond);
        improv.commands + r.commands == Commands(calls, beyond)
    {
      ghost var got, later := improv.buffer[..improv.position], Joined(pieces[i + 1..]);
      assert pieces[i..][0] == pieces[i] && pieces[i..][1..] == pieces[i + 1..];
      InsideSplits(got, pieces[i], later, beyond);
      AnySplit(got, pieces[i], later, beyond);
      improv.HandleSerial(pieces[i], beyond);
      i := i + 1;
    }
    NothingFed(improv.buffer[..improv.position], beyond);
    commands := improv.commands;
  }

  lemma NothingFed(got: seq<byte>, beyond: nat -> byte)
    ensures FeedAll(got, [], beyond) == Result(got, [], 0)
  {
  }
}
