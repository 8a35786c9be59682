/** Sending and reading WebSocket frames over network buffers of one segment. */
module WebSocket {
  import opened Wire

  type Key = k: seq<byte> | |k| == 4 witness [0, 0, 0, 0]

  /** The exclusive or of the lowest n bits. */
  function XorBits(a: nat, b: nat, n: nat): (r: nat)
    ensures r < Power2(n)
  {
    if n == 0 then 0 else 2 * XorBits(a / 2, b / 2, n - 1) + (a + b) % 2
  }

  function Power2(n: nat): nat {
    if n == 0 then 1 else 2 * Power2(n - 1)
  }

  lemma {:induction false} XorBitsTwice(a: nat, b: nat, n: nat)
    requires a < Power2(n)
    ensures XorBits(XorBits(a, b, n), b, n) == a
  {
    if n > 0 {
      XorBitsTwice(a / 2, b / 2, n - 1);
      var r := XorBits(a, b, n);
      LowestBit(XorBits(a / 2, b / 2, n - 1), a, b);
      assert r / 2 == XorBits(a / 2, b / 2, n - 1);
    }
  }

  lemma LowestBit(q: nat, a: nat, b: nat)
    ensures var r := 2 * q + (a + b) % 2; r / 2 == q && (r + b) % 2 == a % 2 && (r % 2 == 1 <==> a % 2 != b % 2)
  {
  }

  function Xor(a: byte, b: byte): byte {
    assert Power2(8) == 256;
    XorBits(a, b, 8)
  }

  lemma XorTwice(a: byte, b: byte)
    ensures Xor(Xor(a, b), b) == a
  {
    assert Power2(8) == 256;
    XorBitsTwice(a, b, 8);
  }

  function Masked(key: Option<Key>, s: seq<byte>): (r: seq<byte>)
    ensures |r| == |s|
  {
    match key
    case None => s
    case Some(k) => seq(|s|, i requires 0 <= i < |s| => Xor(s[i], k[i % 4]))
  }

  predicate Bit(x: nat, i: nat) {
    if i == 0 then x % 2 == 1 else Bit(x / 2, i - 1)
  }

  lemma {:induction false} XorBitsAt(a: nat, b: nat, n: nat, i: nat)
    requires i < n
    ensures Bit(XorBits(a, b, n), i) <==> Bit(a, i) != Bit(b, i)
  {
    hide XorBits;
    XorBitsStep(a, b, n);
    if i > 0 {
      XorBitsAt(a / 2, b / 2, n - 1, i - 1);
    }
  }

  lemma XorBitsStep(a: nat, b: nat, n: nat)
    requires n > 0
    ensures XorBits(a, b, n) / 2 == XorBits(a / 2, b / 2, n - 1)
    ensures XorBits(a, b, n) % 2 == 1 <==> a % 2 != b % 2
  {
    var q := XorBits(a / 2, b / 2, n - 1);
    LowestBit(q, a, b);
    assert XorBits(a, b, n) == 2 * q + (a + b) % 2;
  }

  /** Section 5.3 of RFC 6455: octet i of the masked data is the exclusive or, bit by bit, of octet i of the data with
      octet i mod 4 of the key. */
  lemma MaskedIsBitwise(key: Key, s: seq<byte>, i: nat, bit: nat)
    requires i < |s| && bit < 8
    ensures Bit(Masked(Some(key), s)[i], bit) <==> Bit(s[i], bit) != Bit(key[i % 4], bit)
    ensures Masked(None, s) == s
  {
    assert Power2(8) == 256;
    XorBitsAt(s[i], key[i % 4], 8, bit);
  }

  /** Masking twice with the same key gives the payload back. */
  lemma MaskingIsAnInvolution(key: Option<Key>, s: seq<byte>)
    ensures Masked(key, Masked(key, s)) == s
  {
    hide Xor;
    if key.Some? {
      forall i | 0 <= i < |s| ensures Masked(key, Masked(key, s))[i] == s[i] {
        XorTwice(s[i], key.value[i % 4]);
      }
    }
  }

  // ----- the header -----

  /** x in k bytes, most significant first. */
  function BigEndian(x: nat, k: nat): (s: seq<byte>)
    ensures |s| == k
  {
    if k == 0 then [] else BigEndian(x / 256, k - 1) + [x % 256]
  }

  function FromBigEndian(s: seq<byte>): nat {
    if s == [] then 0 else 256 * FromBigEndian(s[..|s| - 1]) + s[|s| - 1]
  }

  function Capacity(k: nat): nat {
    if k == 0 then 1 else 256 * Capacity(k - 1)
  }

  lemma {:induction false} BigEndianRoundTrip(x: nat, k: nat)
    requires x < Capacity(k)
    ensures FromBigEndian(BigEndian(x, k)) == x
  {
    if k > 0 {
      BigEndianRoundTrip(x / 256, k - 1);
      var s := BigEndian(x, k);
      assert s[..|s| - 1] == BigEndian(x / 256, k - 1);
    }
  }

  const MAX_LENGTH := 0x1_0000_0000_0000_0000

  /** How many bytes the extended length takes for a LEN field. */
  function Extended(lenField: nat): nat {
    if lenField <= 125 then 0 else if lenField == 126 then 2 else 8
  }

  /** What ws_send writes into the LEN field. */
  function LenField(length: nat): nat {
    if length <= 125 then length else if length < 65536 then 126 else 127
  }

  /** Whether a LEN field can announce the length at all. */
  predicate Announces(lenField: nat, length: nat) {
    lenField <= 127 && if lenField <= 125 then length == lenField else length < Capacity(Extended(lenField))
  }

  /** Section 5.2 of RFC 6455: the minimal number of bytes is used to encode the length. */
  lemma ShortestLengthForm(length: nat, other: nat)
    requires length < MAX_LENGTH && Announces(other, length)
    ensures Announces(LenField(length), length) && Extended(LenField(length)) <= Extended(other)
  {
    CapacityOfForms();
  }

  lemma CapacityOfForms()
    ensures Capacity(2) == 65536 && Capacity(8) == MAX_LENGTH
  {
    assert Capacity(0) == 1;
    assert Capacity(1) == 256;
    assert Capacity(2) == 0x1_0000;
    assert Capacity(3) == 0x100_0000;
    assert Capacity(4) == 0x1_0000_0000;
    assert Capacity(5) == 0x100_0000_0000;
    assert Capacity(6) == 0x1_0000_0000_0000;
    assert Capacity(7) == 0x100_0000_0000_0000;
  }

  function Header(fin: bool, opcode: nat, length: nat, key: Option<Key>): seq<byte>
    requires opcode < 16 && length < MAX_LENGTH
  {
    [(if fin then 128 else 0) + opcode, (if key.Some? then 128 else 0) + LenField(length)]
    + BigEndian(length, Extended(LenField(length)))
    + (if key.Some? then key.value else [])
  }

  function Encode(opcode: nat, msg: seq<byte>, key: Option<Key>): seq<byte>
    requires opcode < 16 && |msg| < MAX_LENGTH
  {
    Header(true, opcode, |msg|, key) + Masked(key, msg)
  }

  const EXAMPLE_KEY: Key := [0x37, 0xfa, 0x21, 0x3d]
  const HELLO: seq<byte> := [0x48, 0x65, 0x6c, 0x6c, 0x6f]

  /** The examples of section 5.7 of RFC 6455: a text message, the headers of the same message in two fragments, and
      masked, that of the pong that answers a ping, and those of binary messages of 256 bytes and of 64 KiB. */
  lemma ExamplesOfTheStandard()
    ensures Encode(1, HELLO, None) == [0x81, 0x05] + HELLO
    ensures Header(false, 1, 3, None) == [0x01, 0x03] && Header(true, 0, 2, None) == [0x80, 0x02]
    ensures Header(true, 1, 5, Some(EXAMPLE_KEY)) == [0x81, 0x85] + EXAMPLE_KEY
    ensures Header(true, 10, 5, Some(EXAMPLE_KEY)) == [0x8a, 0x85] + EXAMPLE_KEY
    ensures Header(true, 2, 256, None) == [0x82, 0x7e, 0x01, 0x00]
    ensures Header(true, 2, 65536, None) == [0x82, 0x7f, 0x00, 0x00, 0x00, 0x00, 0x00, 0x01, 0x00, 0x00]
  {
    hide Masked, BigEndian;
    NoBytes(5);
    NoBytes(3);
    NoBytes(2);
    NotMasked(HELLO);
    LengthExamples();
  }

  lemma LengthExamples()
    ensures BigEndian(256, 2) == [1, 0] && BigEndian(65536, 8) == [0, 0, 0, 0, 0, 1, 0, 0]
  {
    TwoBytes(256);
    EightBytes(65536);
    hide BigEndian;
  }

  /** A header as ws_read understands it; pos is where the payload starts. */
  datatype Head = Head(fin: bool, opcode: nat, length: nat, key: Option<Key>, pos: nat)

  predicate WholeHeader(buf: seq<byte>) {
    |buf| >= 2 && |buf| >= 2 + Extended(buf[1] % 128) + if buf[1] >= 128 then 4 else 0
  }

  function HeadOf(buf: seq<byte>): (h: Head)
    requires WholeHeader(buf)
    ensures h.pos <= |buf|
  {
    var lenField := buf[1] % 128;
    var pos := 2 + Extended(lenField);
    var length := if lenField <= 125 then lenField else FromBigEndian(buf[2..pos]);
    if buf[1] >= 128 then Head(buf[0] >= 128, buf[0] % 16, length, Some(buf[pos..pos + 4]), pos + 4)
    else Head(buf[0] >= 128, buf[0] % 16, length, None, pos)
  }

  lemma MaskBit(lenField: nat, masked: bool)
    requires lenField < 128
    ensures var b := (if masked then 128 else 0) + lenField; b % 128 == lenField && (b >= 128 <==> masked)
  {
  }

  lemma HeadRoundTrip(fin: bool, opcode: nat, length: nat, key: Option<Key>, rest: seq<byte>)
    requires opcode < 16 && length < MAX_LENGTH
    ensures WholeHeader(Header(fin, opcode, length, key) + rest)
    ensures HeadOf(Header(fin, opcode, length, key) + rest) == Head(fin, opcode, length, key, |Header(fin, opcode, length, key)|)
  {
    hide BigEndian, FromBigEndian, Capacity;
    var buf := Header(fin, opcode, length, key) + rest;
    var k := Extended(LenField(length));
    var pos := 2 + k;
    CapacityOfForms();
    MaskBit(LenField(length), key.Some?);
    MaskBit(opcode, fin);
    assert buf[0] == (if fin then 128 else 0) + opcode && buf[1] == (if key.Some? then 128 else 0) + LenField(length);
    var (two, ext, tail) := (buf[..2], BigEndian(length, k), (if key.Some? then key.value else []) + rest);
    assert buf == two + ext + tail;
    assert |ext| == k;
    assert buf[2..pos] == ext;
    if k > 0 {
      BigEndianRoundTrip(length, k);
    }
    if key.Some? {
      assert buf[pos..pos + 4] == key.value;
    }
  }

  // ----- reading -----

  /** What lies in a buffer and, as far as a header can reach, behind it. */
  function Seen(buf: seq<byte>, beyond: nat -> byte): (s: seq<byte>)
    ensures WholeHeader(s)
  {
    buf + seq(14, i requires 0 <= i < 14 => beyond(i))
  }

  /** What lies behind a buffer from where the payload would start. */
  function Behind(buf: seq<byte>, h: Head, beyond: nat -> byte): (s: seq<byte>)
    requires h.pos >= |buf|
    ensures |s| == h.length
  {
    seq(h.length, i requires 0 <= i < h.length => beyond(h.pos - |buf| + i))
  }

  /** The header is read from the buffer alone exactly if it is whole. */
  lemma HeaderSeen(buf: seq<byte>, beyond: nat -> byte)
    ensures WholeHeader(buf) <==> HeadOf(Seen(buf, beyond)).pos <= |buf|
    ensures WholeHeader(buf) ==> HeadOf(Seen(buf, beyond)) == HeadOf(buf)
    ensures HeadOf(Seen(buf, beyond)).pos <= 14
  {
    hide FromBigEndian;
    var s := Seen(buf, beyond);
    if WholeHeader(buf) {
      var pos := 2 + Extended(buf[1] % 128);
      assert s[2..pos] == buf[2..pos];
      assert buf[1] >= 128 ==> s[pos..pos + 4] == buf[pos..pos + 4];
    }
  }

  lemma AllBehind(buf: seq<byte>, h: Head, beyond: nat -> byte, message: array<byte>)
    requires h.pos >= |buf| && message.Length == h.length + 1
    requires forall i :: 0 <= i < h.length ==> message[i] == beyond(h.pos + i - |buf|)
    ensures message[..h.length] == Behind(buf, h, beyond)
  {
    var s := Behind(buf, h, beyond);
    forall i | 0 <= i < h.length ensures message[..h.length][i] == s[i] {
      assert h.pos - |buf| + i == h.pos + i - |buf|;
    }
  }

  /** The header is whole, or else what is read as the length can be a size of memory. */
  predicate Sensible(buf: seq<byte>, beyond: nat -> byte) {
    WholeHeader(buf) || HeadOf(Seen(buf, beyond)).length <= MAX_LENGTH - 14
  }

  function Flatten(bufs: seq<seq<byte>>): seq<byte> {
    if bufs == [] then [] else bufs[0] + Flatten(bufs[1..])
  }

  /** Collecting the rest of a frame: complete, or given up, after so many more buffers. */
  datatype Collected = Complete(count: nat) | GivenUp(count: nat)

  function Collect(have: nat, length: nat, bufs: seq<seq<byte>>): (c: Collected)
    ensures c.count <= |bufs|
    decreases |bufs|
  {
    if have >= length then Complete(0)
    else if bufs == [] then GivenUp(0)
    else if have + |bufs[0]| > length then GivenUp(1)
    else
      match Collect(have + |bufs[0]|, length, bufs[1..])
      case Complete(n) => Complete(n + 1)
      case GivenUp(n) => GivenUp(n + 1)
  }

  /** A first fragment: text or binary. */
  predicate Starts(h: Head) {
    h.opcode == 1 || h.opcode == 2
  }

  /** The length kept of a fragmented message. */
  function KeptLength(h: Head, lastOpcode: nat, contLength: nat): nat {
    if h.opcode == 0 && (lastOpcode == 1 || lastOpcode == 2) then contLength + h.length
    else if Starts(h) then h.length
    else contLength
  }

  /** What is remembered of fragmented messages: the opcode that continuations are matched with, and the length. */
  datatype Memory = Memory(opcode: nat, length: nat)

  function Remember(k: Memory, h: Head): Memory {
    Memory(if h.fin || Starts(h) then h.opcode else k.opcode, if h.fin then k.length else KeptLength(h, k.opcode, k.length))
  }

  function RememberAll(k: Memory, hs: seq<Head>): Memory
    decreases |hs|
  {
    if hs == [] then k else RememberAll(Remember(k, hs[0]), hs[1..])
  }

  predicate Continuation(h: Head) {
    !h.fin && h.opcode == 0
  }

  /** Section 5.5 of RFC 6455: control frames are not fragmented, and may come between the fragments of a message. */
  predicate ControlFrame(h: Head) {
    h.fin && 8 <= h.opcode < 16
  }

  /** The length of the continuations up to the first control frame. */
  function LengthBeforeControl(hs: seq<Head>): nat {
    if hs == [] || !Continuation(hs[0]) then 0 else hs[0].length + LengthBeforeControl(hs[1..])
  }

  /** Of a fragmented text or binary message, with control frames in between, all that comes before the first control
      frame is kept and nothing that comes after it. */
  lemma FragmentsKeptUntilControlFrame(k: Memory, first: Head, hs: seq<Head>)
    requires !first.fin && first.opcode in {1, 2}
    requires forall i :: 0 <= i < |hs| ==> Continuation(hs[i]) || ControlFrame(hs[i])
    ensures RememberAll(k, [first] + hs).length == first.length + LengthBeforeControl(hs)
  {
    assert ([first] + hs)[0] == first && ([first] + hs)[1..] == hs;
    KeptFrom(Remember(k, first), hs);
  }

  lemma {:induction false} KeptFrom(k: Memory, hs: seq<Head>)
    requires forall i :: 0 <= i < |hs| ==> Continuation(hs[i]) || ControlFrame(hs[i])
    requires k.opcode in {1, 2} || 8 <= k.opcode < 16
    ensures RememberAll(k, hs).length == k.length + if k.opcode in {1, 2} then LengthBeforeControl(hs) else 0
    decreases |hs|
  {
    if hs != [] {
      KeptFrom(Remember(k, hs[0]), hs[1..]);
    }
  }

  /** How many buffers a read takes beyond its first one without an unfinished read to answer for them. */
  function BuffersWasted(bufs: seq<seq<byte>>): nat {
    if bufs == [] || !WholeHeader(bufs[0]) then 0 else
      var h := HeadOf(bufs[0]);
      match Collect(|bufs[0]| - h.pos, h.length, bufs[1..])
      case Complete(_) => 0
      case GivenUp(n) => n
  }

  /** n - 1 buffers of one byte and one of two. */
  function OneByteTooMuch(n: nat): seq<seq<byte>>
    requires n > 0
  {
    if n == 1 then [[0, 0]] else [[0]] + OneByteTooMuch(n - 1)
  }

  lemma {:induction false} GivesUpAfter(have: nat, length: nat, n: nat)
    requires n > 0 && have + n == length
    ensures Collect(have, length, OneByteTooMuch(n)) == GivenUp(n)
    decreases n
  {
    if n > 1 {
      assert OneByteTooMuch(n)[0] == [0] && OneByteTooMuch(n)[1..] == OneByteTooMuch(n - 1);
      GivesUpAfter(have + 1, length, n - 1);
    }
  }

  /** A read can waste any number of buffers: behind the header of a frame of n bytes the last of n buffers brings one
      byte too many. */
  lemma AnyNumberWasted(n: nat)
    requires 0 < n <= 125
    ensures BuffersWasted([[129, n]] + OneByteTooMuch(n)) == n
  {
    GivesUpAfter(0, n, n);
    assert ([[129, n]] + OneByteTooMuch(n))[1..] == OneByteTooMuch(n);
  }

  lemma {:induction false} CollectExactly(have: nat, length: nat, bufs: seq<seq<byte>>, rest: seq<seq<byte>>)
    requires have + |Flatten(bufs)| == length
    requires bufs != [] ==> bufs[|bufs| - 1] != []
    ensures Collect(have, length, bufs + rest) == Complete(|bufs|)
    decreases |bufs|
  {
    if bufs != [] {
      assert (bufs + rest)[0] == bufs[0] && (bufs + rest)[1..] == bufs[1..] + rest;
      if |bufs| > 1 {
        LastCounts(bufs[1..]);
      }
      CollectExactly(have + |bufs[0]|, length, bufs[1..], rest);
    }
  }

  lemma {:induction false} LastCounts(bufs: seq<seq<byte>>)
    requires bufs != [] && bufs[|bufs| - 1] != []
    ensures Flatten(bufs) != []
    decreases |bufs|
  {
    if |bufs| > 1 {
      LastCounts(bufs[1..]);
    }
  }

  lemma {:induction false} FlattenStep(bufs: seq<seq<byte>>, b: seq<byte>)
    ensures Flatten(bufs + [b]) == Flatten(bufs) + b
    decreases |bufs|
  {
    if bufs == [] {
      assert [b][1..] == [];
    } else {
      assert (bufs + [b])[0] == bufs[0] && (bufs + [b])[1..] == bufs[1..] + [b];
      FlattenStep(bufs[1..], b);
    }
  }

  class WsClient {
    var inbox: seq<seq<byte>>  // the network buffers that receive calls will still yield
    var unfinished: nat
    var lastOpcode: nat
    var contLength: nat        // the length of what has been kept of a fragmented message
    var sent: seq<byte>

    constructor (incoming: seq<seq<byte>>)
      ensures inbox == incoming && unfinished == 0 && sent == []
    {
      inbox, unfinished, lastOpcode, contLength, sent := incoming, 0, 0, 0, [];
    }

    /** Masks or unmasks in place. */
    static method EncryptDecrypt(msg: array<byte>, length: nat, key: Option<Key>)
      requires length <= msg.Length
      modifies msg
      ensures msg[..length] == Masked(key, old(msg[..length]))
      ensures msg[length..] == old(msg[length..])
    {
      hide Xor;
      ghost var before := msg[..];
      if key.Some? {
        var i := 0;
        while i < length
          invariant 0 <= i <= length
          invariant forall k :: 0 <= k < i ==> msg[k] == Xor(before[k], key.value[k % 4])
          invariant forall k :: i <= k < msg.Length ==> msg[k] == before[k]
        {
          msg[i] := Xor(msg[i], key.value[i % 4]);
          i := i + 1;
        }
      }
    }

    method Send(opcode: nat, msg: seq<byte>, key: Option<Key>)
      requires opcode < 16 && |msg| < MAX_LENGTH
      modifies this`sent
      ensures sent == old(sent) + Encode(opcode, msg, key)
    {
      hide BigEndian, Masked;
      var lenField := LenField(|msg|);
      var out: seq<byte> := [128 + opcode, (if key.Some? then 128 else 0) + lenField];
      if lenField == 126 {
        TwoBytes(|msg|);
        out := out + [ByteAt(|msg|, 0x100), ByteAt(|msg|, 1)];
      }
      if lenField == 127 {
        EightBytes(|msg|);
        out := out + [ByteAt(|msg|, 0x100_0000_0000_0000), ByteAt(|msg|, 0x1_0000_0000_0000),
                      ByteAt(|msg|, 0x100_0000_0000), ByteAt(|msg|, 0x1_0000_0000),
                      ByteAt(|msg|, 0x100_0000), ByteAt(|msg|, 0x1_0000), ByteAt(|msg|, 0x100), ByteAt(|msg|, 1)];
      }
      if key.Some? {
        var encrypt := new byte[|msg|](i requires 0 <= i < |msg| => msg[i]);
        assert encrypt[..] == msg && encrypt[..|msg|] == msg;
        EncryptDecrypt(encrypt, |msg|, key);
        out := out + key.value + encrypt[..];
        assert encrypt[..] == encrypt[..|msg|];
      } else {
        assert Masked(key, msg) == msg by { NotMasked(msg); }
        out := out + msg;
      }
      assert BigEndian(|msg|, 0) == [] by { NoBytes(|msg|); }
      sent := sent + out;
    }

    /** One call of ws_read; `beyond` is the memory behind the first buffer, which the first copy may reach into. A
        fragment of a longer message is collected like any frame, but nothing is returned for it. If the header goes
        on in the next buffer, the count of bytes at hand wraps around and no further buffer is taken. */
    method Read(beyond: nat -> byte) returns (ret: Option<seq<byte>>, header: Option<Head>)
      requires unfinished == 0 && inbox != [] ==> Sensible(inbox[0], beyond)
      modifies this`inbox, this`unfinished, this`lastOpcode, this`contLength
      ensures old(unfinished) > 0 ==> ret.None? && unfinished == old(unfinished) - 1 && inbox == old(inbox)
      ensures old(unfinished) == 0 && old(inbox) == [] ==> ret.None? && unfinished == 0 && inbox == []
      ensures old(unfinished) == 0 && old(inbox) != [] && WholeHeader(old(inbox)[0]) ==>
        var h := HeadOf(old(inbox)[0]);
        match Collect(|old(inbox)[0]| - h.pos, h.length, old(inbox)[1..])
        case Complete(n) =>
          && unfinished == n && inbox == old(inbox)[1 + n..]
          && ret == (if h.fin then Some(PayloadOf(old(inbox), n)) else None) && header == Some(h)
          && Kept() == Remember(old(Kept()), h)
        case GivenUp(n) => ret.None? && unfinished == 0 && inbox == old(inbox)[1 + n..]
      ensures old(unfinished) == 0 && old(inbox) != [] && !WholeHeader(old(inbox)[0]) ==>
        var h := HeadOf(Seen(old(inbox)[0], beyond));
        && unfinished == 0 && inbox == old(inbox)[1..]
        && ret == (if h.fin then Some(Masked(h.key, Behind(old(inbox)[0], h, beyond))) else None) && header == Some(h)
        && Kept() == Remember(old(Kept()), h)
      ensures old(|inbox| + unfinished) > 0 ==>
        |inbox| + unfinished == old(|inbox| + unfinished) - 1 - if old(unfinished) > 0 then 0 else old(BuffersWasted(inbox))
    {
      hide HeadOf, WholeHeader, Collect, Flatten, Masked, Gathered, Collects, Behind, Remember, Seen;
      ret, header := None, None;
      if unfinished > 0 {
        unfinished := unfinished - 1;
        return;
      }
      if inbox == [] {
        return;
      }
      ghost var all := inbox;
      var buf := inbox[0];
      inbox := inbox[1..];
      var h := HeadOf(Seen(buf, beyond));
      HeaderSeen(buf, beyond);
      var message := new byte[h.length + 1](i => if h.pos + i < |buf| then buf[h.pos + i] else beyond(h.pos + i - |buf|));
      var have: nat := if |buf| >= h.pos then |buf| - h.pos else MAX_LENGTH + |buf| - h.pos;  // 64 bits
      if |buf| < h.pos {
        AllBehind(buf, h, beyond, message);
      }
      var complete := ReadOn(all, h, message, have);
      if !complete { return; }
      EncryptDecrypt(message, h.length, h.key);
      KeepHead(h);
      ret, header := if h.fin then Some(message[..h.length]) else None, Some(h);
    }

    /** Collects the rest of the message, of which `start` bytes are at hand. */
    method ReadOn(ghost all: seq<seq<byte>>, h: Head, message: array<byte>, start: nat) returns (complete: bool)
      requires message.Length == h.length + 1 && unfinished == 0 && all != [] && inbox == all[1..]
      requires start >= h.length || start + h.pos == |all[0]|
      requires forall j :: 0 <= j < h.length && h.pos + j < |all[0]| ==> message[j] == all[0][h.pos + j]
      modifies message, this`inbox, this`unfinished
      ensures match Collect(start, h.length, all[1..])
              case Complete(n) =>
                && complete && unfinished == n && inbox == all[1 + n..]
                && (h.pos <= |all[0]| && start + h.pos == |all[0]| ==>
                      var got := Gathered(all, h.pos, n); h.length <= |got| && message[..h.length] == got[..h.length])
              case GivenUp(n) => !complete && unfinished == 0 && inbox == all[1 + n..]
      ensures start >= h.length ==>
        complete && unfinished == 0 && inbox == all[1..] && message[..h.length] == old(message[..h.length])
    {
      hide Collect, Flatten, Gathered, Collects;
      var have: nat := start;
      ghost var k, before := 0, message[..];
      StartCollecting(all, h.length, have);
      if h.pos <= |all[0]| { GatherNothing(all, h.pos); }
      while have < h.length
        invariant 0 <= k <= |all| - 1 && inbox == all[1 + k..] && unfinished == k
        invariant Collects(all, h.length, start, k, have)
        invariant start >= h.length ==> k == 0 && have == start && message[..] == before
        invariant k == 0 || have <= h.length
        invariant h.pos <= |all[0]| && start + h.pos == |all[0]| ==>
          var got := Gathered(all, h.pos, k);
          |got| == have && forall j :: 0 <= j < have && j < h.length ==> message[j] == got[j]
        decreases |inbox|
      {
        StepCollecting(all, h.length, start, k, have);
        if inbox == [] {
          unfinished := 0;
          return false;
        }
        var buf2 := inbox[0];
        inbox := inbox[1..];
        if have + |buf2| > h.length {
          unfinished := 0;
          return false;
        }
        GatherStep(all, h.pos, k);
        forall j | 0 <= j < |buf2| {
          message[have + j] := buf2[j];
        }
        unfinished := unfinished + 1;
        have := have + |buf2|;
        k := k + 1;
      }
      message[h.length] := 0;
      StepCollecting(all, h.length, start, k, have);
      assert start >= h.length ==> message[..h.length] == before[..h.length];
      return true;
    }

    ghost function Kept(): Memory
      reads this`lastOpcode, this`contLength
    {
      Memory(lastOpcode, contLength)
    }

    /** The opcode of a whole message or a first fragment, and the length kept of a fragmented message. */
    method KeepHead(h: Head)
      modifies this`lastOpcode, this`contLength
      ensures Kept() == Remember(old(Kept()), h)
    {
      if !h.fin {
        contLength := KeptLength(h, lastOpcode, contLength);
      }
      if h.fin || Starts(h) {
        lastOpcode := h.opcode;
      }
    }
  }

  lemma NotMasked(s: seq<byte>)
    ensures Masked(None, s) == s
  {
  }

  lemma NoBytes(x: nat)
    ensures BigEndian(x, 0) == []
  {
  }

  lemma TwoBytes(x: nat)
    requires x < 65536
    ensures [ByteAt(x, 0x100), ByteAt(x, 1)] == BigEndian(x, 2)
  {
    assert BigEndian(x / 256, 1) == [x / 256 % 256] by { assert BigEndian(x / 256 / 256, 0) == []; }
  }

  lemma EightBytes(x: nat)
    ensures [ByteAt(x, 0x100_0000_0000_0000), ByteAt(x, 0x1_0000_0000_0000),
             ByteAt(x, 0x100_0000_0000), ByteAt(x, 0x1_0000_0000),
             ByteAt(x, 0x100_0000), ByteAt(x, 0x1_0000), ByteAt(x, 0x100), ByteAt(x, 1)] == BigEndian(x, 8)
  {
    var (x1, x2, x3, x4) := (x / 0x100, x / 0x1_0000, x / 0x100_0000, x / 0x1_0000_0000);
    var (x5, x6, x7) := (x / 0x100_0000_0000, x / 0x1_0000_0000_0000, x / 0x100_0000_0000_0000);
    assert x2 == x1 / 256 && x3 == x2 / 256 && x4 == x3 / 256 && x5 == x4 / 256 && x6 == x5 / 256 && x7 == x6 / 256;
    assert BigEndian(x7, 1) == [x7 % 256] by { NoBytes(x7 / 256); }
    assert BigEndian(x6, 2) == [x7 % 256, x6 % 256];
    assert BigEndian(x5, 3) == [x7 % 256, x6 % 256, x5 % 256];
    assert BigEndian(x4, 4) == [x7 % 256, x6 % 256, x5 % 256, x4 % 256];
    assert BigEndian(x3, 5) == [x7 % 256, x6 % 256, x5 % 256, x4 % 256, x3 % 256];
    assert BigEndian(x2, 6) == [x7 % 256, x6 % 256, x5 % 256, x4 % 256, x3 % 256, x2 % 256];
    assert BigEndian(x1, 7) == [x7 % 256, x6 % 256, x5 % 256, x4 % 256, x3 % 256, x2 % 256, x1 % 256];
  }

  /** The payload bytes of the first buffer and those of the next n. */
  function Gathered(bufs: seq<seq<byte>>, pos: nat, n: nat): seq<byte>
    requires n < |bufs| && pos <= |bufs[0]|
  {
    bufs[0][pos..] + Flatten(bufs[1..1 + n])
  }

  function PayloadOf(bufs: seq<seq<byte>>, n: nat): seq<byte>
    requires n < |bufs| && WholeHeader(bufs[0])
  {
    var h := HeadOf(bufs[0]);
    var got := Gathered(bufs, h.pos, n);
    Masked(h.key, if h.length <= |got| then got[..h.length] else got)
  }

  lemma GatherNothing(bufs: seq<seq<byte>>, pos: nat)
    requires bufs != [] && pos <= |bufs[0]|
    ensures Gathered(bufs, pos, 0) == bufs[0][pos..]
  {
  }

  lemma GatherStep(bufs: seq<seq<byte>>, pos: nat, k: nat)
    requires k + 1 < |bufs| && pos <= |bufs[0]|
    ensures Gathered(bufs, pos, k + 1) == Gathered(bufs, pos, k) + bufs[1 + k]
  {
    FlattenStep(bufs[1..1 + k], bufs[1 + k]);
    assert bufs[1..2 + k] == bufs[1..1 + k] + [bufs[1 + k]];
  }

  /** After k buffers the outcome of collecting is that of collecting the rest, k buffers later. */
  ghost predicate Collects(bufs: seq<seq<byte>>, length: nat, start: nat, k: nat, have: nat)
    requires k < |bufs|
  {
    Collect(start, length, bufs[1..]) ==
      match Collect(have, length, bufs[1 + k..])
      case Complete(n) => Complete(n + k)
      case GivenUp(n) => GivenUp(n + k)
  }

  lemma StartCollecting(bufs: seq<seq<byte>>, length: nat, have: nat)
    requires bufs != []
    ensures Collects(bufs, length, have, 0, have)
  {
    assert bufs[1 + 0..] == bufs[1..];
  }

  lemma StepCollecting(bufs: seq<seq<byte>>, length: nat, start: nat, k: nat, have: nat)
    requires k < |bufs| && Collects(bufs, length, start, k, have)
    ensures have >= length ==> Collect(start, length, bufs[1..]) == Complete(k)
    ensures have < length && k + 1 == |bufs| ==> Collect(start, length, bufs[1..]) == GivenUp(k)
    ensures have < length && k + 1 < |bufs| && have + |bufs[1 + k]| > length ==>
              Collect(start, length, bufs[1..]) == GivenUp(k + 1)
    ensures have < length && k + 1 < |bufs| && have + |bufs[1 + k]| <= length ==>
              Collects(bufs, length, start, k + 1, have + |bufs[1 + k]|)
  {
    if k + 1 < |bufs| {
      assert bufs[1 + k..][0] == bufs[1 + k] && bufs[1 + k..][1..] == bufs[1 + (k + 1)..];
    }
  }

  // ----- round trips -----

  datatype Frame = Frame(opcode: nat, msg: seq<byte>, key: Option<Key>)

  predicate Sendable(f: Frame) {
    f.opcode < 16 && |f.msg| < MAX_LENGTH
  }

  /** The bytes of one frame and of no other, in any pieces, the whole header in the first. */
  predicate CutOf(f: Frame, cuts: seq<seq<byte>>)
    requires Sendable(f)
  {
    && cuts != []
    && Flatten(cuts) == Encode(f.opcode, f.msg, f.key)
    && |cuts[0]| >= |Header(true, f.opcode, |f.msg|, f.key)|
    && (|cuts| > 1 ==> cuts[|cuts| - 1] != [])
  }

  /** Whatever the cuts, the frame is collected exactly and its payload and opcode come back. */
  lemma FrameRoundTrip(f: Frame, cuts: seq<seq<byte>>, rest: seq<seq<byte>>)
    requires Sendable(f) && CutOf(f, cuts)
    ensures WholeHeader(cuts[0]) && HeadOf(cuts[0]).fin && HeadOf(cuts[0]).opcode == f.opcode
    ensures var h := HeadOf(cuts[0]);
      Collect(|cuts[0]| - h.pos, h.length, (cuts + rest)[1..]) == Complete(|cuts| - 1)
    ensures PayloadOf(cuts + rest, |cuts| - 1) == f.msg
  {
    hide Header, HeadOf, WholeHeader, Masked, Collect;
    var header, first, others := Header(true, f.opcode, |f.msg|, f.key), cuts[0], cuts[1..];
    var masked := Masked(f.key, f.msg);
    var bytes := header + masked;
    assert first + Flatten(others) == bytes;
    var r := first[|header|..];
    assert first[..|header|] == bytes[..|header|] == header;
    assert first == header + r;
    assert r + Flatten(others) == bytes[|header|..] == masked;
    HeadRoundTrip(true, f.opcode, |f.msg|, f.key, r);
    assert (cuts + rest)[1..] == others + rest;
    CollectExactly(|r|, |f.msg|, others, rest);
    assert (cuts + rest)[1..|cuts|] == others;
    assert masked[..|f.msg|] == masked;
    MaskingIsAnInvolution(f.key, f.msg);
  }

  function Buffers(cuts: seq<seq<seq<byte>>>): seq<seq<byte>> {
    if cuts == [] then [] else cuts[0] + Buffers(cuts[1..])
  }

  /** One read per buffer: every frame sent is read once, in order, and each further read that a frame's later
      buffers trigger finds the counter of unfinished reads and does nothing. */
  method ReadAll(frames: seq<Frame>, cuts: seq<seq<seq<byte>>>, beyond: nat -> byte)
    returns (got: seq<(nat, seq<byte>)>, client: WsClient)
    requires |cuts| == |frames|
    requires forall i :: 0 <= i < |frames| ==> Sendable(frames[i]) && CutOf(frames[i], cuts[i])
    ensures |got| == |frames|
    ensures forall i :: 0 <= i < |frames| ==> got[i] == (frames[i].opcode, frames[i].msg)
    ensures client.inbox == [] && client.unfinished == 0
  {
    hide CutOf, HeadOf, WholeHeader, Collect, PayloadOf, Flatten;
    var bufs := Buffers(cuts);
    client := new WsClient(bufs);
    got := [];
    assert cuts[0..] == cuts;
    for calls := 0 to |bufs|
      invariant |bufs| - calls == |client.inbox| + client.unfinished
      invariant |got| <= |frames| && client.inbox == Buffers(cuts[|got|..])
      invariant forall i :: 0 <= i < |got| ==> got[i] == (frames[i].opcode, frames[i].msg)
      invariant fresh(client)
    {
      ghost var j := |got|;
      if client.unfinished == 0 {
        NotAllRead(cuts, j);
        ghost var rest := Buffers(cuts[j + 1..]);
        NextFrame(cuts, j);
        CutHasBuffer(frames[j], cuts[j]);
        FrameRoundTrip(frames[j], cuts[j], rest);
        assert (cuts[j] + rest)[0] == cuts[j][0] && (cuts[j] + rest)[|cuts[j]|..] == rest;
      }
      var ret, header := client.Read(beyond);
      if ret.Some? && header.Some? {
        got := got + [(header.value.opcode, ret.value)];
      }
    }
    AllRead(frames, cuts, |got|);
  }

  lemma NextFrame(cuts: seq<seq<seq<byte>>>, j: nat)
    requires j < |cuts|
    ensures Buffers(cuts[j..]) == cuts[j] + Buffers(cuts[j + 1..])
  {
    assert cuts[j..][1..] == cuts[j + 1..];
  }

  lemma NotAllRead(cuts: seq<seq<seq<byte>>>, j: nat)
    requires j <= |cuts| && Buffers(cuts[j..]) != []
    ensures j < |cuts|
  {
  }

  lemma CutHasBuffer(f: Frame, cuts: seq<seq<byte>>)
    requires Sendable(f) && CutOf(f, cuts)
    ensures cuts != []
  {
  }

  lemma AllRead(frames: seq<Frame>, cuts: seq<seq<seq<byte>>>, j: nat)
    requires |cuts| == |frames| && j <= |cuts| && Buffers(cuts[j..]) == []
    requires forall i :: 0 <= i < |frames| ==> Sendable(frames[i]) && CutOf(frames[i], cuts[i])
    ensures j == |cuts|
  {
    if j < |cuts| {
      BufferLeft(frames, cuts, j);
    }
  }

  lemma BufferLeft(frames: seq<Frame>, cuts: seq<seq<seq<byte>>>, j: nat)
    requires |cuts| == |frames| && j < |cuts| && Sendable(frames[j]) && CutOf(frames[j], cuts[j])
    ensures Buffers(cuts[j..]) != []
  {
    NextFrame(cuts, j);
    CutHasBuffer(frames[j], cuts[j]);
  }
}
