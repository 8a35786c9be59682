/** Packing little-endian 16-bit stereo samples into the 32-bit words that the I2S driver plays. */
module Pcm {
  import opened Wire

  /** A byte as the code's 8-bit value. */
  function Bv(b: byte): bv8 {
    b as bv8
  }

  function Join(lo: bv8, hi: bv8): bv16 {
    (hi as bv16 << 8) | lo as bv16
  }

  /** A little-endian sample. */
  function Sample(lo: byte, hi: byte): bv16 {
    Join(Bv(lo), Bv(hi))
  }

  /** One stereo frame: (left << 16) | right. */
  function Frame(left: bv16, right: bv16): bv32 {
    (left as bv32 << 16) | right as bv32
  }

  function Word(b0: byte, b1: byte, b2: byte, b3: byte): bv32 {
    Frame(Sample(b0, b1), Sample(b2, b3))
  }

  /** The frames of a payload; up to three bytes at its end make no frame. */
  function Words(s: seq<byte>): (w: seq<bv32>)
    ensures |w| == |s| / 4
  {
    if |s| < 4 then [] else [Word(s[0], s[1], s[2], s[3])] + Words(s[4..])
  }

  /** Three bytes shifted in, the first one leftmost. */
  function ShiftedIn(a: bv8, b: bv8, c: bv8): bv32 {
    (a as bv32 << 24) | (b as bv32 << 16) | (c as bv32 << 8)
  }

  /** The bytes since the last full frame, as the byte loop has shifted them in. */
  function Partial(q: seq<byte>): bv32 {
    ShiftedIn(if |q| > 0 then Bv(q[0]) else 0, if |q| > 1 then Bv(q[1]) else 0, if |q| > 2 then Bv(q[2]) else 0)
  }

  /** The byte swap of the parser. */
  function Swapped(t: bv32): bv32 {
    (((t >> 24) & 0xff) << 16) | (((t >> 16) & 0xff) << 24) | ((t >> 8) & 0xff) | ((t & 0xff) << 8)
  }

  lemma SwapOfBytes(a: bv8, b: bv8, c: bv8, d: bv8)
    ensures Swapped(ShiftedIn(a, b, c) | d as bv32) == Frame(Join(a, b), Join(c, d))
  {
  }

  /** Shifting four bytes in and swapping gives the frame of their two samples. */
  lemma SwapIsWord(q: seq<byte>, d: byte)
    requires |q| == 3
    ensures Swapped(Partial(q) | Bv(d) as bv32) == Word(q[0], q[1], q[2], d)
  {
    hide Bv, ShiftedIn, Swapped, Join, Frame;
    SwapOfBytes(Bv(q[0]), Bv(q[1]), Bv(q[2]), Bv(d));
  }

  lemma {:induction false} WordsStep(p: seq<byte>, b: byte)
    ensures |p| % 4 != 3 ==> Words(p + [b]) == Words(p)
    ensures |p| % 4 == 3 ==>
      Words(p + [b]) == Words(p) + [Word(p[|p| - 3], p[|p| - 2], p[|p| - 1], b)]
  {
    hide Word;
    if |p| >= 4 {
      WordsStep(p[4..], b);
      assert (p + [b])[4..] == p[4..] + [b];
    }
  }

  /** A byte shifted left by `shift` bytes. */
  function AtShift(b: byte, shift: nat): bv32
    requires shift < 4
  {
    var v := Bv(b) as bv32;
    if shift == 3 then v << 24 else if shift == 2 then v << 16 else if shift == 1 then v << 8 else v
  }

  lemma PartialStep(q: seq<byte>, b: byte)
    requires |q| < 3
    ensures Partial(q + [b]) == Partial(q) | AtShift(b, 3 - |q|)
  {
    if |q| == 0 {
    } else if |q| == 1 {
    } else {
    }
  }

  /** The bytes behind the last full frame. */
  function Leftover(p: seq<byte>): (q: seq<byte>)
    ensures |q| == |p| % 4
  {
    p[|p| - |p| % 4..]
  }

  lemma LeftoverStep(p: seq<byte>, b: byte)
    ensures Leftover(p + [b]) == if |p| % 4 == 3 then [] else Leftover(p) + [b]
  {
  }

  // ----- chunks -----

  /** A PCM chunk whose payload may be missing for lack of memory; the words stored in it so far. */
  datatype Chunk = Chunk(size: nat, hasPayload: bool, words: seq<bv32>)

  /** Storing words from the front over what is there. */
  function Overwrite(old_: seq<bv32>, words: seq<bv32>): seq<bv32> {
    if |words| >= |old_| then words else words + old_[|words|..]
  }

  function Assembled(c: Option<Chunk>, p: seq<byte>): Option<Chunk> {
    if c.Some? && c.value.hasPayload then Some(c.value.(words := Overwrite(c.value.words, Words(p)))) else c
  }

  lemma AssembledStep(c: Chunk, p: seq<byte>, b: byte)
    requires c.hasPayload && |p| % 4 == 3
    ensures var w := Overwrite(c.words, Words(p));
      && |p| / 4 <= |w|
      && Overwrite(c.words, Words(p + [b])) ==
           var word := Word(p[|p| - 3], p[|p| - 2], p[|p| - 1], b);
           if |p| / 4 < |w| then w[|p| / 4 := word] else w + [word]
  {
    hide Word, Words;
    WordsStep(p, b);
    var k := |p| / 4;
    assert |Words(p)| == k && |p + [b]| / 4 == k + 1;
  }

  // ----- the Opus path -----

  /** A sequence of samples as the bytes that carry it. */
  function SampleBytes(audio: seq<(byte, byte)>): seq<byte> {
    if audio == [] then [] else [audio[0].0, audio[0].1] + SampleBytes(audio[1..])
  }

  lemma {:induction false} WordsOfSamples(audio: seq<(byte, byte)>, k: nat)
    requires 2 * k + 1 < |audio|
    ensures k < |Words(SampleBytes(audio))|
    ensures Words(SampleBytes(audio))[k] == Frame(Sample(audio[2 * k].0, audio[2 * k].1),
                                                  Sample(audio[2 * k + 1].0, audio[2 * k + 1].1))
  {
    hide Frame, Sample;
    var s := SampleBytes(audio);
    assert s == [audio[0].0, audio[0].1] + ([audio[1].0, audio[1].1] + SampleBytes(audio[2..])) by {
      assert audio[1..][1..] == audio[2..];
    }
    assert s[4..] == SampleBytes(audio[2..]);
    if k > 0 {
      WordsOfSamples(audio[2..], k - 1);
    }
  }

  /** The loop that packs decoded Opus samples stores what the PCM parser assembles from the same samples. */
  method PackOpus(audio: seq<(byte, byte)>) returns (words: seq<bv32>)
    requires |audio| % 2 == 0
    ensures words == Words(SampleBytes(audio))
  {
    SampleBytesLength(audio);
    words := [];
    var cnt := 0;
    while cnt < |audio|
      invariant 0 <= cnt <= |audio| && cnt % 2 == 0
      invariant |words| == cnt / 2 && words == Words(SampleBytes(audio))[..cnt / 2]
    {
      var left := Sample(audio[cnt].0, audio[cnt].1);
      var right := Sample(audio[cnt + 1].0, audio[cnt + 1].1);
      WordsOfSamples(audio, cnt / 2);
      words := words + [((left as bv32 << 16) & 0xffff0000) | (right as bv32 & 0x0000ffff)];
      FrameMasks(left, right);
      cnt := cnt + 2;
    }
  }

  lemma FrameMasks(left: bv16, right: bv16)
    ensures ((left as bv32 << 16) & 0xffff0000) | (right as bv32 & 0x0000ffff) == Frame(left, right)
  {
  }

  lemma {:induction false} SampleBytesLength(audio: seq<(byte, byte)>)
    ensures |SampleBytes(audio)| == 2 * |audio|
  {
    if audio != [] {
      SampleBytesLength(audio[1..]);
    }
  }

  // ----- entering the parser with a chunk left over -----

  lemma WordIsInjective(a: byte, b: byte, c: byte, d: byte, a': byte, b': byte, c': byte, d': byte)
    requires Word(a, b, c, d) == Word(a', b', c', d')
    ensures Bv(a) == Bv(a') && Bv(b) == Bv(b') && Bv(c) == Bv(c') && Bv(d) == Bv(d')
  {
    hide Bv, Frame, Join;
    FrameIsInjective(Bv(a), Bv(b), Bv(c), Bv(d), Bv(a'), Bv(b'), Bv(c'), Bv(d'));
  }

  lemma FrameIsInjective(a: bv8, b: bv8, c: bv8, d: bv8, a': bv8, b': bv8, c': bv8, d': bv8)
    requires Frame(Join(a, b), Join(c, d)) == Frame(Join(a', b'), Join(c', d'))
    ensures a == a' && b == b' && c == c' && d == d'
  {
  }

  lemma {:induction false} WordsAt(s: seq<byte>, k: nat)
    requires k < |s| / 4
    ensures Words(s)[k] == Word(s[4 * k], s[4 * k + 1], s[4 * k + 2], s[4 * k + 3])
  {
    if k > 0 {
      WordsAt(s[4..], k - 1);
    }
  }

  /** The frame of byte i of both streams, so byte i itself. */
  lemma SameWordsSameBytes(s: seq<byte>, t: seq<byte>, i: nat)
    requires Words(s) == Words(t) && i / 4 < |s| / 4 && i / 4 < |t| / 4
    ensures Bv(s[i]) == Bv(t[i])
  {
    hide Word, Words, Bv;
    var k := i / 4;
    WordsAt(s, k);
    WordsAt(t, k);
    WordIsInjective(s[4 * k], s[4 * k + 1], s[4 * k + 2], s[4 * k + 3], t[4 * k], t[4 * k + 1], t[4 * k + 2], t[4 * k + 3]);
  }

  lemma {:induction false} SilentByShift(p: seq<byte>, i: nat)
    requires |p| % 4 == 0 && i < |p| && Words([0, 0, 0] + p) == Words(p)
    ensures Bv(p[i]) == 0
  {
    hide Words;
    SameWordsSameBytes([0, 0, 0] + p, p, i);
    if i >= 3 {
      SilentByShift(p, i - 3);
    }
  }

  lemma WordsOfSilence(s: seq<byte>, t: seq<byte>)
    requires |s| / 4 == |t| / 4
    requires forall i :: 0 <= i < |s| ==> Bv(s[i]) == 0
    requires forall i :: 0 <= i < |t| ==> Bv(t[i]) == 0
    ensures Words(s) == Words(t)
  {
    hide Words, Bv;
    forall k | 0 <= k < |s| / 4 ensures Words(s)[k] == Words(t)[k] {
      WordsAt(s, k);
      WordsAt(t, k);
    }
  }

  lemma ByteIsZero()
    ensures Bv(0) == 0
  {
  }

  /** A chunk left over from a broken connection makes the parser treat the next payload as if three zero bytes
      preceded it. That gives the right words exactly for whole frames of silence. */
  lemma MisalignedUnlessSilent(p: seq<byte>)
    ensures Words([0, 0, 0] + p) == Words(p) <==> |p| % 4 == 0 && forall i :: 0 <= i < |p| ==> Bv(p[i]) == 0
  {
    hide Words, Bv;
    var s := [0, 0, 0] + p;
    ByteIsZero();
    if Words(s) == Words(p) {
      assert |Words(s)| == (|p| + 3) / 4;
      forall i | 0 <= i < |p| ensures Bv(p[i]) == 0 {
        SilentByShift(p, i);
      }
    }
    if |p| % 4 == 0 && forall i :: 0 <= i < |p| ==> Bv(p[i]) == 0 {
      WordsOfSilence(s, p);
    }
  }
}
