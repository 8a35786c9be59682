/** The synchronisation loop of the player: how the error is computed after each chunk, and the correction of it
    by single frames. 16-bit stereo; a frame has four bytes. */
module PlayerSync {
  import opened OrderStatistics
  import opened MedianFilters
  import MedianRings
  import opened Divisors

  const SHORT_OFFSET := 128
  const MINI_OFFSET := 64
  const HARD_RESYNC_THRESHOLD := 2000
  const SHORT_BUFFER_LEN := 99
  const MINI_BUFFER_LEN := 19

  /** Microseconds that the given number of frames takes, rounded down. */
  function Micros(frames: nat, sr: nat): (t: int)
    requires sr > 0
    ensures t >= 0
    ensures sr * t <= frames * 1000000 < sr * t + sr
  {
    var t := frames * 1000000 / sr;
    assert sr * t + frames * 1000000 % sr == frames * 1000000;
    t
  }

  // ----- one chunk -----

  /** What playing a chunk does: frames sent to the DMA, how far the chunk's time stamp moves on, and the
      correction that is still to be made. dir > 0: one frame is left out; dir < 0: one is repeated. */
  datatype Played = Played(frames: nat, advance: int, dir: int)

  /** How many frames of zeros stand in for a chunk without payload. The loop writes four bytes and asks afterwards
      whether any are left, so that for an empty chunk the count of bytes, of 32 bits, has to come around. */
  function SilentFrames(frames: nat): nat {
    if frames == 0 then 0x4000_0000 else frames
  }

  /** The bytes left after n writes of four. */
  function BytesLeft(size: nat, n: nat): nat {
    (size - 4 * n) % 0x1_0000_0000
  }

  /** The loop ends with the first write after which none are left. For a size that is not whole frames it never
      ends. */
  lemma SilenceEnds(size: nat, n: nat)
    requires size < 0x1_0000_0000 && n > 0
    ensures size % 4 != 0 ==> BytesLeft(size, n) != 0
    ensures size % 4 == 0 && n < SilentFrames(size / 4) ==> BytesLeft(size, n) != 0
    ensures size % 4 == 0 && n == SilentFrames(size / 4) ==> BytesLeft(size, n) == 0
  {
  }

  lemma FirstWrite(size: nat)
    requires size < 0x1_0000_0000 && size % 4 == 0
    ensures BytesLeft(size, 1) == if size >= 4 then size - 4 else size + 0xFFFF_FFFC
    ensures SilentFrames(size / 4) >= 1
  {
  }

  lemma NextWrite(size: nat, n: nat)
    requires size % 4 == 0 && BytesLeft(size, n) > 0
    ensures BytesLeft(size, n) >= 4 && BytesLeft(size, n + 1) == BytesLeft(size, n) - 4
  {
  }

  function Play(frames: nat, hasPayload: bool, dir: int, sr: nat): Played
    requires sr > 0
  {
    if !hasPayload then Played(SilentFrames(frames), 0, dir)
    else
      var main := if dir > 0 && frames >= 1 then frames - 1 else frames;
      var left := if dir > 0 && frames >= 1 then 0 else dir;
      if left < 0 then Played(main + 1, Micros(main, sr) + Micros(1, sr), 0)
      else Played(main, Micros(main, sr), left)
  }

  datatype Decision = Decision(dir: int, counter: int)

  /** The control loop on the errors since the last hard sync, the newest last. */
  function Decide(ages: seq<int>, d: Decision): Decision
    requires ages != []
  {
    if |ages| < SHORT_BUFFER_LEN then d
    else Correct(MedianOf(Last(ages, SHORT_BUFFER_LEN)), MedianOf(Last(ages, MINI_BUFFER_LEN)), ages[|ages| - 1], d)
  }

  /** Early: a frame is repeated with the next chunk. Late: one is left out. */
  function Correct(short: int, mini: int, age: int, d: Decision): Decision {
    if short < -SHORT_OFFSET && mini < -MINI_OFFSET && age < -MINI_OFFSET then Decision(-1, d.counter + 1)
    else if short > SHORT_OFFSET && mini > MINI_OFFSET && age > MINI_OFFSET then Decision(1, d.counter - 1)
    else d
  }

  predicate HardResync(ages: seq<int>, msgWaiting: nat)
    requires ages != []
  {
    var short := MedianOf(Last(ages, SHORT_BUFFER_LEN));
    msgWaiting == 0 || (|ages| >= SHORT_BUFFER_LEN && (short > HARD_RESYNC_THRESHOLD || short < -HARD_RESYNC_THRESHOLD))
  }

  /** A minority of outliers triggers nothing: a correction takes at least half of the last 99 errors beyond
      128 microseconds, half of the last 19 beyond 64, and the newest beyond 64. */
  lemma CorrectionNeedsMajority(ages: seq<int>, d: Decision)
    requires ages != [] && Decide(ages, d) != d
    ensures |ages| >= SHORT_BUFFER_LEN
    ensures 2 * CountIn(Last(ages, SHORT_BUFFER_LEN), -SHORT_OFFSET, SHORT_OFFSET) <= SHORT_BUFFER_LEN
    ensures 2 * CountIn(Last(ages, MINI_BUFFER_LEN), -MINI_OFFSET, MINI_OFFSET) <= MINI_BUFFER_LEN
    ensures !(-MINI_OFFSET <= ages[|ages| - 1] <= MINI_OFFSET)
  {
    hide MedianOf;
    Majority(Last(ages, SHORT_BUFFER_LEN), SHORT_OFFSET);
    Majority(Last(ages, MINI_BUFFER_LEN), MINI_OFFSET);
  }

  lemma Majority(w: seq<int>, bound: int)
    requires w != []
    ensures MedianOf(w) < -bound || MedianOf(w) > bound ==> 2 * CountIn(w, -bound, bound) <= |w|
  {
    hide MedianOf;
    if 2 * CountIn(w, -bound, bound) > |w| {
      MajorityBoundsMedian(w, -bound, bound);
    }
  }

  /** Nor does it trigger a hard resync, unless the queue has run empty. */
  lemma ResyncNeedsMajority(ages: seq<int>, msgWaiting: nat)
    requires ages != [] && HardResync(ages, msgWaiting) && msgWaiting > 0
    ensures |ages| >= SHORT_BUFFER_LEN
    ensures 2 * CountIn(Last(ages, SHORT_BUFFER_LEN), -HARD_RESYNC_THRESHOLD, HARD_RESYNC_THRESHOLD) <= SHORT_BUFFER_LEN
  {
    hide MedianOf;
    Majority(Last(ages, SHORT_BUFFER_LEN), HARD_RESYNC_THRESHOLD);
  }

  /** Exactly when there is a hard resync: the queue is empty, or at least 50 of the last 99 errors are more than two
      milliseconds late, or as many early. */
  lemma ResyncIsExact(ages: seq<int>, msgWaiting: nat)
    requires ages != []
    ensures HardResync(ages, msgWaiting) <==> ResyncIsDue(ages, msgWaiting)
  {
    hide MedianOf;
    MedianByCounts(Last(ages, 99), 2000);
    MedianByCounts(Last(ages, 99), -2000);
  }

  predicate ResyncIsDue(ages: seq<int>, msgWaiting: nat) {
    msgWaiting == 0
    || (|ages| >= 99 && (CountAbove(Last(ages, 99), 2000) >= 50 || CountBelow(Last(ages, 99), -2000) >= 50))
  }

  predicate RepeatIsDue(ages: seq<int>) {
    && |ages| >= 99 && ages[|ages| - 1] < -64
    && CountBelow(Last(ages, 99), -128) >= 50 && CountBelow(Last(ages, 19), -64) >= 10
  }

  predicate OmissionIsDue(ages: seq<int>) {
    && |ages| >= 99 && ages[|ages| - 1] > 64
    && CountAbove(Last(ages, 99), 128) >= 50 && CountAbove(Last(ages, 19), 64) >= 10
  }

  /** Exactly when a frame is repeated with the next chunk, or left out: 50 of the last 99 errors beyond 128 microseconds
      on that side, 10 of the last 19 beyond 64, and the newest one. It is never both. */
  lemma CorrectionIsExact(ages: seq<int>, d: Decision)
    requires ages != []
    ensures Decide(ages, d) ==
              if RepeatIsDue(ages) then Decision(-1, d.counter + 1)
              else if OmissionIsDue(ages) then Decision(1, d.counter - 1)
              else d
    ensures !(RepeatIsDue(ages) && OmissionIsDue(ages))
  {
    hide MedianOf;
    MedianByCounts(Last(ages, 99), -128);
    MedianByCounts(Last(ages, 99), 128);
    MedianByCounts(Last(ages, 19), -64);
    MedianByCounts(Last(ages, 19), 64);
  }

  // ----- the loop as the code has it -----

  class Player {
    const sr: nat
    const dmaFrames: nat          // i2sDmaBufCnt * i2sDmaBufMaxLen
    const bufUs: int
    const clientDacLatencyUs: int
    const shortMedianFilter: MedianFilter
    const miniMedianFilter: MedianFilter
    var playbackStartTimeUs: int
    var outputBufferDacTimeUs: int
    var samplesWritten: nat
    var dirInsertSample: int
    var insertedSamplesCounter: int
    var initialSync: bool

    ghost function Footprint(): set<object>
    {
      {this, shortMedianFilter, miniMedianFilter} + Nodes(shortMedianFilter) + Nodes(miniMedianFilter)
    }

    ghost predicate Separate() {
      && sr > 0
      && this as object !in Nodes(shortMedianFilter) + Nodes(miniMedianFilter)
      && shortMedianFilter != miniMedianFilter && Nodes(shortMedianFilter) !! Nodes(miniMedianFilter)
      && shortMedianFilter as object !in Nodes(shortMedianFilter) + Nodes(miniMedianFilter)
      && miniMedianFilter as object !in Nodes(shortMedianFilter) + Nodes(miniMedianFilter)
      && shortMedianFilter.Shape() && miniMedianFilter.Shape()
      && shortMedianFilter.numNodes == SHORT_BUFFER_LEN && miniMedianFilter.numNodes == MINI_BUFFER_LEN
    }

    /** In sync, both filters hold the errors since the last hard sync. */
    ghost predicate Valid()
      reads Footprint()
    {
      && Separate()
      && (initialSync ==>
            && samplesWritten >= dmaFrames
            && shortMedianFilter.Valid() && shortMedianFilter.MedianPlaced()
            && miniMedianFilter.Valid() && miniMedianFilter.MedianPlaced()
            && miniMedianFilter.history == shortMedianFilter.history
            && forall x :: x in shortMedianFilter.history ==> x < MedianRings.INT64_MAX)
    }

    constructor (sr: nat, dmaFrames: nat, bufUs: int, clientDacLatencyUs: int)
      requires sr > 0
      ensures Valid() && fresh(Footprint()) && !initialSync && dirInsertSample == 0 && insertedSamplesCounter == 0
      ensures this.sr == sr && this.dmaFrames == dmaFrames && this.bufUs == bufUs
      ensures this.clientDacLatencyUs == clientDacLatencyUs
    {
      this.sr, this.dmaFrames, this.bufUs, this.clientDacLatencyUs := sr, dmaFrames, bufUs, clientDacLatencyUs;
      shortMedianFilter := new MedianFilter(SHORT_BUFFER_LEN);
      miniMedianFilter := new MedianFilter(MINI_BUFFER_LEN);
      playbackStartTimeUs, outputBufferDacTimeUs, samplesWritten := 0, 0, 0;
      dirInsertSample, insertedSamplesCounter, initialSync := 0, 0, false;
    }

    /** The hard sync: both filters start anew; a correction not yet made survives. */
    method StartSync(now: int)
      requires Valid()
      modifies Footprint()
      ensures Valid() && initialSync && shortMedianFilter.history == []
      ensures playbackStartTimeUs == now && samplesWritten == dmaFrames
      ensures dirInsertSample == old(dirInsertSample) && insertedSamplesCounter == old(insertedSamplesCounter)
      ensures outputBufferDacTimeUs == old(outputBufferDacTimeUs)
    {
      hide MedianFilter.Valid, MedianFilter.MedianPlaced;
      var rc := shortMedianFilter.Init();
      rc := miniMedianFilter.Init();
      playbackStartTimeUs := now;
      samplesWritten := dmaFrames;
      initialSync := true;
    }

    /** The error after a chunk with the given time stamp has been played. */
    ghost function ErrorAfter(timestamp: int, p: Played, hasPayload: bool, diff2Server: int): int
      requires sr > 0 && samplesWritten >= dmaFrames
      reads this
    {
      playbackStartTimeUs + Micros(samplesWritten - dmaFrames + p.frames, sr)
      - (timestamp + p.advance - diff2Server + bufUs
         - (if hasPayload then Micros(dmaFrames, sr) else outputBufferDacTimeUs) - clientDacLatencyUs)
    }

    /** Sends the chunk to the DMA, with the pending correction. */
    method WriteChunk(timestamp: int, frames: nat, hasPayload: bool) returns (chunkStart: int)
      requires sr > 0 && (hasPayload || 4 * frames < 0x1_0000_0000)
      modifies this`samplesWritten, this`dirInsertSample, this`outputBufferDacTimeUs
      ensures var p := Play(frames, hasPayload, old(dirInsertSample), sr);
        && samplesWritten == old(samplesWritten) + p.frames
        && dirInsertSample == p.dir
        && chunkStart == timestamp + p.advance
      ensures outputBufferDacTimeUs == if hasPayload then Micros(dmaFrames, sr) else old(outputBufferDacTimeUs)
    {
      hide Micros;
      chunkStart := timestamp;
      var size := 4 * frames;
      if hasPayload {
        if dirInsertSample > 0 && size >= 4 {
          size := size - 4;
          dirInsertSample := 0;
        }
        var written := size;
        samplesWritten := samplesWritten + written / 4;
        chunkStart := chunkStart + Micros(written / 4, sr);
        if dirInsertSample < 0 {
          written := 4;
          samplesWritten := samplesWritten + written / 4;
          dirInsertSample := 0;
          chunkStart := chunkStart + Micros(written / 4, sr);
        }
        outputBufferDacTimeUs := Micros(dmaFrames, sr);
      } else {
        size := WriteSilence(size);
      }
    }

    /** Writes zeros for a chunk whose payload could not be allocated: do ... while (size). */
    method WriteSilence(size: nat) returns (left: nat)
      requires size < 0x1_0000_0000 && size % 4 == 0
      modifies this`samplesWritten
      ensures samplesWritten == old(samplesWritten) + SilentFrames(size / 4) && left == 0
    {
      hide SilentFrames, BytesLeft;
      samplesWritten := samplesWritten + 1;
      left := if size >= 4 then size - 4 else size + 0xFFFF_FFFC;
      ghost var n := 1;
      FirstWrite(size);
      while left > 0
        invariant 1 <= n <= SilentFrames(size / 4) && left == BytesLeft(size, n)
        invariant samplesWritten == old(samplesWritten) + n
        decreases SilentFrames(size / 4) - n
      {
        NextWrite(size, n);
        SilenceEnds(size, n);
        samplesWritten := samplesWritten + 1;
        left := left - 4;
        n := n + 1;
      }
      SilenceEnds(size, n);
    }

    /** Plays one chunk, computes the error and decides about a correction or a hard resync. */
    method PlayChunk(timestamp: int, frames: nat, hasPayload: bool, diff2Server: int, msgWaiting: nat)
      returns (age: int)
      requires Valid() && initialSync && (hasPayload || 4 * frames < 0x1_0000_0000)
      requires ErrorAfter(timestamp, Play(frames, hasPayload, dirInsertSample, sr), hasPayload, diff2Server) < MedianRings.INT64_MAX
      modifies Footprint()
      ensures Valid()
      ensures age == old(ErrorAfter(timestamp, Play(frames, hasPayload, dirInsertSample, sr), hasPayload, diff2Server))
      ensures playbackStartTimeUs == old(playbackStartTimeUs)
      ensures samplesWritten == old(samplesWritten) + old(Play(frames, hasPayload, dirInsertSample, sr)).frames
      ensures var ages, p := old(shortMedianFilter.history) + [age], old(Play(frames, hasPayload, dirInsertSample, sr));
        && shortMedianFilter.history == ages
        && initialSync == !ResyncIsDue(ages, msgWaiting)
        && (initialSync ==>
              Decision(dirInsertSample, insertedSamplesCounter) == Decide(ages, Decision(p.dir, old(insertedSamplesCounter))))
        && (!initialSync ==> dirInsertSample == p.dir && insertedSamplesCounter == 0)
    {
      hide MedianFilter.Valid, MedianFilter.MedianPlaced, MedianIsMarker, MedianOf, Last, Micros, Play;
      var chunkStart := WriteChunk(timestamp, frames, hasPayload);
      var samplesPlayed := samplesWritten - dmaFrames;
      var target := chunkStart - diff2Server + bufUs - outputBufferDacTimeUs - clientDacLatencyUs;
      var actual := playbackStartTimeUs + Micros(samplesPlayed, sr);
      age := actual - target;
      NoMarker(shortMedianFilter.history, SHORT_BUFFER_LEN);
      NoMarker(miniMedianFilter.history, MINI_BUFFER_LEN);
      var shortMedian := shortMedianFilter.Insert(age);
      var miniMedian := miniMedianFilter.Insert(age);
      var full := shortMedianFilter.IsFull(0);
      ResyncIsExact(shortMedianFilter.history, msgWaiting);
      hide ResyncIsDue;
      if msgWaiting == 0
         || (full == 1 && (shortMedian > HARD_RESYNC_THRESHOLD || shortMedian < -HARD_RESYNC_THRESHOLD)) {
        initialSync := false;
        insertedSamplesCounter := 0;
        return;
      }
      if full == 1 {
        ControlLoop(shortMedian, miniMedian, age);
      }
    }

    method ControlLoop(shortMedian: int, miniMedian: int, age: int)
      modifies this`dirInsertSample, this`insertedSamplesCounter
      ensures Decision(dirInsertSample, insertedSamplesCounter)
           == Correct(shortMedian, miniMedian, age, Decision(old(dirInsertSample), old(insertedSamplesCounter)))
    {
      if shortMedian < -SHORT_OFFSET && miniMedian < -MINI_OFFSET && age < -MINI_OFFSET {
        dirInsertSample := -1;
        insertedSamplesCounter := insertedSamplesCounter + 1;
      } else if shortMedian > SHORT_OFFSET && miniMedian > MINI_OFFSET && age > MINI_OFFSET {
        dirInsertSample := 1;
        insertedSamplesCounter := insertedSamplesCounter - 1;
      }
    }
  }

  ghost function Nodes(f: MedianFilter): set<object> {
    {f.value as object, f.nextAge, f.nextValue, f.prevValue}
  }

  // ----- contiguous chunks and a constant server offset -----

  /** The state after a chunk: frames in the chunks so far, frames played, the pending correction, the errors since
      the last hard sync and the counter of corrections. */
  datatype Sync = Sync(position: nat, played: nat, dir: int, ages: seq<int>, counter: int)

  /** Everything constant in the error: clocks, buffer, latencies and the time stamp of the stream's first frame. */
  datatype Stream = Stream(sr: nat, base: int)

  predicate Rate(p: Stream) {
    p.sr > 0
  }

  /** The error after one more chunk, whose time stamp is that of its first frame. */
  function ErrorOf(p: Stream, s: Sync, frames: nat): int
    requires Rate(p)
  {
    var w := Play(frames, true, s.dir, p.sr);
    p.base + Micros(s.played + w.frames, p.sr) - Micros(s.position, p.sr) - w.advance
  }

  function Next(p: Stream, s: Sync, frames: nat): Sync
    requires Rate(p)
  {
    var w := Play(frames, true, s.dir, p.sr);
    var ages := s.ages + [ErrorOf(p, s, frames)];
    var d := Decide(ages, Decision(w.dir, s.counter));
    Sync(s.position + frames, s.played + w.frames, d.dir, ages, d.counter)
  }

  /** The state after a run of chunks without a hard resync. */
  function After(p: Stream, s: Sync, chunks: seq<nat>): Sync
    requires Rate(p)
    decreases |chunks|
  {
    if chunks == [] then s else After(p, Next(p, s, chunks[0]), chunks[1..])
  }

  /** The player's error is the stream's error for contiguous chunks and a constant server offset. */
  lemma PlayerErrorIsStreamError(player: Player, first: int, position: nat, frames: nat, diff2Server: int, ages: seq<int>)
    requires player.sr > 0 && player.samplesWritten >= player.dmaFrames
    ensures var p := StreamOf(player, first, diff2Server);
      var s := Sync(position, player.samplesWritten - player.dmaFrames, player.dirInsertSample, ages,
                    player.insertedSamplesCounter);
      player.ErrorAfter(first + Micros(position, player.sr), Play(frames, true, player.dirInsertSample, player.sr), true,
                        diff2Server)
        == ErrorOf(p, s, frames)
  {
    hide Micros, Play;
  }

  /** When the last of the frames written since the sync is heard, by a server clock that is `offset` ahead of the
      client's: first the frames that have left the DMA buffers take their time, then those still in them, then the
      DAC. */
  ghost function HeardAt(player: Player, written: nat, offset: int): int
    requires player.sr > 0 && written >= player.dmaFrames
    reads player
  {
    player.playbackStartTimeUs + Micros(written - player.dmaFrames, player.sr) + Micros(player.dmaFrames, player.sr)
    + player.clientDacLatencyUs + offset
  }

  /** What the error means: the end of the chunk is heard so many microseconds later than its time stamp and the
      length of the buffer say, by the client's estimate of the server's clock. */
  lemma ErrorIsLateness(player: Player, timestamp: int, frames: nat, diff2Server: int)
    requires player.sr > 0 && player.samplesWritten >= player.dmaFrames
    ensures var p := Play(frames, true, player.dirInsertSample, player.sr);
      HeardAt(player, player.samplesWritten + p.frames, diff2Server)
        == timestamp + p.advance + player.bufUs + player.ErrorAfter(timestamp, p, true, diff2Server)
  {
    hide Micros, Play;
  }

  /** Two clients that play the same chunk with the same buffer length: whatever their clocks, their DMA buffers and
      their DACs, by the server's clock they are as far apart as their errors are, and as their estimates are wrong. */
  lemma SpeakersAgree(one: Player, two: Player, timestamp: int, frames: nat, diff: int, diff': int,
                      offset: int, offset': int, bound: int, bound': int)
    requires one.sr > 0 && one.samplesWritten >= one.dmaFrames && one.dirInsertSample == 0
    requires two.sr == one.sr && two.samplesWritten >= two.dmaFrames && two.dirInsertSample == 0
    requires one.bufUs == two.bufUs
    requires -bound <= diff - offset <= bound && -bound' <= diff' - offset' <= bound'
    ensures var apart := HeardAt(one, one.samplesWritten + frames, offset) - HeardAt(two, two.samplesWritten + frames, offset');
      var errors := one.ErrorAfter(timestamp, Play(frames, true, 0, one.sr), true, diff)
                    - two.ErrorAfter(timestamp, Play(frames, true, 0, two.sr), true, diff');
      errors - bound - bound' <= apart <= errors + bound + bound'
  {
    hide Micros, Play, Player.ErrorAfter;
    WholeChunk(frames, one.sr);
    ErrorIsLateness(one, timestamp, frames, diff);
    ErrorIsLateness(two, timestamp, frames, diff');
  }

  lemma WholeChunk(frames: nat, sr: nat)
    requires sr > 0
    ensures Play(frames, true, 0, sr) == Played(frames, Micros(frames, sr), 0)
  {
  }

  /** A chunk whose payload could not be allocated makes its own duration look like lateness, whatever correction is
      pending; an empty one, that of about a billion frames. */
  lemma SilenceLooksLate(player: Player, timestamp: int, frames: nat, diff2Server: int)
    requires player.sr > 0 && player.samplesWritten >= player.dmaFrames
    requires player.outputBufferDacTimeUs == Micros(player.dmaFrames, player.sr)
    ensures var late := player.ErrorAfter(timestamp, Play(frames, false, player.dirInsertSample, player.sr), false, diff2Server)
                      - player.ErrorAfter(timestamp, Play(frames, true, 0, player.sr), true, diff2Server);
      && (frames > 0 ==> late == Micros(frames, player.sr))
      && (frames == 0 ==> -1 * player.sr < player.sr * late - 1000000 * 0x4000_0000 < player.sr)
  {
    if frames == 0 {
      var n := player.samplesWritten - player.dmaFrames;
      var (a, b) := (Micros(n + 0x4000_0000, player.sr), Micros(n, player.sr));
      NoFrames(player.sr);
      hide Micros;
      Distribute4(player.sr, a, 0, b, 0);
    }
    hide Micros;
  }

  lemma NoFrames(sr: nat)
    requires sr > 0
    ensures Micros(0, sr) == 0
  {
  }

  /** What a silent chunk leaves to the chunks after it, apart from its error: the frames, and the correction still
      to be made. */
  function AfterSilence(p: Stream, s: Sync, frames: nat): Sync
    requires Rate(p)
  {
    var w := Play(frames, false, s.dir, p.sr);
    s.(position := s.position + frames, played := s.played + w.frames, dir := w.dir)
  }

  /** The lateness is gone with the next chunk: for its error the silent chunk might not have been there, but for the
      rounding of its time stamp. That of an empty chunk stays. */
  lemma SilenceIsForgotten(p: Stream, s: Sync, silent: nat, frames: nat)
    requires Rate(p) && frames > 0
    ensures silent > 0 ==>
      var t := AfterSilence(p, s, silent);
      && Exact(p, t) == Exact(p, s) && Settled(p, t) == Settled(p, s)
      && -4 * p.sr < p.sr * (ErrorOf(p, t, frames) - ErrorOf(p, s, frames)) < 4 * p.sr
    ensures silent == 0 ==> Exact(p, AfterSilence(p, s, silent)) == Exact(p, s) + 1000000 * 0x4000_0000
  {
    hide ErrorOf;
    var t := AfterSilence(p, s, silent);
    ErrorIsNearlyExact(p, s, frames);
    ErrorIsNearlyExact(p, t, frames);
    Distribute4(p.sr, ErrorOf(p, t, frames), 0, ErrorOf(p, s, frames), 0);
  }

  /** The error without any rounding, times the sample rate. */
  function Exact(p: Stream, s: Sync): int {
    p.sr * p.base + 1000000 * (s.played - s.position)
  }

  /** The same once the pending correction has been made. */
  function Settled(p: Stream, s: Sync): int {
    Exact(p, s) + (if s.dir < 0 then 1000000 else if s.dir > 0 then -1000000 else 0)
  }

  lemma Distribute4(sr: nat, a: int, b: int, c: int, d: int)
    ensures sr * (a + b - c - d) == sr * a + sr * b - sr * c - sr * d
  {
  }

  /** Truncation costs less than a microsecond downwards, and less than two upwards (three while a frame is
      repeated). */
  lemma ErrorIsNearlyExact(p: Stream, s: Sync, frames: nat)
    requires Rate(p) && frames > 0
    ensures Exact(p, s) - p.sr < p.sr * ErrorOf(p, s, frames)
    ensures p.sr * ErrorOf(p, s, frames) < Exact(p, s) + (if s.dir < 0 then 3 else 2) * p.sr
  {
    var main := if s.dir > 0 then frames - 1 else frames;
    var w := Play(frames, true, s.dir, p.sr);
    var a, b, c := Micros(s.played + w.frames, p.sr), Micros(s.position, p.sr), Micros(main, p.sr);
    var e := if s.dir < 0 then Micros(1, p.sr) else 0;
    assert w.advance == c + e;
    assert ErrorOf(p, s, frames) == p.base + a - b - (c + e);
    hide Micros;
    Distribute4(p.sr, p.base, a, b, c + e);
    assert p.sr * (c + e) == p.sr * c + p.sr * e;
  }

  /** One chunk: the exact error moves by the correction made with it, which its own error does not show yet. */
  lemma NextMoves(p: Stream, s: Sync, frames: nat)
    requires Rate(p) && frames > 0
    ensures var t := Next(p, s, frames);
      && Exact(p, t) == Settled(p, s)
      && t.ages == s.ages + [ErrorOf(p, s, frames)]
      && (t.dir, t.counter) in {(0, s.counter), (-1, s.counter + 1), (1, s.counter - 1)}
      && (t.dir < 0 ==> ErrorOf(p, s, frames) < -MINI_OFFSET)
      && (t.dir > 0 ==> ErrorOf(p, s, frames) > MINI_OFFSET)
  {
    hide MedianOf, Last, Micros;
  }

  predicate NonEmpty(chunks: seq<nat>) {
    forall i :: 0 <= i < |chunks| ==> chunks[i] > 0
  }

  /** Frames inserted (negative: left out) by the corrections made so far, up to a constant. */
  function Made(s: Sync): int {
    s.counter - (if s.dir < 0 then 1 else if s.dir > 0 then -1 else 0)
  }

  /** Over any run, the exact error moves by one frame period for each correction counted and made. */
  lemma {:induction false} CorrectionsAreCounted(p: Stream, s: Sync, chunks: seq<nat>)
    requires Rate(p) && NonEmpty(chunks)
    ensures var t := After(p, s, chunks); Exact(p, t) - Exact(p, s) == 1000000 * (Made(t) - Made(s))
    decreases |chunks|
  {
    hide ErrorOf, Exact, Next;
    if chunks != [] {
      NextMoves(p, s, chunks[0]);
      CorrectionsAreCounted(p, Next(p, s, chunks[0]), chunks[1..]);
    }
  }

  lemma Scale(sr: nat, a: int, b: int)
    requires sr > 0
    ensures sr * a < sr * b ==> a < b
    ensures a <= b ==> sr * a <= sr * b
  {
  }

  /** What truncation can add to an error: a microsecond more while a frame is repeated. */
  function Slack(s: Sync): int {
    if s.dir < 0 then 4 else 3
  }

  /** Truncation does not accumulate: however many chunks lie in between, q frames inserted move the error by q
      frame periods to within four microseconds, and to within three if no frame is being repeated. */
  lemma TruncationNeverAccumulates(p: Stream, s: Sync, chunks: seq<nat>, frames: nat, frames': nat)
    requires Rate(p) && NonEmpty(chunks) && frames > 0 && frames' > 0
    ensures var t := After(p, s, chunks);
      var moved, q := ErrorOf(p, t, frames') - ErrorOf(p, s, frames), Made(t) - Made(s);
      && -Slack(s) * p.sr < p.sr * moved - 1000000 * q < Slack(t) * p.sr
      && (q == 0 ==> -Slack(s) < moved < Slack(t))
  {
    hide ErrorOf, Exact, After;
    var t := After(p, s, chunks);
    CorrectionsAreCounted(p, s, chunks);
    ErrorIsNearlyExact(p, s, frames);
    ErrorIsNearlyExact(p, t, frames');
    var a, b := ErrorOf(p, t, frames'), ErrorOf(p, s, frames);
    Distribute4(p.sr, a, 0, b, 0);
    if Made(t) == Made(s) {
      Scale(p.sr, a - b, Slack(t));
      Scale(p.sr, -Slack(s), a - b);
    }
  }

  lemma SameExact(p: Stream, s: Sync, t: Sync)
    requires s.played == t.played && s.position == t.position
    ensures Exact(p, s) == Exact(p, t)
  {
  }

  /** The chunk with which a correction is made shows nothing of it; the chunk after that shows all of it. */
  lemma CorrectionShowsTwoChunksLater(p: Stream, s: Sync, frames: nat, frames': nat)
    requires Rate(p) && frames > 0 && frames' > 0 && s.dir != 0
    ensures var s0 := s.(dir := 0);
      var t, t0 := Next(p, s, frames), Next(p, s0, frames);
      && -4 * p.sr < p.sr * (ErrorOf(p, s, frames) - ErrorOf(p, s0, frames)) < 4 * p.sr
      && -4 * p.sr < p.sr * (ErrorOf(p, t, frames') - ErrorOf(p, t0, frames'))
                     - (if s.dir < 0 then 1000000 else -1000000) < 4 * p.sr
  {
    hide ErrorOf, Next, Exact;
    var s0 := s.(dir := 0);
    assert Exact(p, s0) == Exact(p, s) by { SameExact(p, s, s0); }
    var t, t0 := Next(p, s, frames), Next(p, s0, frames);
    NextMoves(p, s, frames);
    NextMoves(p, s0, frames);
    ErrorIsNearlyExact(p, s, frames);
    ErrorIsNearlyExact(p, s0, frames);
    ErrorIsNearlyExact(p, t, frames');
    ErrorIsNearlyExact(p, t0, frames');
    var a, a0, b, b0 := ErrorOf(p, s, frames), ErrorOf(p, s0, frames), ErrorOf(p, t, frames'), ErrorOf(p, t0, frames');
    Distribute4(p.sr, a, 0, a0, 0);
    Distribute4(p.sr, b, 0, b0, 0);
  }

  // ----- the closed loop -----

  /** 31250 Hz or more: two frame periods fit into 64 microseconds. */
  predicate EarlySafe(sr: nat) {
    2 * 1000000 <= 64 * sr
  }

  /** Two frame periods fit into 63 microseconds, or nearly: the rounding of errors has a grain. */
  predicate LateSafe(sr: nat)
    requires sr > 0
  {
    2 * 1000000 <= 63 * sr + 2 * Gcd(1000000, sr)
  }

  lemma FastIsSafe(sr: nat)
    requires sr >= 31747
    ensures EarlySafe(sr) && LateSafe(sr)
  {
  }

  predicate Early(p: Stream, s: Sync) {
    Exact(p, s) <= 0 && Settled(p, s) <= 0
  }

  predicate Late(p: Stream, s: Sync) {
    Exact(p, s) >= 0 && Settled(p, s) >= 0
  }

  /** How many corrections are decided on over a run. */
  function Corrections(p: Stream, s: Sync, chunks: seq<nat>): nat
    requires Rate(p)
    decreases |chunks|
  {
    if chunks == [] then 0 else
      var t := Next(p, s, chunks[0]);
      (if t.counter != s.counter then 1 else 0) + Corrections(p, t, chunks[1..])
  }

  lemma EarlyStep(p: Stream, s: Sync, frames: nat)
    requires Rate(p) && EarlySafe(p.sr) && frames > 0 && Early(p, s)
    ensures var t := Next(p, s, frames);
      && Early(p, t)
      && t.counter == s.counter + (if t.counter != s.counter then 1 else 0)
      && Settled(p, t) == Settled(p, s) + 1000000 * (t.counter - s.counter)
      && ErrorOf(p, s, frames) <= 2
  {
    hide ErrorOf, Exact, Next;
    var t, age := Next(p, s, frames), ErrorOf(p, s, frames);
    NextMoves(p, s, frames);
    ErrorIsNearlyExact(p, s, frames);
    Scale(p.sr, age, 3);
    if t.dir < 0 {
      Scale(p.sr, age, -65);
    }
  }

  /** What truncation takes off the exact number of microseconds, times the sample rate. */
  function Lost(frames: nat, sr: nat): (r: int)
    requires sr > 0
    ensures frames * 1000000 == sr * Micros(frames, sr) + r
  {
    frames * 1000000 - sr * Micros(frames, sr)
  }

  lemma LostIsGrained(frames: nat, sr: nat)
    requires sr > 0
    ensures 0 <= Lost(frames, sr) <= sr - Gcd(1000000, sr)
  {
    var g := Gcd(1000000, sr);
    GcdDivides(1000000, sr);
    DividesProduct(g, 1000000, frames);
    RemainderLeavesRoom(g, 1000000 * frames, sr);
    assert frames * 1000000 == 1000000 * frames;
  }

  /** With a grain of g, truncation cannot raise an error by two whole microseconds. */
  lemma ErrorIsGrained(p: Stream, s: Sync, frames: nat)
    requires Rate(p) && frames > 0 && s.dir >= 0
    ensures p.sr * ErrorOf(p, s, frames) <= Exact(p, s) + 2 * (p.sr - Gcd(1000000, p.sr))
  {
    var main := if s.dir > 0 then frames - 1 else frames;
    var a, b, c := Micros(s.played + main, p.sr), Micros(s.position, p.sr), Micros(main, p.sr);
    assert ErrorOf(p, s, frames) == p.base + a - b - c;
    LostIsGrained(s.played + main, p.sr);
    LostIsGrained(s.position, p.sr);
    LostIsGrained(main, p.sr);
    hide Micros, Gcd;
    Distribute4(p.sr, p.base, a, b, c);
  }

  lemma LateStep(p: Stream, s: Sync, frames: nat)
    requires Rate(p) && LateSafe(p.sr) && frames > 0 && Late(p, s)
    ensures var t := Next(p, s, frames);
      && Late(p, t)
      && t.counter == s.counter - (if t.counter != s.counter then 1 else 0)
      && Settled(p, t) == Settled(p, s) + 1000000 * (t.counter - s.counter)
      && ErrorOf(p, s, frames) >= 0
  {
    hide ErrorOf, Exact, Next, Gcd;
    var t, age := Next(p, s, frames), ErrorOf(p, s, frames);
    NextMoves(p, s, frames);
    ErrorIsNearlyExact(p, s, frames);
    Scale(p.sr, -1, age);
    if t.dir > 0 && s.dir >= 0 {
      ErrorIsGrained(p, s, frames);
      Scale(p.sr, 65, age);
    }
  }

  /** A player that is neither early nor late crosses zero with the next chunk, at any rate. */
  lemma OtherwiseCrosses(p: Stream, s: Sync, frames: nat)
    requires Rate(p) && frames > 0 && !Early(p, s) && !Late(p, s)
    ensures var t := Next(p, s, frames);
      (Exact(p, s) < 0 && Exact(p, t) > 0) || (Exact(p, s) > 0 && Exact(p, t) < 0)
  {
    hide Exact, Next;
    NextMoves(p, s, frames);
  }

  /** An early player stays early over any run: its exact error rises and never passes zero, no error it sees is
      above the truncation, and the corrections are bounded by the distance to zero. */
  lemma {:induction false} EarlyStaysEarly(p: Stream, s: Sync, chunks: seq<nat>)
    requires Rate(p) && EarlySafe(p.sr) && NonEmpty(chunks) && Early(p, s)
    ensures var t := After(p, s, chunks);
      && Early(p, t) && Settled(p, s) <= Settled(p, t)
      && |t.ages| == |s.ages| + |chunks|
      && (forall i :: |s.ages| <= i < |t.ages| ==> t.ages[i] <= 2)
      && (forall i :: 0 <= i < |s.ages| ==> t.ages[i] == s.ages[i])
    ensures 1000000 * Corrections(p, s, chunks) <= -Settled(p, s)
    decreases |chunks|
  {
    hide ErrorOf, Exact, Settled, Next;
    if chunks != [] {
      var u := Next(p, s, chunks[0]);
      EarlyStep(p, s, chunks[0]);
      NextMoves(p, s, chunks[0]);
      EarlyStaysEarly(p, u, chunks[1..]);
    }
  }

  /** And a late player stays late. */
  lemma {:induction false} LateStaysLate(p: Stream, s: Sync, chunks: seq<nat>)
    requires Rate(p) && LateSafe(p.sr) && NonEmpty(chunks) && Late(p, s)
    ensures var t := After(p, s, chunks);
      && Late(p, t) && Settled(p, t) <= Settled(p, s)
      && |t.ages| == |s.ages| + |chunks|
      && (forall i :: |s.ages| <= i < |t.ages| ==> t.ages[i] >= 0)
      && (forall i :: 0 <= i < |s.ages| ==> t.ages[i] == s.ages[i])
    ensures 1000000 * Corrections(p, s, chunks) <= Settled(p, s)
    decreases |chunks|
  {
    hide ErrorOf, Exact, Settled, Next;
    if chunks != [] {
      var u := Next(p, s, chunks[0]);
      LateStep(p, s, chunks[0]);
      NextMoves(p, s, chunks[0]);
      LateStaysLate(p, u, chunks[1..]);
    }
  }

  // ----- the player in the closed loop -----

  ghost function StreamOf(player: Player, first: int, diff2Server: int): Stream
    requires player.sr > 0
    reads player
  {
    Stream(player.sr, player.playbackStartTimeUs - first + diff2Server - player.bufUs
                      + Micros(player.dmaFrames, player.sr) + player.clientDacLatencyUs)
  }

  ghost function StateOf(player: Player, position: nat): Sync
    requires player.Valid() && player.initialSync
    reads player, player.Footprint()
  {
    Sync(position, player.samplesWritten - player.dmaFrames, player.dirInsertSample, player.shortMedianFilter.history,
         player.insertedSamplesCounter)
  }

  /** Not further from sync than any clock can express. */
  predicate InRange(p: Stream, s: Sync) {
    Exact(p, s) <= p.sr * (MedianRings.INT64_MAX - 3) && Settled(p, s) <= p.sr * (MedianRings.INT64_MAX - 3)
  }

  predicate OnEarlySide(p: Stream, s: Sync) {
    Rate(p) && EarlySafe(p.sr) && Early(p, s)
  }

  predicate OnLateSide(p: Stream, s: Sync) {
    Rate(p) && LateSafe(p.sr) && Late(p, s)
  }

  lemma ErrorInRange(p: Stream, s: Sync, frames: nat)
    requires Rate(p) && frames > 0 && InRange(p, s)
    ensures ErrorOf(p, s, frames) < MedianRings.INT64_MAX
  {
    hide ErrorOf, Exact;
    ErrorIsNearlyExact(p, s, frames);
    Distribute4(p.sr, MedianRings.INT64_MAX, 0, 3, 0);
    Scale(p.sr, ErrorOf(p, s, frames), MedianRings.INT64_MAX);
  }

  /** The player's step on a contiguous chunk is the step of the stream. */
  method PlayContiguous(player: Player, first: int, position: nat, frames: nat, diff2Server: int, msgWaiting: nat)
    returns (age: int)
    requires player.Valid() && player.initialSync && frames > 0
    requires InRange(StreamOf(player, first, diff2Server), StateOf(player, position))
    modifies player.Footprint()
    ensures player.Valid()
    ensures StreamOf(player, first, diff2Server) == old(StreamOf(player, first, diff2Server))
    ensures age == old(ErrorOf(StreamOf(player, first, diff2Server), StateOf(player, position), frames))
    ensures player.initialSync ==>
      StateOf(player, position + frames)
        == old(Next(StreamOf(player, first, diff2Server), StateOf(player, position), frames))
  {
    hide MedianFilter.Valid, MedianFilter.MedianPlaced, ErrorOf, Micros, Play, Decide, HardResync;
    ghost var p, s := StreamOf(player, first, diff2Server), StateOf(player, position);
    ErrorInRange(p, s, frames);
    PlayerErrorIsStreamError(player, first, position, frames, diff2Server, s.ages);
    age := player.PlayChunk(first + Micros(position, player.sr), frames, true, diff2Server, msgWaiting);
  }

  /** A whole run of the player on contiguous chunks with a constant server offset, up to a hard resync. A player
      that starts early never becomes late by correcting itself, and the other way round. */
  method PlayStream(player: Player, first: int, position: nat, chunks: seq<nat>, diff2Server: int, waiting: seq<nat>)
    returns (ages: seq<int>)
    requires player.Valid() && player.initialSync && NonEmpty(chunks) && |waiting| == |chunks|
    requires var p, s := StreamOf(player, first, diff2Server), StateOf(player, position);
      InRange(p, s) && (OnEarlySide(p, s) || OnLateSide(p, s))
    modifies player.Footprint()
    ensures old(OnEarlySide(StreamOf(player, first, diff2Server), StateOf(player, position))) ==>
              forall a :: a in ages ==> a <= 2
    ensures old(OnLateSide(StreamOf(player, first, diff2Server), StateOf(player, position))) ==>
              forall a :: a in ages ==> a >= 0
    ensures player.Valid()
    ensures player.initialSync ==> |ages| == |chunks|
    ensures player.initialSync ==> exists end: nat ::
              StateOf(player, end) == old(After(StreamOf(player, first, diff2Server), StateOf(player, position), chunks))
  {
    hide MedianFilter.Valid, MedianFilter.MedianPlaced, ErrorOf, Exact, Settled, Next, StreamOf, Early, Late, InRange;
    ages := [];
    ghost var p, s := StreamOf(player, first, diff2Server), StateOf(player, position);
    ghost var t := s;
    var at := position;
    var i := 0;
    while i < |chunks|
      invariant 0 <= i == |ages| <= |chunks|
      invariant player.Valid() && player.initialSync
      invariant StreamOf(player, first, diff2Server) == p && StateOf(player, at) == t
      invariant After(p, t, chunks[i..]) == After(p, s, chunks)
      invariant InRange(p, t)
      invariant OnEarlySide(p, s) ==> OnEarlySide(p, t) && forall a :: a in ages ==> a <= 2
      invariant OnLateSide(p, s) ==> OnLateSide(p, t) && forall a :: a in ages ==> a >= 0
    {
      if OnEarlySide(p, t) { EarlyStep(p, t, chunks[i]); }
      if OnLateSide(p, t) { LateStep(p, t, chunks[i]); }
      RangeStep(p, t, chunks[i]);
      assert chunks[i..][0] == chunks[i] && chunks[i..][1..] == chunks[i + 1..];
      var age := PlayContiguous(player, first, at, chunks[i], diff2Server, waiting[i]);
      ages := ages + [age];
      if !player.initialSync {
        return;
      }
      t := Next(p, t, chunks[i]);
      at := at + chunks[i];
      i := i + 1;
    }
  }

  lemma RangeStep(p: Stream, s: Sync, frames: nat)
    requires frames > 0 && InRange(p, s) && (OnEarlySide(p, s) || OnLateSide(p, s))
    ensures InRange(p, Next(p, s, frames))
  {
    hide ErrorOf, Exact, Next, EarlySafe, LateSafe;
    NextMoves(p, s, frames);
    if OnEarlySide(p, s) {
      EarlyStep(p, s, frames);
      Scale(p.sr, 0, MedianRings.INT64_MAX - 3);
    } else {
      LateStep(p, s, frames);
    }
  }
}
