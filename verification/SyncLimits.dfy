/** For which sample rates the correction loop is safe: exactly, for either side. */
module SyncLimits {
  import opened Divisors
  import opened OrderStatistics
  import opened PlayerSync

  /** Straight from a hard sync. */
  predicate Fresh(s: Sync) {
    s.ages == [] && s.dir == 0
  }

  /** The run is not cut short by a hard resync; chunks are waiting throughout. */
  ghost predicate Undisturbed(p: Stream, s: Sync, chunks: seq<nat>)
    requires Rate(p)
    decreases |chunks|
  {
    chunks == [] ||
    (!HardResync(Next(p, s, chunks[0]).ages, 1) && Undisturbed(p, Next(p, s, chunks[0]), chunks[1..]))
  }

  /** t is the state after such a run from s. */
  ghost predicate Reached(p: Stream, s: Sync, t: Sync)
    requires Rate(p)
  {
    exists chunks: seq<nat> :: NonEmpty(chunks) && Undisturbed(p, s, chunks) && After(p, s, chunks) == t
  }

  /** No run from a hard sync takes an early player past zero by its corrections. */
  ghost predicate EarlyNeverCrosses(sr: nat)
    requires sr > 0
  {
    forall p: Stream, s: Sync, t: Sync {:trigger Reached(p, s, t)} ::
      p.sr == sr && Fresh(s) && Early(p, s) && Reached(p, s, t) ==> Early(p, t)
  }

  ghost predicate LateNeverCrosses(sr: nat)
    requires sr > 0
  {
    forall p: Stream, s: Sync, t: Sync {:trigger Reached(p, s, t)} ::
      p.sr == sr && Fresh(s) && Late(p, s) && Reached(p, s, t) ==> Late(p, t)
  }

  // ----- building runs -----

  lemma ReachedStart(p: Stream, s: Sync)
    requires Rate(p)
    ensures Reached(p, s, s)
  {
    assert NonEmpty([]) && After(p, s, []) == s;
  }

  lemma ReachedNext(p: Stream, s: Sync, t: Sync, frames: nat)
    requires Rate(p) && Reached(p, s, t) && frames > 0 && !HardResync(Next(p, t, frames).ages, 1)
    ensures Reached(p, s, Next(p, t, frames))
  {
    hide Next, HardResync;
    var chunks: seq<nat> :| NonEmpty(chunks) && Undisturbed(p, s, chunks) && After(p, s, chunks) == t;
    Appended(p, s, chunks, frames);
    assert NonEmpty(chunks + [frames]);
  }

  lemma {:induction false} Appended(p: Stream, s: Sync, chunks: seq<nat>, frames: nat)
    requires Rate(p) && Undisturbed(p, s, chunks) && !HardResync(Next(p, After(p, s, chunks), frames).ages, 1)
    ensures After(p, s, chunks + [frames]) == Next(p, After(p, s, chunks), frames)
    ensures Undisturbed(p, s, chunks + [frames])
    decreases |chunks|
  {
    hide Next, HardResync;
    if chunks == [] {
      assert ([] + [frames])[1..] == [];
    } else {
      assert (chunks + [frames])[0] == chunks[0] && (chunks + [frames])[1..] == chunks[1..] + [frames];
      Appended(p, Next(p, s, chunks[0]), chunks[1..], frames);
    }
  }

  /** The first n errors lie strictly between lo and hi. */
  predicate Band(ages: seq<int>, n: nat, lo: int, hi: int) {
    n <= |ages| && forall i :: 0 <= i < n ==> lo < ages[i] < hi
  }

  const QUIET := SHORT_BUFFER_LEN - 1

  lemma NothingDecided(p: Stream, s: Sync, frames: nat)
    requires Rate(p) && frames > 0 && s.dir == 0 && |s.ages| < QUIET
    ensures var t := Next(p, s, frames);
      && t == Sync(s.position + frames, s.played + frames, 0, s.ages + [ErrorOf(p, s, frames)], s.counter)
      && !HardResync(t.ages, 1)
  {
    hide MedianOf, Micros;
  }

  /** Until there are 99 errors nothing is decided, and the error stays where it is. */
  lemma {:induction false} Quiet(p: Stream, s: Sync, frames: nat, n: nat, lo: int, hi: int) returns (t: Sync)
    requires Rate(p) && Fresh(s) && frames > 0 && n <= QUIET
    requires p.sr * lo <= Exact(p, s) - p.sr && Exact(p, s) + 2 * p.sr <= p.sr * hi
    ensures Reached(p, s, t) && |t.ages| == n && Band(t.ages, n, lo, hi)
    ensures t == Sync(s.position + n * frames, s.played + n * frames, 0, t.ages, s.counter)
  {
    if n == 0 {
      t := s;
      ReachedStart(p, s);
    } else {
      var u := Quiet(p, s, frames, n - 1, lo, hi);
      ErrorIsNearlyExact(p, u, frames);
      hide ErrorOf, Reached, Next;
      NothingDecided(p, u, frames);
      Scale(p.sr, lo, ErrorOf(p, u, frames));
      Scale(p.sr, ErrorOf(p, u, frames), hi);
      ReachedNext(p, s, u, frames);
      t := Next(p, u, frames);
      assert (n - 1) * frames + frames == n * frames;
    }
  }

  lemma {:induction false} CountsBand(w: seq<int>, n: nat, lo: int, hi: int)
    requires Band(w, n, lo, hi)
    ensures CountIn(w, lo + 1, hi - 1) >= n
  {
    if n > 0 {
      CountsBand(w[1..], n - 1, lo, hi);
    }
  }

  /** A few errors behind the quiet phase leave both medians where they were. */
  lemma BandMedians(ages: seq<int>, lo: int, hi: int)
    requires SHORT_BUFFER_LEN <= |ages| <= SHORT_BUFFER_LEN + 4 && Band(ages, QUIET, lo, hi)
    ensures lo < MedianOf(Last(ages, SHORT_BUFFER_LEN)) < hi && lo < MedianOf(Last(ages, MINI_BUFFER_LEN)) < hi
  {
    hide MedianOf;
    var short, mini := Last(ages, SHORT_BUFFER_LEN), Last(ages, MINI_BUFFER_LEN);
    CountsBand(short, 2 * SHORT_BUFFER_LEN - 1 - |ages|, lo, hi);
    CountsBand(mini, SHORT_BUFFER_LEN + MINI_BUFFER_LEN - 1 - |ages|, lo, hi);
    MajorityBoundsMedian(short, lo + 1, hi - 1);
    MajorityBoundsMedian(mini, lo + 1, hi - 1);
  }

  /** A chunk whose error is on the same side as the quiet phase, beyond 64, brings another correction. */
  lemma Corrected(p: Stream, s: Sync, t: Sync, frames: nat, lo: int, hi: int) returns (u: Sync)
    requires Rate(p) && Reached(p, s, t) && frames > 0
    requires QUIET <= |t.ages| <= QUIET + 4 && Band(t.ages, QUIET, lo, hi)
    requires lo >= -HARD_RESYNC_THRESHOLD - 1 && hi <= HARD_RESYNC_THRESHOLD + 1
    requires (hi <= -SHORT_OFFSET && ErrorOf(p, t, frames) < -MINI_OFFSET)
          || (lo >= SHORT_OFFSET && ErrorOf(p, t, frames) > MINI_OFFSET)
    ensures Reached(p, s, u) && Exact(p, u) == Settled(p, t) && u.dir == if hi <= -SHORT_OFFSET then -1 else 1
    ensures u.position == t.position + frames
    ensures |u.ages| == |t.ages| + 1 && Band(u.ages, QUIET, lo, hi)
    ensures u.counter == t.counter - u.dir
  {
    u := Next(p, t, frames);
    NextMoves(p, t, frames);
    BandMedians(u.ages, lo, hi);
    hide MedianOf, ErrorOf, Exact, Settled, Last, Reached;
    assert u.position == t.position + frames;
    ReachedNext(p, s, t, frames);
  }

  // ----- rounding -----

  lemma MicrosIs(frames: nat, sr: nat, t: int)
    requires sr > 0 && sr * t <= frames * 1000000 < sr * t + sr
    ensures Micros(frames, sr) == t
  {
    var u := Micros(frames, sr);
    hide Micros;
    Monotone(sr, t + 1, u);
    Monotone(sr, u + 1, t);
    Distribute(sr, t, 1);
    Distribute(sr, u, 1);
  }

  /** Whole seconds are not rounded. */
  lemma WholeSeconds(sr: nat, k: nat, frames: nat)
    requires sr > 0
    ensures Micros(k * sr + frames, sr) == 1000000 * k + Micros(frames, sr)
  {
    var t := Micros(frames, sr);
    hide Micros;
    Distribute(sr, 1000000 * k, t);
    assert (k * sr + frames) * 1000000 == sr * (1000000 * k) + frames * 1000000;
    MicrosIs(k * sr + frames, sr, 1000000 * k + t);
  }

  // ----- early players -----

  lemma EarlyByExact(p: Stream, t: Sync, frames: nat)
    requires Rate(p) && frames > 0 && Exact(p, t) <= -67 * p.sr
    ensures ErrorOf(p, t, frames) < -MINI_OFFSET
  {
    hide ErrorOf, Exact;
    ErrorIsNearlyExact(p, t, frames);
    Scale(p.sr, ErrorOf(p, t, frames), -64);
  }

  lemma EarlyCrossing(p: Stream, s: Sync, t: Sync)
    requires Rate(p) && Fresh(s) && Early(p, s) && Reached(p, s, t) && Settled(p, t) > 0
    ensures !EarlyNeverCrosses(p.sr)
  {
    hide Reached, Settled, Exact;
    assert !Early(p, t);
  }

  /** Up to 14285 Hz two corrections from 140 microseconds are enough. */
  lemma EarlyCrossesSlow(sr: nat)
    requires 0 < sr && 140 * sr < 2000000
    ensures !EarlyNeverCrosses(sr)
  {
    hide ErrorOf, Reached, Next;
    var p, s := Stream(sr, -140), Sync(0, 0, 0, [], 0);
    var t0 := Quiet(p, s, sr, QUIET, -2000, -128);
    EarlyByExact(p, t0, sr);
    var t1 := Corrected(p, s, t0, sr, -2000, -128);
    EarlyByExact(p, t1, sr);
    var t2 := Corrected(p, s, t1, sr, -2000, -128);
    EarlyCrossing(p, s, t2);
  }

  /** Otherwise five: three that bring the player to `lead` frames ahead of its stream, and two that are decided while
      the error is still read as beyond 64 microseconds. All chunks last one second. */
  lemma EarlyWitness(sr: nat, base: int, lead: nat)
    requires 14286 <= sr < 31250 && base + Micros(lead + 1, sr) - Micros(1, sr) < -MINI_OFFSET
    requires -2000000 < sr * base + 1000000 * lead <= -64 * sr
    ensures !EarlyNeverCrosses(sr)
  {
    hide ErrorOf, Reached, Next, Micros;
    var p, s := Stream(sr, base), Sync(sr, sr + lead - 3, 0, [], 0);
    var t0 := Quiet(p, s, sr, QUIET, -2000, -128);
    EarlyByExact(p, t0, sr);
    var t1 := Corrected(p, s, t0, sr, -2000, -128);
    EarlyByExact(p, t1, sr);
    var t2 := Corrected(p, s, t1, sr, -2000, -128);
    EarlyByExact(p, t2, sr);
    var t3 := Corrected(p, s, t2, sr, -2000, -128);
    EarlyByExact(p, t3, sr);
    var t4 := Corrected(p, s, t3, sr, -2000, -128);
    assert t4.position == 103 * sr && t4.played == 103 * sr + lead;
    LastEarlyError(p, t4, lead);
    var t5 := Corrected(p, s, t4, sr, -2000, -128);
    EarlyCrossing(p, s, t5);
  }

  lemma LastEarlyError(p: Stream, t: Sync, lead: nat)
    requires Rate(p) && t.dir == -1 && t.position == 103 * p.sr && t.played == 103 * p.sr + lead
    ensures ErrorOf(p, t, p.sr) == p.base + Micros(lead + 1, p.sr) - Micros(1, p.sr)
  {
    NoFrames(p.sr);
    WholeSeconds(p.sr, 104, lead + 1);
    WholeSeconds(p.sr, 103, 0);
    WholeSeconds(p.sr, 1, 0);
    assert t.played + (p.sr + 1) == 104 * p.sr + (lead + 1);
    hide Micros;
  }

  function PowerOf5(i: nat): nat {
    if i == 0 then 1 else 5 * PowerOf5(i - 1)
  }

  lemma ModuloFive(e: nat, m: nat)
    requires e % 5 != 0 && m % 5 != 0
    ensures e * m % 5 != 0
  {
    var (q, r, s, t) := (e / 5, e % 5, m / 5, m % 5);
    Expanded(q, r, s, t);
    SmallProduct(r, t);
    SameModuloFive(e * m, q * (5 * s + t) + r * s, r * t);
  }

  lemma Expanded(q: int, r: int, s: int, t: int)
    ensures (5 * q + r) * (5 * s + t) == 5 * (q * (5 * s + t) + r * s) + r * t
  {
    Distribute(5 * s + t, 5 * q, r);
    assert r * (5 * s + t) == 5 * (r * s) + r * t;
  }

  lemma SameModuloFive(n: int, k: int, x: int)
    requires n == 5 * k + x
    ensures n % 5 == x % 5
  {
  }

  lemma SmallProduct(r: nat, t: nat)
    requires 0 < r < 5 && 0 < t < 5
    ensures r * t % 5 != 0
  {
    if r == 1 {
    } else if r == 2 {
    } else if r == 3 {
    } else {
      assert r == 4;
    }
  }

  lemma OneFactor(e: nat, m: nat)
    requires e * m == 1
    ensures e == 1
  {
    assert m != 0;
    Monotone(e, 1, m);
  }

  /** A factor of a power of five is a power of five. */
  lemma {:induction false} FactorOfPowerOf5(e: nat, m: nat, i: nat) returns (j: nat)
    requires e * m == PowerOf5(i)
    ensures j <= i && e == PowerOf5(j)
  {
    if i == 0 {
      OneFactor(e, m);
      j := 0;
    } else {
      OneIsMultipleOfFive(e, m, PowerOf5(i - 1));
      if e % 5 == 0 {
        CancelFive(e / 5, m, PowerOf5(i - 1));
        var k := FactorOfPowerOf5(e / 5, m, i - 1);
        j := k + 1;
      } else {
        CancelFive(m / 5, e, PowerOf5(i - 1));
        j := FactorOfPowerOf5(e, m / 5, i - 1);
      }
    }
  }

  lemma CancelFive(f: nat, m: nat, x: nat)
    requires 5 * f * m == 5 * x
    ensures f * m == m * f == x
  {
    assert 5 * f * m == 5 * (f * m);
  }

  lemma OneIsMultipleOfFive(e: nat, m: nat, x: nat)
    requires e * m == 5 * x
    ensures e % 5 == 0 || m % 5 == 0
    ensures e % 5 == 0 ==> 5 * (e / 5) * m == 5 * x
    ensures m % 5 == 0 ==> 5 * (m / 5) * e == 5 * x
  {
    SameModuloFive(e * m, x, 0);
    if e % 5 != 0 && m % 5 != 0 {
      ModuloFive(e, m);
    }
    assert e % 5 == 0 ==> 5 * (e / 5) == e;
    assert m % 5 == 0 ==> 5 * (m / 5) == m;
  }

  lemma OddFactor(e: nat, a: nat, n: nat)
    requires e % 2 == 1 && e * a == 2 * n
    ensures a % 2 == 0 && e * (a / 2) == n
  {
    var q := e / 2;
    assert e * a == 2 * (q * a) + a;
    assert a == 2 * (a / 2);
    assert e * a == 2 * (e * (a / 2));
  }

  lemma PowersOf5()
    ensures PowerOf5(0) == 1 && PowerOf5(1) == 5 && PowerOf5(2) == 25 && PowerOf5(3) == 125
    ensures PowerOf5(4) == 625 && PowerOf5(5) == 3125 && PowerOf5(6) == 15625
  {
    assert PowerOf5(3) == 125;
    assert PowerOf5(4) == 625;
    assert PowerOf5(5) == 3125;
  }

  /** 32 k + 1 is a divisor of a million only for k = 0: it is odd, so it divides the sixth power of five. */
  lemma NoSuchDivisor(a: nat, k: nat)
    requires k > 0
    ensures a * (32 * k + 1) != 1000000
  {
    if a * (32 * k + 1) == 1000000 {
      var e := 32 * k + 1;
      assert e * a == 2 * 500000;
      OddFactor(e, a, 500000);
      OddFactor(e, a / 2, 250000);
      OddFactor(e, a / 2 / 2, 125000);
      OddFactor(e, a / 2 / 2 / 2, 62500);
      OddFactor(e, a / 2 / 2 / 2 / 2, 31250);
      OddFactor(e, a / 2 / 2 / 2 / 2 / 2, 15625);
      PowersOf5();
      var j := FactorOfPowerOf5(e, a / 2 / 2 / 2 / 2 / 2 / 2, 6);
    }
  }

  /** From there to 31249 Hz the right number of frames ahead makes up for the rounding. */
  lemma EarlyCrossesAbove(sr: nat)
    requires 30770 <= sr < 31250
    ensures !EarlyNeverCrosses(sr)
  {
    var a: nat := 1000000 - 32 * sr;  // a frame lasts 32 + a / sr microseconds
    var n := (sr - 1) / a;
    var q := a * n;
    assert q <= sr - 1 < q + a;
    FramesAhead(sr, a, n);
    MicrosIs(1, sr, 32);
    MicrosIs(n, sr, 32 * n);
    var base := -33 - 32 * n;
    Expand(sr, a, n, base);
    EarlyWitness(sr, base, n - 1);
  }

  lemma FramesAhead(sr: nat, a: nat, n: nat)
    requires 1000000 == 32 * sr + a && 0 < a < sr && a * n < sr <= a * n + a
    ensures n >= 1 && sr < a * n + a
    ensures sr * 32 <= 1000000 < sr * 32 + sr
    ensures sr * (32 * n) <= n * 1000000 < sr * (32 * n) + sr
  {
    assert n * 1000000 == n * (32 * sr) + n * a;
    assert sr * (32 * n) == n * (32 * sr);
    assert n == 0 ==> a * n == 0;
    if sr == a * n + a {
      assert a * n + a == a * (n + 1);
      assert 32 * (a * (n + 1)) + a == a * (32 * (n + 1) + 1);
      NoSuchDivisor(a, n + 1);
    }
  }

  lemma Expand(sr: nat, a: nat, n: nat, base: int)
    requires 1000000 == 32 * sr + a && base == -33 - 32 * n
    ensures sr * base + 1000000 * (n - 1) == -65 * sr + a * n - a
  {
    assert sr * base == -33 * sr - 32 * (sr * n);
    assert 1000000 * n == 32 * (sr * n) + a * n;
  }

  lemma ReachedStaysEarly(p: Stream, s: Sync, t: Sync)
    requires Rate(p) && EarlySafe(p.sr) && Early(p, s) && Reached(p, s, t)
    ensures Early(p, t)
  {
    var chunks: seq<nat> :| NonEmpty(chunks) && Undisturbed(p, s, chunks) && After(p, s, chunks) == t;
    EarlyStaysEarly(p, s, chunks);
  }

  /** An early player is safe from crossing zero exactly from 31250 Hz on. */
  lemma EarlySafetyIsExact(sr: nat)
    requires sr > 0
    ensures EarlyNeverCrosses(sr) <==> EarlySafe(sr)
  {
    hide Reached, Early;
    if EarlySafe(sr) {
      forall p: Stream, s: Sync, t: Sync | p.sr == sr && Fresh(s) && Early(p, s) && Reached(p, s, t)
        ensures Early(p, t)
      {
        ReachedStaysEarly(p, s, t);
      }
    } else if 140 * sr < 2000000 {
      EarlyCrossesSlow(sr);
    } else if 65 * sr < 2000000 {
      assert sr * -65 == -65 * sr;
      EarlyWitness(sr, -65, 0);
    } else {
      EarlyCrossesAbove(sr);
    }
  }

  // ----- late players -----

  /** A number of frames whose duration is rounded down by as much as the grain allows. */
  lemma MostRounded(sr: nat) returns (u: nat, c: int)
    requires sr > 0
    ensures u > 0 && 1000000 * u == sr * c - Gcd(1000000, sr)
  {
    var x, y := Bezout(1000000, sr);
    var k := if x < 0 then -x + 1 else x + 1;
    Monotone(k, 1, sr);
    u := sr * k - x;
    c := y + 1000000 * k;
    Combine(sr, x, y, k);
  }

  lemma Combine(sr: int, x: int, y: int, k: int)
    ensures 1000000 * (sr * k - x) == sr * (y + 1000000 * k) - (1000000 * x + sr * y)
  {
    assert sr * (y + 1000000 * k) == sr * y + 1000000 * (sr * k);
  }

  lemma LateByExact(p: Stream, t: Sync, frames: nat)
    requires Rate(p) && frames > 0 && Exact(p, t) >= 65 * p.sr
    ensures ErrorOf(p, t, frames) > MINI_OFFSET
  {
    hide ErrorOf, Exact;
    ErrorIsNearlyExact(p, t, frames);
    Scale(p.sr, 64, ErrorOf(p, t, frames));
  }

  lemma LateCrossing(p: Stream, s: Sync, t: Sync)
    requires Rate(p) && Fresh(s) && Late(p, s) && Reached(p, s, t) && Settled(p, t) < 0
    ensures !LateNeverCrosses(p.sr)
  {
    hide Reached, Settled, Exact;
    assert !Late(p, t);
  }

  lemma LateCrossesSlow(sr: nat)
    requires 0 < sr && 140 * sr < 2000000
    ensures !LateNeverCrosses(sr)
  {
    hide ErrorOf, Reached, Next;
    var p, s := Stream(sr, 140), Sync(0, 0, 0, [], 0);
    var t0 := Quiet(p, s, sr, QUIET, 128, 2000);
    LateByExact(p, t0, sr);
    var t1 := Corrected(p, s, t0, sr, 128, 2000);
    LateByExact(p, t1, sr);
    var t2 := Corrected(p, s, t1, sr, 128, 2000);
    LateCrossing(p, s, t2);
  }

  /** After the quiet phase four corrections are decided, three of them made, with chunks of a second. */
  lemma LateRun(p: Stream, s: Sync) returns (t: Sync)
    requires Rate(p) && Fresh(s) && p.sr >= 14286
    requires 129 * p.sr <= Exact(p, s) <= 1998 * p.sr && 65 * p.sr <= Exact(p, s) - 2000000
    ensures Reached(p, s, t) && t.dir == 1 && |t.ages| == QUIET + 4 && Band(t.ages, QUIET, 128, 2000)
    ensures t.position == s.position + 102 * p.sr && t.played - t.position == s.played - s.position - 3
  {
    hide ErrorOf, Reached, Next, Micros, Band;
    var t0 := Quiet(p, s, p.sr, QUIET, 128, 2000);
    LateByExact(p, t0, p.sr);
    var t1 := Corrected(p, s, t0, p.sr, 128, 2000);
    LateByExact(p, t1, p.sr);
    var t2 := Corrected(p, s, t1, p.sr, 128, 2000);
    LateByExact(p, t2, p.sr);
    var t3 := Corrected(p, s, t2, p.sr, 128, 2000);
    LateByExact(p, t3, p.sr);
    t := Corrected(p, s, t3, p.sr, 128, 2000);
  }

  /** Three corrections bring the player to where, with u frames behind whole seconds and u frames left to play, the
      error is rounded up by two microseconds but for two grains; two more are decided. */
  lemma LateWitness(sr: nat, u: nat, c: int)
    requires 14286 <= sr && 63 * sr + 2 * Gcd(1000000, sr) < 2000000
    requires u > 0 && 1000000 * u == sr * c - Gcd(1000000, sr)
    ensures !LateNeverCrosses(sr)
  {
    var g := Gcd(1000000, sr);
    GcdIsSmall(sr);
    var z := u * sr;
    assert z >= u by { Monotone(u, 1, sr); }
    var p, s := Stream(sr, 63 + 2 * c), Sync(z + u, z - u + 3, 0, [], 0);
    LateStart(sr, u, c, g);
    hide ErrorOf, Reached, Next, Micros, Gcd;
    var t4 := LateRun(p, s);
    LastLateError(p, t4, u, c, g);
    var t5 := Corrected(p, s, t4, u + 1, 128, 2000);
    LateCrossing(p, s, t5);
  }

  lemma LateStart(sr: int, u: int, c: int, g: int)
    requires 1000000 * u == sr * c - g
    ensures sr * (63 + 2 * c) + 1000000 * (3 - 2 * u) == 63 * sr + 2 * g + 3000000
  {
    Distribute(sr, 63, 2 * c);
    assert sr * (2 * c) == 2 * (sr * c);
  }

  lemma LastLateError(p: Stream, t: Sync, u: nat, c: int, g: nat)
    requires Rate(p) && 0 < g <= p.sr && 1000000 * u == p.sr * c - g && t.dir == 1
    requires t.position == u * p.sr + u + 102 * p.sr && t.played == t.position - 2 * u && p.base == 63 + 2 * c
    ensures ErrorOf(p, t, u + 1) == 65
  {
    var k := u + 102;
    assert k * p.sr == u * p.sr + 102 * p.sr;
    NoFrames(p.sr);
    WholeSeconds(p.sr, k, 0);
    WholeSeconds(p.sr, k, u);
    assert t.position == k * p.sr + u && t.played + u == k * p.sr + 0;
    Distribute(p.sr, c, -1);
    MicrosIs(u, p.sr, c - 1);
    hide Micros;
  }

  lemma GcdIsSmall(sr: nat)
    requires sr > 0
    ensures 0 < Gcd(1000000, sr) <= sr
  {
    var g := Gcd(1000000, sr);
    GcdDivides(1000000, sr);
    hide Gcd;
    var q := sr / g;
    assert sr == g * q;
    Monotone(g, 1, q);
  }

  lemma ReachedStaysLate(p: Stream, s: Sync, t: Sync)
    requires Rate(p) && LateSafe(p.sr) && Late(p, s) && Reached(p, s, t)
    ensures Late(p, t)
  {
    hide Gcd;
    var chunks: seq<nat> :| NonEmpty(chunks) && Undisturbed(p, s, chunks) && After(p, s, chunks) == t;
    LateStaysLate(p, s, chunks);
  }

  /** A late player is safe exactly if twice a frame period is at most 63 microseconds and two grains. */
  lemma LateSafetyIsExact(sr: nat)
    requires sr > 0
    ensures LateNeverCrosses(sr) <==> LateSafe(sr)
  {
    hide Gcd, Reached, Late;
    if LateSafe(sr) {
      forall p: Stream, s: Sync, t: Sync | p.sr == sr && Fresh(s) && Late(p, s) && Reached(p, s, t)
        ensures Late(p, t)
      {
        ReachedStaysLate(p, s, t);
      }
    } else if 140 * sr < 2000000 {
      LateCrossesSlow(sr);
    } else {
      var u, c := MostRounded(sr);
      LateWitness(sr, u, c);
    }
  }

  // ----- truncation while a frame is repeated -----

  /** The fourth microsecond of truncation is needed: at 48 kHz, in an undisturbed run from a hard sync, the one frame
      inserted so far has moved the error by 24 microseconds instead of 20.83. */
  lemma RepeatedFrameCostsMore()
    ensures exists s: Sync, t: Sync ::
              var p := Stream(48000, -500);
              && Fresh(s) && Reached(p, s, t) && Made(t) - Made(s) == 1
              && p.sr * (ErrorOf(p, t, 961) - ErrorOf(p, s, 960)) - 1000000 > 3 * p.sr
  {
    var p, s := Stream(48000, -500), Sync(0, 1, 0, [], 0);
    var t0 := Quiet(p, s, 960, QUIET, -2000, -128);
    EarlyByExact(p, t0, 960);
    var t1 := Corrected(p, s, t0, 960, -2000, -128);
    EarlyByExact(p, t1, 961);
    var t2 := Corrected(p, s, t1, 961, -2000, -128);
    assert t2.position == 96001 && t2.played == 96003;
    ErrorsAt48(p, s, t2);
    hide Reached, ErrorOf;
    assert Reached(p, s, t2);
  }

  lemma ErrorsAt48(p: Stream, s: Sync, t: Sync)
    requires p == Stream(48000, -500) && s.position == 0 && s.played == 1 && s.dir == 0
    requires t.position == 96001 && t.played == 96003 && t.dir == -1
    ensures ErrorOf(p, s, 960) == -480 && ErrorOf(p, t, 961) == -456
  {
    assert Micros(0, 48000) == 0 && Micros(1, 48000) == 20 && Micros(960, 48000) == 20000 && Micros(961, 48000) == 20020;
    assert Micros(96001, 48000) == 2000020 && Micros(96965, 48000) == 2020104;
  }
}
