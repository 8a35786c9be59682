/** The four-timestamp estimate of the server clock offset, and the median over many of them. */
module OffsetEstimates {
  import opened OrderStatistics
  import opened Wire
  import MedianFilters
  import MedianRings

  const FAST_SYNC_LATENCY_BUF := 10000
  const NORMAL_SYNC_LATENCY_BUF := 1000000
  const SYNC_LOST_AFTER := 60000000

  function Half(n: int): int {
    if n >= 0 then n / 2 else -(-n / 2)
  }

  /** One exchange: client sends at t1, the server answers after `processing`, both ways delayed; the server's
      clock is ahead of the client's by `offset`. */
  datatype Exchange = Exchange(t1: int, offset: int, delayTo: nat, processing: nat, delayBack: nat)

  /** The server's receive time, its send time, and the client's receive time, each on the local clock. */
  function T2(e: Exchange): int { e.t1 + e.offset + e.delayTo }
  function T3(e: Exchange): int { T2(e) + e.processing }
  function T4(e: Exchange): int { T3(e) - e.offset + e.delayBack }

  /** What the message and the receive time stamp say about an exchange; the split of a difference into
      seconds and microseconds is the server's. */
  ghost predicate Reports(received: Tv, sent: Tv, latency: Tv, e: Exchange) {
    && received.sec * 1000000 + received.usec == T4(e)
    && sent.sec * 1000000 + sent.usec == T3(e)
    && latency.sec * 1000000 + latency.usec == T2(e) - e.t1
  }

  function EstimateOf(e: Exchange): int {
    Half((T2(e) - e.t1) - (T4(e) - T3(e)))
  }

  function ErrorOf(e: Exchange): int {
    Half((T4(e) - T3(e)) + (T2(e) - e.t1))
  }

  /** The estimate is off by at most half the round trip plus one microsecond of truncation. */
  lemma EstimateIsBounded(e: Exchange)
    ensures 0 <= ErrorOf(e) && 2 * ErrorOf(e) <= e.delayTo + e.delayBack <= 2 * ErrorOf(e) + 1
    ensures -(ErrorOf(e) + 1) <= EstimateOf(e) - e.offset <= ErrorOf(e) + 1
  {
    assert T2(e) - e.t1 == e.offset + e.delayTo;
    assert T4(e) - T3(e) == e.delayBack - e.offset;
  }

  /** The microsecond of truncation is needed. */
  lemma BoundIsTight()
    ensures var e := Exchange(0, -1, 1, 0, 0);
      ErrorOf(e) == 0 && EstimateOf(e) - e.offset == 1
  {
    var e := Exchange(0, -1, 1, 0, 0);
    assert T2(e) == 0 && T3(e) == 0 && T4(e) == 1;
  }

  // ----- many estimates -----

  function Estimates(es: seq<Exchange>): (r: seq<int>)
    ensures |r| == |es|
  {
    if es == [] then [] else [EstimateOf(es[0])] + Estimates(es[1..])
  }

  function CountPrecise(es: seq<Exchange>, bound: int): nat {
    if es == [] then 0 else (if ErrorOf(es[0]) <= bound then 1 else 0) + CountPrecise(es[1..], bound)
  }

  lemma {:induction false} PreciseEstimatesAreNear(es: seq<Exchange>, offset: int, bound: int)
    requires forall e :: e in es ==> e.offset == offset
    ensures CountPrecise(es, bound) <= CountIn(Estimates(es), offset - bound - 1, offset + bound + 1)
  {
    if es != [] {
      EstimateIsBounded(es[0]);
      PreciseEstimatesAreNear(es[1..], offset, bound);
      assert Estimates(es)[1..] == Estimates(es[1..]);
    }
  }

  lemma {:induction false} EstimatesOfSuffix(es: seq<Exchange>, k: nat)
    requires k <= |es|
    ensures Estimates(es[k..]) == Estimates(es)[k..]
  {
    if k > 0 {
      EstimatesOfSuffix(es[1..], k - 1);
      assert es[k..] == es[1..][k - 1..];
      assert Estimates(es)[k..] == Estimates(es[1..])[k - 1..];
    }
  }

  function LastExchanges(es: seq<Exchange>, n: nat): seq<Exchange> {
    if |es| <= n then es else es[|es| - n..]
  }

  /** More than half of the exchanges in the window have a half round trip of at most `bound`. */
  ghost predicate MostlyPrecise(es: seq<Exchange>, n: nat, bound: int) {
    2 * CountPrecise(LastExchanges(es, n), bound) > |LastExchanges(es, n)|
  }

  /** If more than half of the exchanges in the window have a half round trip of at most `bound`, the median
      of the estimates is within bound + 1 of the true offset, whatever the others report. */
  lemma MedianOfEstimatesIsBounded(es: seq<Exchange>, n: nat, offset: int, bound: int)
    requires es != [] && n > 0
    requires forall e :: e in es ==> e.offset == offset
    requires MostlyPrecise(es, n, bound)
    ensures var w := Last(Estimates(es), n);
      w != [] && offset - bound - 1 <= MedianOf(w) <= offset + bound + 1
  {
    hide MedianOf, Estimates, CountPrecise, CountIn;
    var last, w := LastExchanges(es, n), Last(Estimates(es), n);
    EstimatesOfSuffix(es, |es| - |last|);
    assert w == Estimates(last);
    assert forall e :: e in last ==> e in es;
    PreciseEstimatesAreNear(last, offset, bound);
    MajorityBoundsMedian(w, offset - bound - 1, offset + bound + 1);
  }

  // ----- the handler of time messages -----

  class TimeSync {
    var now: int
    var lastTimeSync: int
    var timeout: int

    ghost predicate Valid()
      reads this
    {
      timeout == FAST_SYNC_LATENCY_BUF || timeout == NORMAL_SYNC_LATENCY_BUF
    }

    constructor ()
      ensures Valid() && lastTimeSync == 0
    {
      now, lastTimeSync, timeout := 0, 0, FAST_SYNC_LATENCY_BUF;
    }

    /** Computes the estimate handed to the filter, decides whether the filter is cleared before, and sets the
        pace of the next requests. `isFull` stands for what the filter answers after the insertion. */
    method TimeSyncMsgReceived(received: Tv, sent: Tv, latency: Tv, receivedCodecHeader: bool, isFull: bool)
      returns (cleared: bool, estimate: int, maxError: int, timeAdded: int)
      requires Valid()
      modifies this
      ensures Valid() && now == old(now) && lastTimeSync == now
      ensures cleared <==> now - old(lastTimeSync) > 60000000
      ensures timeAdded == received.sec * 1000000 + received.usec
      ensures forall e :: Reports(received, sent, latency, e) ==>
                && maxError == ErrorOf(e) && estimate == EstimateOf(e)
                && -(maxError + 1) <= estimate - e.offset <= maxError + 1
      ensures receivedCodecHeader ==> timeout == if isFull then 1000000 else 10000
      ensures !receivedCodecHeader ==> timeout == if cleared then 10000 else old(timeout)
    {
      var trx: int := received.sec * 1000000 + received.usec;
      var ttx: int := sent.sec * 1000000 + sent.usec;
      var tdif := trx - ttx;
      ttx := latency.sec * 1000000 + latency.usec;
      estimate := Half(ttx - tdif);
      cleared := false;
      if now - lastTimeSync > SYNC_LOST_AFTER {
        cleared := true;
        timeout := FAST_SYNC_LATENCY_BUF;
      }
      maxError := Half(tdif + ttx);
      timeAdded := trx;
      lastTimeSync := now;
      if receivedCodecHeader {
        if isFull && timeout < NORMAL_SYNC_LATENCY_BUF {
          timeout := NORMAL_SYNC_LATENCY_BUF;
        } else if !isFull && timeout > FAST_SYNC_LATENCY_BUF {
          timeout := FAST_SYNC_LATENCY_BUF;
        }
      }
      forall e | Reports(received, sent, latency, e)
        ensures maxError == ErrorOf(e) && estimate == EstimateOf(e)
        ensures -(maxError + 1) <= estimate - e.offset <= maxError + 1
      {
        EstimateIsBounded(e);
      }
    }
  }

  // ----- from time messages to published offsets -----

  /** A time message with what happens around it: when it is handled, whether a codec header has been seen, what the
      filter answers about being full, and whether the lock for publishing is free. */
  datatype Reply = Reply(received: Tv, sent: Tv, latency: Tv, now: int, header: bool, full: bool, locked: bool)

  /** More than a minute after the message before it. */
  predicate Clears(replies: seq<Reply>, j: nat)
    requires j < |replies|
  {
    replies[j].now - (if j == 0 then 0 else replies[j - 1].now) > 60000000
  }

  /** The first message since the filter was last cleared. */
  function Since(replies: seq<Reply>, j: nat): (k: nat)
    requires j < |replies|
    ensures k <= j
  {
    if Clears(replies, j) || j == 0 then j else Since(replies, j - 1)
  }

  lemma {:induction false} EstimatesStep(es: seq<Exchange>, e: Exchange)
    ensures Estimates(es + [e]) == Estimates(es) + [EstimateOf(e)]
  {
    if es == [] {
      assert [e][1..] == [];
    } else {
      assert (es + [e])[0] == es[0] && (es + [e])[1..] == es[1..] + [e];
      EstimatesStep(es[1..], e);
    }
  }

  lemma {:induction false} SmallEstimates(es: seq<Exchange>)
    requires forall e :: e in es ==> EstimateOf(e) < MedianRings.INT64_MAX
    ensures forall x :: x in Estimates(es) ==> x < MedianRings.INT64_MAX
  {
    hide EstimateOf;
    if es != [] {
      SmallEstimates(es[1..]);
    }
  }

  /** One time message: the estimate goes through the filter, and the median is published if the lock is free. The
      window holds the exchanges since the last clearing. */
  method HandleReply(sync: TimeSync, filter: MedianFilters.MedianFilter, r: Reply, before: int, ghost window: seq<Exchange>,
                     ghost e: Exchange, ghost offset: int, ghost bound: int)
    returns (latencyToServer: int, ghost window': seq<Exchange>)
    requires sync.Valid() && filter.Shape() && filter.numNodes % 2 == 1 && filter.numNodes > 1
    requires filter.Valid() && filter.MedianPlaced()
    requires filter.history == Estimates(window) && Reports(r.received, r.sent, r.latency, e)
    requires forall x :: x in window + [e] ==> x.offset == offset && EstimateOf(x) < MedianRings.INT64_MAX
    modifies sync, filter, filter.value, filter.nextAge, filter.nextValue, filter.prevValue
    ensures sync.Valid() && filter.Valid() && filter.MedianPlaced() && filter.history == Estimates(window')
    ensures sync.lastTimeSync == r.now
    ensures var cleared := r.now - old(sync.lastTimeSync) > 60000000;
      && window' == (if cleared then [] else window) + [e]
      && (r.locked && MostlyPrecise(window', filter.numNodes, bound) ==>
            offset - bound - 1 <= latencyToServer <= offset + bound + 1)
      && (!r.locked ==> latencyToServer == if cleared then 0 else before)
  {
    hide MostlyPrecise, MedianOf, Last, MedianFilters.MedianIsMarker, Reports, EstimateOf, ErrorOf, Estimates;
    hide MedianFilters.MedianFilter.Valid, MedianFilters.MedianFilter.MedianPlaced;
    latencyToServer, window' := before, window;
    assert e in window + [e];
    sync.now := r.now;
    var cleared, estimate, maxError, timeAdded := sync.TimeSyncMsgReceived(r.received, r.sent, r.latency, r.header, r.full);
    if cleared {
      var rc := filter.Init();
      latencyToServer, window' := 0, [];
      NoEstimates();
    }
    assert forall x :: x in window' + [e] ==> x in window + [e];
    SmallEstimates(window');
    MedianFilters.NoMarker(filter.history, filter.numNodes);
    EstimatesStep(window', e);
    window' := window' + [e];
    var median := filter.Insert(estimate);
    if r.locked {
      latencyToServer := median;
    }
    if MostlyPrecise(window', filter.numNodes, bound) {
      MedianOfEstimatesIsBounded(window', filter.numNodes, offset, bound);
    }
  }

  /** A publication that gets the lock, after which most of the window since the last clearing is precise, is within
      the bound of the true offset; without the lock the value published before stays, or the zero of a clearing. */
  ghost predicate WellPublished(es: seq<Exchange>, replies: seq<Reply>, published: seq<int>, j: nat,
                                n: nat, offset: int, bound: int)
    requires j < |es| == |replies| && j < |published|
  {
    && (replies[j].locked && MostlyPrecise(es[Since(replies, j)..j + 1], n, bound) ==>
          offset - bound - 1 <= published[j] <= offset + bound + 1)
    && (!replies[j].locked ==> published[j] == if Clears(replies, j) || j == 0 then 0 else published[j - 1])
  }

  lemma PublishedNext(es: seq<Exchange>, replies: seq<Reply>, published: seq<int>, value: int,
                      n: nat, offset: int, bound: int)
    requires var j := |published|;
      && j < |es| == |replies|
      && (replies[j].locked && MostlyPrecise(es[Since(replies, j)..j + 1], n, bound) ==>
            offset - bound - 1 <= value <= offset + bound + 1)
      && (!replies[j].locked ==> value == if Clears(replies, j) || j == 0 then 0 else published[j - 1])
    requires forall j :: 0 <= j < |published| ==> WellPublished(es, replies, published, j, n, offset, bound)
    ensures forall j :: 0 <= j < |published| + 1 ==>
              WellPublished(es, replies, published + [value], j, n, offset, bound)
  {
    hide MostlyPrecise, Since, Clears;
    forall j | 0 <= j < |published| + 1 ensures WellPublished(es, replies, published + [value], j, n, offset, bound) {
      if j < |published| {
        assert WellPublished(es, replies, published, j, n, offset, bound);
      }
    }
  }

  /** End to end, through the handler of time messages and the median filter, with publications that may fail. */
  method PublishedOffsets(es: seq<Exchange>, replies: seq<Reply>, n: nat, offset: int, bound: int)
    returns (published: seq<int>)
    requires n % 2 == 1 && n > 1 && |replies| == |es|
    requires forall j :: 0 <= j < |es| ==> es[j].offset == offset && EstimateOf(es[j]) < MedianRings.INT64_MAX
    requires forall j :: 0 <= j < |es| ==> Reports(replies[j].received, replies[j].sent, replies[j].latency, es[j])
    ensures |published| == |es|
    ensures forall j :: 0 <= j < |es| ==>
              WellPublished(es, replies, published, j, n, offset, bound)
  {
    hide MostlyPrecise, Reports, EstimateOf, Estimates, TimeSync.Valid, WellPublished;
    hide MedianFilters.MedianFilter.Valid, MedianFilters.MedianFilter.MedianPlaced;
    var sync := new TimeSync();
    var filter := new MedianFilters.MedianFilter(n);
    var rc := filter.Init();
    var latencyToServer := 0;
    ghost var window: seq<Exchange> := [];
    NoEstimates();
    published := [];
    for i := 0 to |es|
      invariant |published| == i && (if i == 0 then window == [] else window == es[Since(replies, i - 1)..i])
      invariant sync.Valid() && sync.lastTimeSync == (if i == 0 then 0 else replies[i - 1].now)
      invariant filter.Valid() && filter.MedianPlaced() && filter.numNodes == n && filter.history == Estimates(window)
      invariant fresh(sync) && fresh(filter) && fresh(filter.value) && fresh(filter.nextAge)
      invariant fresh(filter.nextValue) && fresh(filter.prevValue)
      invariant latencyToServer == if i == 0 then 0 else published[i - 1]
      invariant forall j :: 0 <= j < i ==>
                  WellPublished(es, replies, published, j, n, offset, bound)
    {
      latencyToServer, window := HandleReply(sync, filter, replies[i], latencyToServer, window, es[i], offset, bound);
      assert window == es[Since(replies, i)..i + 1];
      PublishedNext(es, replies, published, latencyToServer, n, offset, bound);
      published := published + [latencyToServer];
    }
  }

  lemma NoEstimates()
    ensures Estimates([]) == []
  {
  }
}
