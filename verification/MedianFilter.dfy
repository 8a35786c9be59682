/** The sliding-window median filter: one node array, linked in place by age and by value. A node pointer
    is the node's index in the array; the fields of the node struct are parallel arrays. */
module MedianFilters {
  import opened OrderStatistics
  import opened MedianRings

  /** What the value field holds for an entry of the window. */
  function Stored(sample: int): int {
    if sample == UNFILLED then INT64_MAX else sample
  }

  /** The one window for which the strict comparison of the transition to a full buffer goes wrong. */
  ghost predicate MedianIsMarker(history: seq<int>, n: nat) {
    |history| == n - 1 && history != [] && MedianOf(history) == INT64_MAX
  }

  /** Below the marker value the condition under which the filter goes wrong cannot arise. */
  lemma NoMarker(history: seq<int>, n: nat)
    requires forall x :: x in history ==> x < INT64_MAX
    ensures !MedianIsMarker(history, n)
  {
    if history != [] {
      SortedHasSameElements(history);
      assert MedianOf(history) in history;
    }
  }

  ghost predicate Covers(ring: seq<nat>, n: nat) {
    forall k :: 0 <= k < n ==> k in ring
  }

  lemma CoversStep(ring: seq<nat>, n: nat, p: nat, i: nat)
    requires Covers(ring, n) && p < |ring| && i < |ring|
    ensures Covers(InsertAt(RemoveAt(ring, p), i, ring[p]), n)
  {
    var rest := RemoveAt(ring, p);
    var out := InsertAt(rest, i, ring[p]);
    forall k | 0 <= k < n ensures k in out {
      assert k in ring;
      var q :| 0 <= q < |ring| && ring[q] == k;
      if q == p {
        assert out[i] == k;
      } else {
        var r := if q < p then q else q - 1;
        assert rest[r] == k;
        assert out[if r < i then r else r + 1] == k;
      }
    }
  }

  /** The rings of a filter over n nodes after the samples of history. */
  ghost predicate RingsHold(ring: seq<nat>, age: nat, history: seq<int>, n: nat) {
    && n % 2 == 1 && n > 1
    && age < n
    && |ring| == n && Distinct(ring, n) && Covers(ring, n)
    && (forall x :: x in history ==> x <= INT64_MAX)
    && Ordered(ring, age, Padded(history, n))
    && multiset(Samples(ring, age, Padded(history, n))) == multiset(Padded(history, n))
  }

  /** Where the oldest node stands relative to the median, decided by the code's comparison of values. */
  lemma OldestAgainstMedian(ring: seq<nat>, age: nat, history: seq<int>, n: nat, p: nat)
    requires RingsHold(ring, age, history, n) && p < n && ring[p] == age
    ensures |history| < n ==> p == |history|
    ensures |history| >= n ==>
      var w, med := Padded(history, n), ring[n / 2];
      (age == med || w[0] > w[Arrival(med, age, n)]) <==> n / 2 <= p
  {
    var w, m := Padded(history, n), n / 2;
    RingIsSortedWindow(ring, age, history, n);
    var s := Samples(ring, age, w);
    assert s[p] == w[0];
    if |history| < n {
      assert Last(history, n) == history;
      SortedHasSameElements(history);
      assert forall q :: 0 <= q < |history| ==> s[q] <= INT64_MAX;
      assert s[|history|] == UNFILLED;
    }
    assert forall q :: 0 <= q < p ==> Precedes(ring[q], ring[p], age, w);
    assert forall q :: p < q < n ==> Precedes(ring[p], ring[q], age, w);
  }

  lemma RingsShape(ring: seq<nat>, age: nat, history: seq<int>, n: nat)
    requires RingsHold(ring, age, history, n)
    ensures n > 1 && n % 2 == 1 && age < n && |ring| == n && Distinct(ring, n)
    ensures forall x :: |Last(history + [x], n)| == if |history| < n then |history| + 1 else n
    ensures |Last(history, n)| == if |history| < n then |history| else n
  {
  }

  lemma PlaceOf(ring: seq<nat>, age: nat, history: seq<int>, n: nat, k: nat) returns (p: nat)
    requires RingsHold(ring, age, history, n) && k < n
    ensures |ring| == n && p < n && ring[p] == k
  {
    assert k in ring;
    p :| 0 <= p < n && ring[p] == k;
  }

  /** One insertion on the level of the rings. */
  lemma RingsStep(ring: seq<nat>, age: nat, history: seq<int>, n: nat, p: nat, i: nat, x: int)
    requires RingsHold(ring, age, history, n) && p < n && ring[p] == age && i < n && x <= INT64_MAX
    requires forall q :: 0 <= q < i ==> Padded(history, n)[Arrival(RemoveAt(ring, p)[q], age, n)] <= x
    requires i < n - 1 ==> x < Padded(history, n)[Arrival(RemoveAt(ring, p)[i], age, n)]
    ensures RingsHold(InsertAt(RemoveAt(ring, p), i, age), Succ(age, n), history + [x], n)
  {
    var w := Padded(history, n);
    var out := InsertAt(RemoveAt(ring, p), i, age);
    PaddedStep(history, n, x);
    OrderedStep(ring, age, w, p, i, x);
    SamplesStep(ring, age, w, p, i, x);
    MultisetStep(Samples(ring, age, w), w, p, i, x);
    CoversStep(ring, n, p, i);
  }

  /** The first |Last| places of the value ring hold samples, the others unfilled nodes. */
  lemma FilledPlaces(ring: seq<nat>, age: nat, history: seq<int>, n: nat, q: nat)
    requires RingsHold(ring, age, history, n) && q < n
    ensures var v := Padded(history, n)[Arrival(ring[q], age, n)];
      if q < |Last(history, n)| then v <= INT64_MAX && v == Sorted(Last(history, n))[q] else v == UNFILLED
  {
    var last := Last(history, n);
    RingIsSortedWindow(ring, age, history, n);
    SortedHasSameElements(last);
    assert forall v :: v in last ==> v in history;
    assert Samples(ring, age, Padded(history, n))[q] == Padded(history, n)[Arrival(ring[q], age, n)];
    if q < |last| {
      assert Sorted(last)[q] in last;
    }
  }

  /** The other nodes, without the oldest: the places below the number of samples that stay are filled. */
  lemma RestFilled(ring: seq<nat>, age: nat, history: seq<int>, n: nat, p: nat, q: nat)
    requires RingsHold(ring, age, history, n) && p < n && ring[p] == age && q < n - 1
    ensures var v := Padded(history, n)[Arrival(RemoveAt(ring, p)[q], age, n)];
      if q < |history| then v <= INT64_MAX else v == UNFILLED
  {
    OldestAgainstMedian(ring, age, history, n, p);
    FilledPlaces(ring, age, history, n, if q < p then q else q + 1);
  }

  /** The position found by value comparison among the filled nodes sorts the new sample in. */
  lemma PositionSorts(ring: seq<nat>, age: nat, history: seq<int>, n: nat, p: nat, i: nat, x: int)
    requires RingsHold(ring, age, history, n) && p < n && ring[p] == age && x <= INT64_MAX
    requires i < n && i <= |history|
    requires forall q :: 0 <= q < i ==> Stored(Padded(history, n)[Arrival(RemoveAt(ring, p)[q], age, n)]) <= x
    requires i < n - 1 && i < |history| ==> x < Stored(Padded(history, n)[Arrival(RemoveAt(ring, p)[i], age, n)])
    ensures forall q :: 0 <= q < i ==> Padded(history, n)[Arrival(RemoveAt(ring, p)[q], age, n)] <= x
    ensures i < n - 1 ==> x < Padded(history, n)[Arrival(RemoveAt(ring, p)[i], age, n)]
  {
    RingsShape(ring, age, history, n);
    hide RingsHold, Padded, Arrival;
    var w, rest := Padded(history, n), RemoveAt(ring, p);
    forall q | 0 <= q < i ensures w[Arrival(rest[q], age, n)] <= x {
      RestFilled(ring, age, history, n, p, q);
    }
    if i < n - 1 {
      RestFilled(ring, age, history, n, p, i);
    }
  }

  /** Every node stores its entry of the window. */
  ghost predicate ValuesHold(vals: seq<int>, age: nat, history: seq<int>, n: nat) {
    && |vals| == n && age < n
    && (forall k :: 0 <= k < n ==> vals[k] == Stored(Padded(history, n)[Arrival(k, age, n)]))
  }

  lemma ValuesStep(vals: seq<int>, age: nat, history: seq<int>, n: nat, x: int)
    requires ValuesHold(vals, age, history, n) && x <= INT64_MAX
    ensures ValuesHold(vals[age := x], Succ(age, n), history + [x], n)
  {
    var w := Padded(history, n);
    PaddedStep(history, n, x);
    forall k | 0 <= k < n && k != age
      ensures vals[k] == Stored(Padded(history + [x], n)[Arrival(k, Succ(age, n), n)])
    {
      ArrivalStep(k, age, w, x);
    }
  }

  /** The q-th node of the value ring stores the q-th smallest sample of the window. */
  lemma StoredInOrder(ring: seq<nat>, age: nat, history: seq<int>, n: nat, vals: seq<int>, q: nat)
    requires RingsHold(ring, age, history, n) && ValuesHold(vals, age, history, n) && q < |Last(history, n)|
    ensures ring[q] < n && vals[ring[q]] == Sorted(Last(history, n))[q] <= INT64_MAX
  {
    FilledPlaces(ring, age, history, n, q);
  }

  /** Reading the value ring at place q and stepping to its neighbours. */
  lemma WalkAt(ring: seq<nat>, age: nat, history: seq<int>, n: nat, vals: seq<int>, next: seq<nat>, prev: seq<nat>,
               q: nat)
    requires RingsHold(ring, age, history, n) && ValuesHold(vals, age, history, n)
    requires Linked(next, prev, ring) && |next| == n && q < |Last(history, n)|
    ensures |ring| == n && ring[q] < n && vals[ring[q]] == Sorted(Last(history, n))[q]
    ensures next[ring[q]] == ring[Succ(q, n)] && prev[ring[q]] == ring[Pred(q, n)]
    ensures next[ring[q]] < n && prev[ring[q]] < n
  {
    StoredInOrder(ring, age, history, n, vals, q);
    assert LinkedAt(next, prev, ring, q);
  }

  /** Where the node at place m stands after the node at place p has moved to place i. */
  function PlaceAfterMove(m: nat, p: nat, i: nat): nat {
    if m == p then i else
      var r := if m < p then m else m - 1;
      if r < i then r else r + 1
  }

  lemma NodeKeepsItsPlace(ring: seq<nat>, m: nat, p: nat, i: nat)
    requires m < |ring| && p < |ring| && i < |ring|
    ensures PlaceAfterMove(m, p, i) < |ring|
    ensures InsertAt(RemoveAt(ring, p), i, ring[p])[PlaceAfterMove(m, p, i)] == ring[m]
  {
  }

  lemma HeadAfterMove(rest: seq<nat>, i: nat, a: nat)
    requires rest != [] && i <= |rest|
    ensures InsertAt(rest, i, a)[0] == if i == 0 then a else rest[0]
  {
  }

  /** Where the median head ends up when it stood at place r after the splice at place i. */
  function AdjustedPlace(r: nat, i: nat, cnt: nat, n: nat): (f: nat)
    requires r < n
    ensures f < n
  {
    var r1 := if cnt < n && cnt % 2 != 0 && cnt != 1 then Pred(r, n) else r;
    var up := if cnt < n then (i > cnt / 2 && cnt % 2 != 0) || (i >= cnt / 2 && cnt % 2 == 0) else i >= cnt / 2;
    if up then Succ(r1, n) else r1
  }

  /** The head stays at rank cnt/2: the step back, the splice and the adjustment cancel out. */
  lemma MedianPlaceStep(k: nat, n: nat, p: nat, i: nat, back: bool)
    requires n % 2 == 1 && n > 1 && p < n && i < n && i <= k
    requires k < n ==> p == k
    requires k < n - 1 ==> !back
    requires k >= n ==> (back <==> n / 2 <= p)
    ensures var m, cnt := (if k < n then k else n) / 2, if k < n then k + 1 else n;
      var f := AdjustedPlace(PlaceAfterMove(if back then Pred(m, n) else m, p, i), i, cnt, n);
      && (k != n - 1 || back ==> f == cnt / 2)
      && (k == n - 1 && !back ==> f != cnt / 2 && (n >= 5 ==> PlaceAfterMove(m, p, i) <= f))
  {
  }

  /** The code's test for stepping the median head back, in terms of places. */
  lemma StepBackTest(ring: seq<nat>, age: nat, history: seq<int>, n: nat, p: nat, vals: seq<int>)
    requires RingsHold(ring, age, history, n) && ValuesHold(vals, age, history, n)
    requires p < n && ring[p] == age && |history| >= n - 1
    ensures var med := ring[|Last(history, n)| / 2];
      (age == med || vals[age] > vals[med]) <==>
        if |history| >= n then n / 2 <= p else !MedianIsMarker(history, n)
  {
    var m := |Last(history, n)| / 2;
    OldestAgainstMedian(ring, age, history, n, p);
    SamePlace(ring, n, p, m);
    FilledPlaces(ring, age, history, n, m);
    FilledPlaces(ring, age, history, n, p);
    assert Arrival(age, age, n) == 0;
    if |history| < n {
      assert Last(history, n) == history;
    }
  }

  /** Value ring and stored values after the splice found by comparing stored values. */
  lemma SpliceStep(ring: seq<nat>, age: nat, history: seq<int>, n: nat, p: nat, i: nat, x: int, vals: seq<int>)
    requires RingsHold(ring, age, history, n) && ValuesHold(vals, age, history, n)
    requires p < n && ring[p] == age && x <= INT64_MAX && i < n && i <= |history|
    requires forall q :: 0 <= q < i ==> vals[age := x][RemoveAt(ring, p)[q]] <= x
    requires i < n - 1 && i < |history| ==> x < vals[age := x][RemoveAt(ring, p)[i]]
    ensures RingsHold(InsertAt(RemoveAt(ring, p), i, age), Succ(age, n), history + [x], n)
    ensures ValuesHold(vals[age := x], Succ(age, n), history + [x], n)
  {
    var rest := RemoveAt(ring, p);
    RemoveAtIsDistinct(ring, n, p);
    ValuesStep(vals, age, history, n, x);
    forall q | 0 <= q < n - 1
      ensures vals[age := x][rest[q]] == Stored(Padded(history, n)[Arrival(rest[q], age, n)])
    {
      assert rest[q] in rest;
    }
    PositionSorts(ring, age, history, n, p, i, x);
    RingsStep(ring, age, history, n, p, i, x);
  }

  /** From the place of a node that stores the marker value on, every place does. */
  lemma MarkerFromPlace(ring: seq<nat>, age: nat, history: seq<int>, n: nat, vals: seq<int>, q: nat, f: nat)
    requires RingsHold(ring, age, history, n) && ValuesHold(vals, age, history, n)
    requires |history| == n && q <= f < n && vals[ring[q]] == INT64_MAX
    ensures vals[ring[f]] == INT64_MAX
  {
    StoredInOrder(ring, age, history, n, vals, q);
    StoredInOrder(ring, age, history, n, vals, f);
    SortedIsAscendingPermutation(Last(history, n));
  }

  /** The state of the rings before and after one insertion, with the facts the insertion establishes. */
  ghost predicate Inserted(ring: seq<nat>, age: nat, history: seq<int>, n: nat, p: nat, vals: seq<int>, back: bool,
                           i: nat, x: int, ring': seq<nat>, age': nat, vals': seq<int>)
  {
    && RingsHold(ring, age, history, n) && ValuesHold(vals, age, history, n) && p < n && ring[p] == age
    && RingsHold(ring', age', history + [x], n) && ValuesHold(vals', age', history + [x], n)
    && i < n && i <= |history|
    && var m := |Last(history, n)| / 2;
    && back == (|history| + 1 >= n && (p == m || vals[ring[p]] > vals[ring[m]]))
    && PlaceAfterMove(m, p, i) < n
    && (m != p && !back ==> vals'[ring'[PlaceAfterMove(m, p, i)]] == vals[ring[m]])
  }

  function FinalPlace(history: seq<int>, n: nat, p: nat, i: nat, back: bool): (f: nat)
    requires p < n && i < n && n > 1
    ensures f < n
  {
    var m := |Last(history, n)| / 2;
    AdjustedPlace(PlaceAfterMove(if back then Pred(m, n) else m, p, i), i,
                  if |history| < n then |history| + 1 else n, n)
  }

  /** Unless the last median was the marker value, a correct median head stays correct. */
  lemma MedianStaysPlaced(ring: seq<nat>, age: nat, history: seq<int>, n: nat, p: nat, vals: seq<int>, back: bool,
                          i: nat, x: int, ring': seq<nat>, age': nat, vals': seq<int>)
    requires Inserted(ring, age, history, n, p, vals, back, i, x, ring', age', vals')
    requires !MedianIsMarker(history, n)
    ensures FinalPlace(history, n, p, i, back) == |Last(history + [x], n)| / 2
    ensures vals'[ring'[FinalPlace(history, n, p, i, back)]] == MedianOf(Last(history + [x], n))
  {
    hide RingsHold, ValuesHold, MedianIsMarker, AdjustedPlace, PlaceAfterMove;
    RingsShape(ring, age, history, n);
    StepBackIsRight(ring, age, history, n, p, vals, back);
    MedianPlaceStep(|history|, n, p, i, back);
    StoredInOrder(ring', age', history + [x], n, vals', |Last(history + [x], n)| / 2);
  }

  /** Unless the median is the marker, the head is stepped back exactly when the window is full, or getting full, and
      the oldest node does not stand before the median. */
  lemma StepBackIsRight(ring: seq<nat>, age: nat, history: seq<int>, n: nat, p: nat, vals: seq<int>, back: bool)
    requires RingsHold(ring, age, history, n) && ValuesHold(vals, age, history, n) && p < n && ring[p] == age
    requires !MedianIsMarker(history, n)
    requires var m := |Last(history, n)| / 2; back == (|history| + 1 >= n && (p == m || vals[ring[p]] > vals[ring[m]]))
    ensures |history| < n ==> p == |history|
    ensures |history| < n - 1 ==> !back
    ensures |history| >= n ==> (back <==> n / 2 <= p)
    ensures |history| == n - 1 ==> back
  {
    hide ValuesHold, MedianIsMarker;
    var m := |Last(history, n)| / 2;
    OldestAgainstMedian(ring, age, history, n, p);
    SamePlace(ring, n, p, m);
    if |history| >= n - 1 {
      StepBackTest(ring, age, history, n, p, vals);
    }
  }

  /** When it was, the head is not stepped back and ends up beyond the median. */
  lemma MedianMisplaced(ring: seq<nat>, age: nat, history: seq<int>, n: nat, p: nat, vals: seq<int>, back: bool,
                        i: nat, x: int, ring': seq<nat>, age': nat, vals': seq<int>)
    requires Inserted(ring, age, history, n, p, vals, back, i, x, ring', age', vals')
    requires MedianIsMarker(history, n)
    ensures |history| == n - 1
    ensures FinalPlace(history, n, p, i, back) != n / 2
    ensures ring'[FinalPlace(history, n, p, i, back)] != ring'[n / 2]
    ensures n >= 5 ==> vals'[ring'[FinalPlace(history, n, p, i, back)]] == INT64_MAX
  {
    var m, f := |history| / 2, FinalPlace(history, n, p, i, back);
    assert Last(history, n) == history;
    OldestAgainstMedian(ring, age, history, n, p);
    SamePlace(ring, n, p, m);
    StepBackTest(ring, age, history, n, p, vals);
    MedianPlaceStep(|history|, n, p, i, back);
    SamePlace(ring', n, f, n / 2);
    StoredInOrder(ring, age, history, n, vals, m);
    if n >= 5 {
      MarkerFromPlace(ring', age', history + [x], n, vals', PlaceAfterMove(m, p, i), f);
    }
  }

  /** The even number of neighbours averaged around the median (32-bit unsigned arithmetic): as many as asked for and
      there are, unless there are more than two thousand million. */
  function AverageWidth(n: nat, cnt: nat): (w: nat)
    requires cnt > 0
    ensures w % 2 == 0 && w < cnt
    ensures n < cnt || cnt <= 0x8000_0000 ==> w <= n && (n < w + 2 || cnt <= w + 2)
  {
    var w := if n >= cnt then ((cnt - 1) * 2 % 0x1_0000_0000) / 2 else n;
    if w % 2 != 0 then w - 1 else w
  }

  /** Division that rounds towards zero. */
  function TruncatedQuotient(a: int, b: int): int
    requires b > 0
  {
    if a >= 0 then a / b else -(-a / b)
  }

  lemma QuotientIsTruncated(a: int, b: int)
    requires b > 0
    ensures var q := TruncatedQuotient(a, b);
      (a >= 0 ==> q * b <= a < q * b + b) && (a <= 0 ==> q * b - b < a <= q * b)
  {
    assert a == b * (a / b) + a % b;
    assert -a == b * (-a / b) + -a % b;
  }

  function Sum(s: seq<int>): int {
    if s == [] then 0 else s[0] + Sum(s[1..])
  }

  lemma {:induction false} SumAppend(s: seq<int>, x: int)
    ensures Sum(s + [x]) == Sum(s) + x
  {
    if s != [] {
      SumAppend(s[1..], x);
      assert (s + [x])[1..] == s[1..] + [x];
    }
  }

  lemma SumOfNothing(s: seq<int>, k: nat)
    requires k <= |s|
    ensures Sum(s[k..k]) == 0
  {
  }

  lemma SumOfPrevious(s: seq<int>, lo: nat, hi: nat)
    requires lo < hi <= |s|
    ensures Sum(s[lo..hi]) == s[lo] + Sum(s[lo + 1..hi])
  {
    assert s[lo..hi][1..] == s[lo + 1..hi];
  }

  lemma SumOfNext(s: seq<int>, lo: nat, hi: nat)
    requires lo <= hi < |s|
    ensures Sum(s[lo..hi + 1]) == Sum(s[lo..hi]) + s[hi]
  {
    assert s[lo..hi + 1] == s[lo..hi] + [s[hi]];
    SumAppend(s[lo..hi], s[hi]);
  }

  lemma {:induction false} SumAround(s: seq<int>, m: nat, half: nat)
    requires half <= m && m + half < |s|
    ensures Sum(s[m - half..m + half + 1]) == Sum(s[m - half..m]) + s[m] + Sum(s[m + 1..m + 1 + half])
    decreases half
  {
    if half == 0 {
      assert s[m..m + 1] == [s[m]];
    } else {
      SumAround(s, m, half - 1);
      assert s[m - half..m + half + 1][1..] == s[m - half + 1..m + half + 1];
      assert s[m - half..m][1..] == s[m - half + 1..m];
      SumOfNext(s, m - half + 1, m + half);
      SumOfNext(s, m + 1, m + half);
    }
  }

  class MedianFilter {
    const numNodes: nat
    const value: array<int>
    const nextAge: array<nat>
    const nextValue: array<nat>
    const prevValue: array<nat>
    var ageHead: nat
    var valueHead: nat
    var medianHead: nat
    var bufferCnt: nat
    ghost var ring: seq<nat>     // the value ring, read from valueHead
    ghost var history: seq<int>  // all samples since Init

    ghost predicate Shape() {
      && value.Length == nextAge.Length == nextValue.Length == prevValue.Length == numNodes
      && nextAge != nextValue && nextAge != prevValue && nextValue != prevValue
      && value as object != nextAge && value as object != nextValue && value as object != prevValue
    }

    /** Both rings are well formed and agree with the samples inserted so far. */
    ghost predicate Valid()
      reads this, value, nextAge, nextValue, prevValue
    {
      && Shape()
      && RingsHold(ring, ageHead, history, numNodes)
      && bufferCnt == |Last(history, numNodes)|
      && medianHead < numNodes
      && (forall k :: 0 <= k < numNodes ==> nextAge[k] == Succ(k, numNodes))
      && Linked(nextValue[..], prevValue[..], ring) && valueHead == ring[0]
      && ValuesHold(value[..], ageHead, history, numNodes)
    }

    /** The median head stands bufferCnt/2 steps from the value head. */
    ghost predicate MedianPlaced()
      requires Valid()
      reads this, value, nextAge, nextValue, prevValue
    {
      medianHead == ring[bufferCnt / 2]
    }

    /** The storage handed to Init: numNodes nodes of arbitrary content. */
    constructor (n: nat)
      ensures Shape() && numNodes == n
      ensures fresh(value) && fresh(nextAge) && fresh(nextValue) && fresh(prevValue)
    {
      numNodes := n;
      value := new int[n];
      nextAge := new nat[n];
      nextValue := new nat[n];
      prevValue := new nat[n];
      ageHead, valueHead, medianHead, bufferCnt := 0, 0, 0, 0;
      ring, history := [], [];
    }

    method Init() returns (rc: int)
      requires Shape()
      modifies this, value, nextAge, nextValue, prevValue
      ensures Shape()
      ensures rc == if numNodes % 2 == 1 && numNodes > 1 then 0 else -1
      ensures rc == 0 ==> Valid() && MedianPlaced() && history == []
      ensures rc != 0 ==> unchanged(this) && unchanged(value) && unchanged(nextAge)
                          && unchanged(nextValue) && unchanged(prevValue)
    {
      if numNodes % 2 == 1 && numNodes > 1 {
        var i := 0;
        while i < numNodes
          invariant 0 <= i <= numNodes
          invariant forall k :: 0 <= k < i ==> value[k] == INT64_MAX
          invariant forall k :: 0 <= k < i ==> nextAge[k] == Succ(k, numNodes)
          invariant forall k :: 0 <= k < i ==> nextValue[k] == Succ(k, numNodes)
          invariant forall k :: 0 <= k < i ==> prevValue[Succ(k, numNodes)] == k
        {
          var next := (i + 1) % numNodes;
          SuccIsMod(i, numNodes);
          value[i] := INT64_MAX;
          nextAge[i] := next;
          nextValue[i] := next;
          prevValue[next] := i;
          i := i + 1;
        }
        ageHead, valueHead, medianHead := 0, 0, 0;
        bufferCnt := 0;
        ring, history := seq(numNodes, k => k), [];
        InitialRings(numNodes);
        InitialLinks(nextValue[..], prevValue[..]);
        return 0;
      }
      return -1;
    }

    static lemma SuccIsMod(i: nat, n: nat)
      requires i < n
      ensures (i + 1) % n == Succ(i, n)
    {
    }

    static lemma InitialLinks(next: seq<nat>, prev: seq<nat>)
      requires |next| == |prev|
      requires forall k :: 0 <= k < |next| ==> next[k] == Succ(k, |next|) && prev[Succ(k, |next|)] == k
      ensures Linked(next, prev, seq(|next|, k => k))
    {
      var n := |next|;
      var ring := seq(n, k => k);
      forall q | 0 <= q < n ensures LinkedAt(next, prev, ring, q) {
        assert Succ(Pred(q, n), n) == q;
        assert prev[Succ(Pred(q, n), n)] == Pred(q, n);
      }
    }

    static lemma InitialRings(n: nat)
      requires n % 2 == 1 && n > 1
      ensures RingsHold(seq(n, k => k), 0, [], n)
    {
      var ring, w := seq(n, k => k), Padded([], n);
      forall k | 0 <= k < n ensures k in ring {
        assert ring[k] == k;
      }
      assert Samples(ring, 0, w) == w;
    }

    /** Takes node a out of the value ring. */
    method Unlink(a: nat, ghost cycle: seq<nat>, ghost p: nat)
      requires Shape() && Linked(nextValue[..], prevValue[..], cycle) && p < |cycle| && cycle[p] == a
      modifies nextValue, prevValue
      ensures Linked(nextValue[..], prevValue[..], RemoveAt(cycle, p))
    {
      UnlinkKeepsRing(nextValue[..], prevValue[..], cycle, p);
      ghost var next: seq<nat>, prev: seq<nat> := nextValue[..], prevValue[..];
      prevValue[nextValue[a]] := prevValue[a];
      nextValue[prevValue[a]] := nextValue[a];
      assert prevValue[..] == prev[next[a] := prev[a]];
      assert nextValue[..] == next[prev[a] := next[a]];
    }

    /** Finds the first node whose sample exceeds the new one, among the first `limit` nodes. */
    method FindPosition(sample: int, limit: nat, ghost cycle: seq<nat>) returns (it: nat, i: nat)
      requires Shape() && Linked(nextValue[..], prevValue[..], cycle)
      requires cycle != [] && valueHead == cycle[0] && limit <= |cycle|
      ensures i <= limit && it == cycle[if i == |cycle| then 0 else i]
      ensures forall q :: 0 <= q < i ==> value[cycle[q]] <= sample
      ensures i < limit ==> sample < value[cycle[i]]
    {
      it := valueHead;
      i := 0;
      while i < limit
        invariant i <= limit && it == cycle[if i == |cycle| then 0 else i]
        invariant forall q :: 0 <= q < i ==> value[cycle[q]] <= sample
      {
        if sample < value[it] {
          break;
        }
        assert LinkedAt(nextValue[..], prevValue[..], cycle, i);
        it := nextValue[it];
        i := i + 1;
      }
    }

    /** Puts node a back into the value ring, in front of node it. */
    method LinkBefore(it: nat, a: nat, ghost cycle: seq<nat>, ghost i: nat)
      requires Shape() && Linked(nextValue[..], prevValue[..], cycle)
      requires i <= |cycle| && cycle != [] && it == cycle[if i == |cycle| then 0 else i]
      requires a < numNodes && a !in cycle
      modifies nextValue, prevValue
      ensures Linked(nextValue[..], prevValue[..], InsertAt(cycle, i, a))
    {
      LinkBeforeKeepsRing(nextValue[..], prevValue[..], cycle, i, a);
      ghost var next: seq<nat>, prev: seq<nat> := nextValue[..], prevValue[..];
      nextValue[prevValue[it]] := a;
      prevValue[a] := prevValue[it];
      prevValue[it] := a;
      nextValue[a] := it;
      assert it in cycle && it != a;
      assert prevValue[..] == prev[a := prev[it]][it := a];
      assert nextValue[..] == next[prev[it] := a][a := it];
    }

    /** Overwrites the oldest sample and moves its node to its new place in the value ring. */
    method MoveOldest(sample: int, ghost p: nat, ghost m: nat) returns (i: nat)
      requires Shape() && RingsHold(ring, ageHead, history, numNodes) && sample <= INT64_MAX
      requires p < numNodes && ring[p] == ageHead && m < numNodes && ring[m] == medianHead
      requires Linked(nextValue[..], prevValue[..], ring)
      requires ValuesHold(value[..], ageHead, history, numNodes)
      requires forall k :: 0 <= k < numNodes ==> nextAge[k] == Succ(k, numNodes)
      requires bufferCnt == |Last(history + [sample], numNodes)|
      requires valueHead == RemoveAt(ring, p)[0]
      modifies this`ageHead, this`valueHead, this`ring, this`history, value, nextValue, prevValue
      ensures i < numNodes && i <= |old(history)|
      ensures history == old(history) + [sample] && ageHead == Succ(old(ageHead), numNodes)
      ensures medianHead == old(medianHead) && bufferCnt == old(bufferCnt)
      ensures RingsHold(ring, ageHead, history, numNodes) && valueHead == ring[0]
      ensures PlaceAfterMove(m, p, i) < numNodes && medianHead == ring[PlaceAfterMove(m, p, i)]
      ensures m != p ==> value[medianHead] == old(value[medianHead])
      ensures Linked(nextValue[..], prevValue[..], ring)
      ensures ValuesHold(value[..], ageHead, history, numNodes)
    {
      hide RingsHold, ValuesHold, Linked, Distinct, PlaceAfterMove, InsertAt, RemoveAt, Last, Succ;
      RingsShape(ring, ageHead, history, numNodes);
      ghost var rest, vals, age := RemoveAt(ring, p), value[..], ageHead;
      RemoveAtIsDistinct(ring, numNodes, p);
      var newNode := ageHead;
      value[newNode] := sample;
      assert value[..] == vals[age := sample];
      Unlink(ageHead, ring, p);
      ageHead := nextAge[ageHead];
      var it;
      it, i := FindPosition(sample, bufferCnt - 1, rest);
      if i == 0 {
        valueHead := newNode;
      }
      LinkBefore(it, newNode, rest, i);
      SpliceStep(ring, age, history, numNodes, p, i, sample, vals);
      NodeKeepsItsPlace(ring, m, p, i);
      SamePlace(ring, numNodes, m, p);
      HeadAfterMove(rest, i, newNode);
      ring := InsertAt(rest, i, newNode);
      history := history + [sample];
    }

    /** The correction of the median head after the splice at place i, for a head at place r of the ring. */
    method AdjustMedian(i: nat, ghost r: nat)
      requires Shape() && |ring| == numNodes && r < numNodes && medianHead == ring[r]
      requires Linked(nextValue[..], prevValue[..], ring)
      modifies this`medianHead
      ensures medianHead == ring[AdjustedPlace(r, i, bufferCnt, numNodes)] && medianHead < numNodes
    {
      assert LinkedAt(nextValue[..], prevValue[..], ring, r);
      assert LinkedAt(nextValue[..], prevValue[..], ring, Pred(r, numNodes));
      if bufferCnt < numNodes {
        if bufferCnt % 2 != 0 && bufferCnt != 1 {
          medianHead := prevValue[medianHead];
        }
        if (i > bufferCnt / 2 && bufferCnt % 2 != 0) || (i >= bufferCnt / 2 && bufferCnt % 2 == 0) {
          medianHead := nextValue[medianHead];
        }
      } else if i >= bufferCnt / 2 {
        medianHead := nextValue[medianHead];
      }
    }

    /** Counts the sample, moves the value head off the oldest node and steps the median head back. */
    method PrepareHeads(ghost p: nat, ghost m: nat) returns (ghost back: bool)
      requires Valid() && p < numNodes && ring[p] == ageHead && m < numNodes && ring[m] == medianHead
      modifies this`bufferCnt, this`valueHead, this`medianHead
      ensures bufferCnt == if |history| < numNodes then |history| + 1 else numNodes
      ensures valueHead == RemoveAt(ring, p)[0]
      ensures medianHead == ring[if back then Pred(m, numNodes) else m]
      ensures ring == old(ring) && history == old(history) && ageHead == old(ageHead)
      ensures back == (bufferCnt >= numNodes && (p == m || value[ring[p]] > value[ring[m]]))
    {
      assert LinkedAt(nextValue[..], prevValue[..], ring, 0);
      assert LinkedAt(nextValue[..], prevValue[..], ring, m);
      SamePlace(ring, numNodes, p, 0);
      SamePlace(ring, numNodes, p, m);
      if bufferCnt < numNodes {
        bufferCnt := bufferCnt + 1;
      }
      // if the oldest node is also the smallest, advance the value head
      if ageHead == valueHead {
        valueHead := nextValue[valueHead];
      }
      // prepare the median correction
      back := false;
      if (ageHead == medianHead || value[ageHead] > value[medianHead]) && bufferCnt >= numNodes {
        medianHead := prevValue[medianHead];
        back := true;
      }
    }

    /** Everything but the last correction of the median head. */
    method ReplaceOldest(sample: int, ghost p: nat, ghost m: nat) returns (i: nat, ghost back: bool)
      requires Valid() && sample <= INT64_MAX
      requires p < numNodes && ring[p] == ageHead && m < numNodes && ring[m] == medianHead
      modifies this, value, nextValue, prevValue
      ensures RingsHold(ring, ageHead, history, numNodes) && Linked(nextValue[..], prevValue[..], ring)
      ensures ValuesHold(value[..], ageHead, history, numNodes) && valueHead == ring[0]
      ensures forall k :: 0 <= k < numNodes ==> nextAge[k] == Succ(k, numNodes)
      ensures bufferCnt == if |old(history)| < numNodes then |old(history)| + 1 else numNodes
      ensures history == old(history) + [sample] && i < numNodes && i <= |old(history)|
      ensures back == (|old(history)| + 1 >= numNodes && (p == m || old(value[ring[p]] > value[ring[m]])))
      ensures PlaceAfterMove(m, p, i) < numNodes
      ensures m != p && !back ==> value[ring[PlaceAfterMove(m, p, i)]] == old(value[ring[m]])
      ensures var r := PlaceAfterMove(if back then Pred(m, numNodes) else m, p, i);
        r < numNodes && medianHead == ring[r]
    {
      hide RingsHold, ValuesHold, Linked, AdjustedPlace, PlaceAfterMove, Last, Succ, Pred;
      RingsShape(ring, ageHead, history, numNodes);
      back := PrepareHeads(p, m);
      ghost var m1 := if back then Pred(m, numNodes) else m;
      NodeKeepsItsPlace(ring, m, p, 0);
      i := MoveOldest(sample, p, m1);
      NodeKeepsItsPlace(old(ring), m, p, i);
    }

    /** The body of Insert, for the places p of the oldest node and m of the median head. */
    method InsertAtPlaces(sample: int, ghost p: nat, ghost m: nat) returns (median: int, i: nat, ghost back: bool)
      requires Valid() && sample <= INT64_MAX
      requires p < numNodes && ring[p] == ageHead && m < numNodes && ring[m] == medianHead
      modifies this, value, nextValue, prevValue
      ensures Valid() && history == old(history) + [sample] && i < numNodes && i <= |old(history)|
      ensures back == (|old(history)| + 1 >= numNodes && (p == m || old(value[ring[p]] > value[ring[m]])))
      ensures PlaceAfterMove(m, p, i) < numNodes
      ensures m != p && !back ==> value[ring[PlaceAfterMove(m, p, i)]] == old(value[ring[m]])
      ensures m == |Last(old(history), numNodes)| / 2 ==>
                medianHead == ring[FinalPlace(old(history), numNodes, p, i, back)]
      ensures median == value[medianHead]
    {
      hide RingsHold, ValuesHold, Linked, AdjustedPlace, PlaceAfterMove, Last, Succ, Pred;
      RingsShape(ring, ageHead, history, numNodes);
      i, back := ReplaceOldest(sample, p, m);
      RingsShape(ring, ageHead, history, numNodes);
      AdjustMedian(i, PlaceAfterMove(if back then Pred(m, numNodes) else m, p, i));
      median := value[medianHead];
    }

    method Insert(sample: int) returns (median: int)
      requires Valid() && sample <= INT64_MAX
      modifies this, value, nextValue, prevValue
      ensures Valid() && history == old(history) + [sample]
      ensures median == value[medianHead]
      ensures old(MedianPlaced()) && !MedianIsMarker(old(history), numNodes) ==>
                MedianPlaced() && median == MedianOf(Last(history, numNodes))
      ensures old(MedianPlaced()) && MedianIsMarker(old(history), numNodes) ==>
                !MedianPlaced() && (numNodes >= 5 ==> median == INT64_MAX)
    {
      hide FinalPlace, PlaceAfterMove, RingsHold, ValuesHold, Linked, Last, MedianIsMarker, MedianOf;
      RingsShape(ring, ageHead, history, numNodes);
      ghost var p := PlaceOf(ring, ageHead, history, numNodes, ageHead);
      ghost var m := PlaceOf(ring, ageHead, history, numNodes, medianHead);
      SamePlace(ring, numNodes, m, bufferCnt / 2);
      ghost var ring0, age0, vals0, h, n := ring, ageHead, value[..], history, numNodes;
      var i;
      ghost var back;
      median, i, back := InsertAtPlaces(sample, p, m);
      ghost var vals := value[..];
      RingsShape(ring, ageHead, history, numNodes);
      if m == |Last(h, n)| / 2 {
        assert Inserted(ring0, age0, h, n, p, vals0, back, i, sample, ring, ageHead, vals);
        hide Inserted;
        if MedianIsMarker(h, n) {
          MedianMisplaced(ring0, age0, h, n, p, vals0, back, i, sample, ring, ageHead, vals);
        } else {
          MedianStaysPlaced(ring0, age0, h, n, p, vals0, back, i, sample, ring, ageHead, vals);
        }
      }
    }

    /** The average of the median and its neighbours, n in all, in the sorted window. */
    method GetMedian(n: nat) returns (average: int)
      requires Valid() && MedianPlaced() && history != []
      ensures var k, half := bufferCnt, AverageWidth(n, bufferCnt) / 2;
        && half <= k / 2 && k / 2 + half < k
        && average == TruncatedQuotient(Sum(Sorted(Last(history, numNodes))[k / 2 - half..k / 2 + half + 1]), 2 * half + 1)
    {
      hide RingsHold, ValuesHold, Linked, Sorted, TruncatedQuotient, Sum, AverageWidth;
      ghost var s, m := Sorted(Last(history, numNodes)), bufferCnt / 2;
      WalkAt(ring, ageHead, history, numNodes, value[..], nextValue[..], prevValue[..], m);
      var width := AverageWidth(n, bufferCnt);
      var previous := SumPrevious(width / 2);
      var next := SumNext(width / 2);
      SumAround(s, m, width / 2);
      average := TruncatedQuotient(previous + next + value[medianHead], width + 1);
    }

    /** The samples of the nodes before the median head, nearest first. */
    method SumPrevious(count: nat) returns (sum: int)
      requires Valid() && MedianPlaced() && history != [] && count <= bufferCnt / 2
      ensures sum == Sum(Sorted(Last(history, numNodes))[bufferCnt / 2 - count..bufferCnt / 2])
    {
      hide RingsHold, ValuesHold, Linked, Sorted, Sum;
      ghost var s, m := Sorted(Last(history, numNodes)), bufferCnt / 2;
      WalkAt(ring, ageHead, history, numNodes, value[..], nextValue[..], prevValue[..], m);
      sum := 0;
      var i, it := 0, prevValue[medianHead];
      SumOfNothing(s, m);
      while i < count
        invariant i <= count && it < numNodes
        invariant i < count ==> it == ring[m - 1 - i]
        invariant sum == Sum(s[m - i..m])
      {
        WalkAt(ring, ageHead, history, numNodes, value[..], nextValue[..], prevValue[..], m - 1 - i);
        SumOfPrevious(s, m - 1 - i, m);
        sum := sum + value[it];
        it := prevValue[it];
        i := i + 1;
      }
    }

    /** The samples of the nodes after the median head, nearest first. */
    method SumNext(count: nat) returns (sum: int)
      requires Valid() && MedianPlaced() && history != [] && bufferCnt / 2 + count < bufferCnt
      ensures sum == Sum(Sorted(Last(history, numNodes))[bufferCnt / 2 + 1..bufferCnt / 2 + 1 + count])
    {
      hide RingsHold, ValuesHold, Linked, Sorted, Sum;
      ghost var s, m := Sorted(Last(history, numNodes)), bufferCnt / 2;
      WalkAt(ring, ageHead, history, numNodes, value[..], nextValue[..], prevValue[..], m);
      sum := 0;
      var i, it := 0, nextValue[medianHead];
      SumOfNothing(s, m + 1);
      while i < count
        invariant i <= count && it < numNodes
        invariant i < count ==> it == ring[m + 1 + i]
        invariant sum == Sum(s[m + 1..m + 1 + i])
      {
        WalkAt(ring, ageHead, history, numNodes, value[..], nextValue[..], prevValue[..], m + 1 + i);
        SumOfNext(s, m + 1, m + 1 + i);
        sum := sum + value[it];
        it := nextValue[it];
        i := i + 1;
      }
    }

    /** Whether n samples (the whole buffer, when n is out of range) have arrived. */
    method IsFull(n: nat) returns (full: int)
      requires Valid()
      ensures full == 1 || full == 0
      ensures full == 1 <==> |history| >= if 1 <= n <= numNodes then n else numNodes
    {
      var limit := if n < 1 || n > numNodes then numNodes else n;
      if bufferCnt >= limit {
        return 1;
      } else {
        return 0;
      }
    }
  }

  /** Every run: each insertion returns the median of the samples then in the window, for any samples up to
      the marker value, as long as the first n-1 of them do not have the marker as their median. */
  method Replay(n: nat, samples: seq<int>) returns (medians: seq<int>)
    requires n % 2 == 1 && n > 1
    requires forall j :: 0 <= j < |samples| ==> samples[j] <= INT64_MAX
    ensures |medians| == |samples|
    ensures var good := if |samples| >= n && MedianIsMarker(samples[..n - 1], n) then n - 1 else |samples|;
      forall j :: 0 <= j < good ==> medians[j] == MedianOf(Last(samples[..j + 1], n))
  {
    hide MedianFilter.Valid, MedianFilter.MedianPlaced, MedianOf;
    var filter := new MedianFilter(n);
    var rc := filter.Init();
    medians := [];
    var i := 0;
    while i < |samples|
      invariant 0 <= i <= |samples| && |medians| == i
      invariant filter.Valid() && filter.history == samples[..i] && filter.numNodes == n
      invariant fresh(filter) && fresh(filter.value) && fresh(filter.nextValue) && fresh(filter.prevValue)
      invariant i < n || !MedianIsMarker(samples[..n - 1], n) ==> filter.MedianPlaced()
      invariant forall j :: 0 <= j < i && (j < n - 1 || !MedianIsMarker(samples[..n - 1], n)) ==>
                  medians[j] == MedianOf(Last(samples[..j + 1], n))
    {
      assert samples[..i + 1] == samples[..i] + [samples[i]];
      var median := filter.Insert(samples[i]);
      medians := medians + [median];
      i := i + 1;
    }
  }

  /** The marker value as a sample: the fifth insertion returns INT64_MAX although the median is 2. */
  method MarkerSampleCounterexample() returns (median: int)
    ensures median != MedianOf([1, 2, INT64_MAX, INT64_MAX, 0])
  {
    hide MedianFilter.Valid, MedianFilter.MedianPlaced, MedianOf;
    var filter := new MedianFilter(5);
    var rc := filter.Init();
    var samples := [1, 2, INT64_MAX, INT64_MAX];
    median := 0;
    var i := 0;
    while i < 4
      invariant 0 <= i <= 4
      invariant filter.Valid() && filter.history == samples[..i] && filter.numNodes == 5 && filter.MedianPlaced()
      invariant fresh(filter) && fresh(filter.value) && fresh(filter.nextValue) && fresh(filter.prevValue)
    {
      assert samples[..i + 1] == samples[..i] + [samples[i]];
      median := filter.Insert(samples[i]);
      i := i + 1;
    }
    MediansAroundMarker();
    assert samples[..4] == samples;
    median := filter.Insert(0);
  }

  lemma MediansAroundMarker()
    ensures MedianOf([1, 2, INT64_MAX, INT64_MAX]) == INT64_MAX
    ensures MedianOf([1, 2, INT64_MAX, INT64_MAX, 0]) == 2
  {
    hide Sorted;
    var a := [1, 2, INT64_MAX, INT64_MAX];
    assert Ascending(a) && Ascending([0] + a);
    SortedIsTheAscendingPermutation(a, a);
    assert multiset([0] + a) == multiset([0]) + multiset(a) == multiset(a + [0]);
    SortedIsTheAscendingPermutation(a + [0], [0] + a);
    assert a + [0] == [1, 2, INT64_MAX, INT64_MAX, 0];
  }
}
