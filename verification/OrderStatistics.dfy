/** Sorting and rank selection on integer sequences: the meaning of "the median of a window". */
module OrderStatistics {

  ghost predicate Ascending(s: seq<int>) {
    forall i, j :: 0 <= i < j < |s| ==> s[i] <= s[j]
  }

  function InsertSorted(s: seq<int>, x: int): (r: seq<int>)
    ensures |r| == |s| + 1
  {
    if s == [] || x < s[0] then [x] + s else [s[0]] + InsertSorted(s[1..], x)
  }

  function Sorted(s: seq<int>): (r: seq<int>)
    ensures |r| == |s|
  {
    if s == [] then [] else InsertSorted(Sorted(s[1..]), s[0])
  }

  /** The element of rank floor(k/2) of the sorted window of k samples. */
  function MedianOf(w: seq<int>): int
    requires w != []
  {
    Sorted(w)[|w| / 2]
  }

  /** The last n samples of a history, or all of it while it is shorter. */
  function Last(history: seq<int>, n: nat): (w: seq<int>)
    ensures |w| == if |history| < n then |history| else n
  {
    if |history| <= n then history else history[|history| - n..]
  }

  lemma {:induction false} InsertSortedBound(s: seq<int>, x: int, lo: int)
    requires lo <= x && forall j :: 0 <= j < |s| ==> lo <= s[j]
    ensures forall j :: 0 <= j < |s| + 1 ==> lo <= InsertSorted(s, x)[j]
  {
    if s != [] && s[0] <= x {
      InsertSortedBound(s[1..], x, lo);
    }
  }

  lemma {:induction false} InsertSortedKeepsOrder(s: seq<int>, x: int)
    requires Ascending(s)
    ensures Ascending(InsertSorted(s, x))
  {
    if s != [] && s[0] <= x {
      InsertSortedKeepsOrder(s[1..], x);
      InsertSortedBound(s[1..], x, s[0]);
    }
  }

  lemma {:induction false} InsertSortedAdds(s: seq<int>, x: int)
    ensures multiset(InsertSorted(s, x)) == multiset(s) + multiset{x}
  {
    if s != [] && s[0] <= x {
      InsertSortedAdds(s[1..], x);
      assert s == [s[0]] + s[1..];
    }
  }

  /** Sorted returns an ascending permutation of its argument. */
  lemma {:induction false} SortedIsAscendingPermutation(s: seq<int>)
    ensures Ascending(Sorted(s))
    ensures multiset(Sorted(s)) == multiset(s)
  {
    if s != [] {
      SortedIsAscendingPermutation(s[1..]);
      InsertSortedKeepsOrder(Sorted(s[1..]), s[0]);
      InsertSortedAdds(Sorted(s[1..]), s[0]);
      assert s == [s[0]] + s[1..];
    }
  }

  lemma HeadOfAscending(a: seq<int>, b: seq<int>)
    requires a != [] && Ascending(b) && multiset(a) == multiset(b)
    ensures b != [] && b[0] <= a[0]
  {
    assert a[0] in multiset(a);
    assert a[0] in b;
  }

  lemma MultisetOfTail(a: seq<int>)
    requires a != []
    ensures multiset(a[1..]) == multiset(a) - multiset{a[0]}
  {
    assert a == [a[0]] + a[1..];
  }

  /** An ascending arrangement of a multiset is unique. */
  lemma {:induction false} AscendingIsUnique(a: seq<int>, b: seq<int>)
    requires Ascending(a) && Ascending(b)
    requires multiset(a) == multiset(b)
    ensures a == b
  {
    if a == [] {
      if b != [] { HeadOfAscending(b, a); }
    } else {
      HeadOfAscending(a, b);
      HeadOfAscending(b, a);
      MultisetOfTail(a);
      MultisetOfTail(b);
      AscendingIsUnique(a[1..], b[1..]);
    }
  }

  /** Any ascending permutation of s is Sorted(s). */
  lemma SortedIsTheAscendingPermutation(s: seq<int>, t: seq<int>)
    requires Ascending(t) && multiset(t) == multiset(s)
    ensures t == Sorted(s)
  {
    SortedIsAscendingPermutation(s);
    AscendingIsUnique(t, Sorted(s));
  }

  lemma SortedHasSameElements(s: seq<int>)
    ensures forall j :: 0 <= j < |s| ==> Sorted(s)[j] in s
  {
    SortedIsAscendingPermutation(s);
    var t := Sorted(s);
    forall j | 0 <= j < |s| ensures t[j] in s {
      assert t[j] in t;
      assert t[j] in multiset(t);
      assert t[j] in multiset(s);
    }
  }

  function CountIn(s: seq<int>, lo: int, hi: int): (c: nat)
    ensures c <= |s|
  {
    if s == [] then 0 else (if lo <= s[0] <= hi then 1 else 0) + CountIn(s[1..], lo, hi)
  }

  lemma {:induction false} CountInInsertSorted(s: seq<int>, x: int, lo: int, hi: int)
    ensures CountIn(InsertSorted(s, x), lo, hi) == CountIn(s, lo, hi) + if lo <= x <= hi then 1 else 0
  {
    if s == [] || x < s[0] {
      assert ([x] + s)[1..] == s;
    } else {
      CountInInsertSorted(s[1..], x, lo, hi);
      assert ([s[0]] + InsertSorted(s[1..], x))[1..] == InsertSorted(s[1..], x);
    }
  }

  lemma {:induction false} CountInSorted(s: seq<int>, lo: int, hi: int)
    ensures CountIn(Sorted(s), lo, hi) == CountIn(s, lo, hi)
  {
    if s != [] {
      CountInSorted(s[1..], lo, hi);
      CountInInsertSorted(Sorted(s[1..]), s[0], lo, hi);
    }
  }

  lemma {:induction false} CountInBounded(s: seq<int>, from: nat, to: nat, lo: int, hi: int)
    requires from <= to <= |s|
    requires forall j :: 0 <= j < |s| && (j < from || to <= j) ==> !(lo <= s[j] <= hi)
    ensures CountIn(s, lo, hi) <= to - from
  {
    if s != [] {
      if from > 0 {
        CountInBounded(s[1..], from - 1, to - 1, lo, hi);
      } else if to > 0 {
        CountInBounded(s[1..], 0, to - 1, lo, hi);
      } else {
        CountInBounded(s[1..], 0, 0, lo, hi);
      }
    }
  }

  /** If more than half of a window lies in an interval, so does its median. */
  lemma MajorityBoundsMedian(w: seq<int>, lo: int, hi: int)
    requires w != []
    requires 2 * CountIn(w, lo, hi) > |w|
    ensures lo <= MedianOf(w) <= hi
  {
    var s, m := Sorted(w), |w| / 2;
    SortedIsAscendingPermutation(w);
    CountInSorted(w, lo, hi);
    if s[m] < lo {
      CountInBounded(s, m + 1, |s|, lo, hi);
    } else if s[m] > hi {
      CountInBounded(s, 0, m, lo, hi);
    }
  }

  /** How many samples are larger than a bound; smaller ones are counted as larger negated ones. */
  function CountAbove(s: seq<int>, bound: int): (c: nat)
    ensures c <= |s|
  {
    if s == [] then 0 else (if s[0] > bound then 1 else 0) + CountAbove(s[1..], bound)
  }

  function CountBelow(s: seq<int>, bound: int): (c: nat)
    ensures c <= |s|
  {
    if s == [] then 0 else (if s[0] < bound then 1 else 0) + CountBelow(s[1..], bound)
  }

  lemma {:induction false} CountsInsertSorted(s: seq<int>, x: int, bound: int)
    ensures CountAbove(InsertSorted(s, x), bound) == CountAbove(s, bound) + if x > bound then 1 else 0
    ensures CountBelow(InsertSorted(s, x), bound) == CountBelow(s, bound) + if x < bound then 1 else 0
  {
    if s == [] || x < s[0] {
      assert ([x] + s)[1..] == s;
    } else {
      CountsInsertSorted(s[1..], x, bound);
      assert ([s[0]] + InsertSorted(s[1..], x))[1..] == InsertSorted(s[1..], x);
    }
  }

  lemma {:induction false} CountsSorted(s: seq<int>, bound: int)
    ensures CountAbove(Sorted(s), bound) == CountAbove(s, bound) && CountBelow(Sorted(s), bound) == CountBelow(s, bound)
  {
    if s != [] {
      CountsSorted(s[1..], bound);
      CountsInsertSorted(Sorted(s[1..]), s[0], bound);
    }
  }

  /** In an ascending sequence the samples above a bound are at its end and those below it at its front. */
  lemma {:induction false} CountsAscending(s: seq<int>, k: nat, bound: int)
    requires Ascending(s) && k < |s|
    ensures s[k] > bound <==> CountAbove(s, bound) >= |s| - k
    ensures s[k] < bound <==> CountBelow(s, bound) >= k + 1
  {
    if s[0] > bound || k == 0 {
      CountsOfHead(s, bound);
    }
    if k > 0 {
      CountsAscending(s[1..], k - 1, bound);
    }
  }

  lemma {:induction false} CountsOfHead(s: seq<int>, bound: int)
    requires Ascending(s) && s != []
    ensures s[0] > bound <==> CountAbove(s, bound) == |s|
    ensures s[0] >= bound ==> CountBelow(s, bound) == 0
  {
    if |s| > 1 {
      CountsOfHead(s[1..], bound);
    }
  }

  /** The median is beyond a bound exactly if enough samples are. */
  lemma MedianByCounts(w: seq<int>, bound: int)
    requires w != []
    ensures MedianOf(w) > bound <==> CountAbove(w, bound) >= |w| - |w| / 2
    ensures MedianOf(w) < bound <==> CountBelow(w, bound) >= |w| / 2 + 1
  {
    SortedIsAscendingPermutation(w);
    CountsSorted(w, bound);
    CountsAscending(Sorted(w), |w| / 2, bound);
  }
}
