/** The two interleaved rings of the median filter, on values: a cyclic doubly linked list over node
    numbers, and the order of its nodes by sample and arrival. */
module MedianRings {
  import opened OrderStatistics

  // The value that marks an unfilled node, and the ghost value that stands for "unfilled" (above every sample).
  const INT64_MAX: int := 0x7FFF_FFFF_FFFF_FFFF
  const UNFILLED: int := INT64_MAX + 1

  function Succ(p: nat, m: nat): (q: nat)
    requires p < m
    ensures q < m
  {
    if p + 1 == m then 0 else p + 1
  }

  function Pred(p: nat, m: nat): (q: nat)
    requires p < m
    ensures q < m
  {
    if p == 0 then m - 1 else p - 1
  }

  function RemoveAt<T>(s: seq<T>, p: nat): (r: seq<T>)
    requires p < |s|
    ensures |r| == |s| - 1
    ensures forall j :: 0 <= j < |r| ==> r[j] == if j < p then s[j] else s[j + 1]
  {
    s[..p] + s[p + 1..]
  }

  function InsertAt<T>(s: seq<T>, i: nat, x: T): (r: seq<T>)
    requires i <= |s|
    ensures |r| == |s| + 1
    ensures forall j :: 0 <= j < |r| ==> r[j] == if j < i then s[j] else if j == i then x else s[j - 1]
  {
    s[..i] + [x] + s[i..]
  }

  lemma MultisetOfRemoveAt<T>(s: seq<T>, p: nat)
    requires p < |s|
    ensures multiset(RemoveAt(s, p)) == multiset(s) - multiset{s[p]}
  {
    assert s == s[..p] + [s[p]] + s[p + 1..];
  }

  lemma MultisetOfInsertAt<T>(s: seq<T>, i: nat, x: T)
    requires i <= |s|
    ensures multiset(InsertAt(s, i, x)) == multiset(s) + multiset{x}
  {
    assert s == s[..i] + s[i..];
  }

  ghost predicate Apart(ring: seq<nat>, p: nat, q: nat)
    requires p < |ring| && q < |ring|
  {
    ring[p] != ring[q]
  }

  /** Node numbers below n, no node twice. */
  ghost predicate Distinct(ring: seq<nat>, n: nat) {
    && (forall p :: 0 <= p < |ring| ==> ring[p] < n)
    && (forall p, q {:trigger Apart(ring, p, q)} :: 0 <= p < |ring| && 0 <= q < |ring| && p != q ==> Apart(ring, p, q))
  }

  lemma SamePlace(ring: seq<nat>, n: nat, p: nat, q: nat)
    requires Distinct(ring, n) && p < |ring| && q < |ring|
    ensures ring[p] == ring[q] <==> p == q
  {
    assert p != q ==> Apart(ring, p, q);
  }

  ghost predicate LinkedAt(next: seq<nat>, prev: seq<nat>, ring: seq<nat>, p: nat)
    requires |next| == |prev| && Distinct(ring, |next|) && p < |ring|
  {
    && next[ring[p]] == ring[Succ(p, |ring|)]
    && prev[ring[p]] == ring[Pred(p, |ring|)]
  }

  /** next and prev close the nodes of ring, in this order, into a doubly linked cycle. */
  ghost predicate Linked(next: seq<nat>, prev: seq<nat>, ring: seq<nat>) {
    && |next| == |prev|
    && Distinct(ring, |next|)
    && (forall p :: 0 <= p < |ring| ==> LinkedAt(next, prev, ring, p))
  }

  lemma RemoveAtIsDistinct(ring: seq<nat>, n: nat, p: nat)
    requires Distinct(ring, n) && p < |ring|
    ensures Distinct(RemoveAt(ring, p), n) && ring[p] !in RemoveAt(ring, p)
  {
    var rest := RemoveAt(ring, p);
    forall q, r | 0 <= q < |rest| && 0 <= r < |rest| && q != r ensures Apart(rest, q, r) {
      SamePlace(ring, n, if q < p then q else q + 1, if r < p then r else r + 1);
    }
    forall q | 0 <= q < |rest| ensures rest[q] != ring[p] {
      SamePlace(ring, n, p, if q < p then q else q + 1);
    }
  }

  lemma InsertAtIsDistinct(ring: seq<nat>, n: nat, i: nat, a: nat)
    requires Distinct(ring, n) && i <= |ring| && a < n && a !in ring
    ensures Distinct(InsertAt(ring, i, a), n)
  {
    var out := InsertAt(ring, i, a);
    forall q, r | 0 <= q < |out| && 0 <= r < |out| && q != r ensures Apart(out, q, r) {
      var q0, r0 := if q < i then q else q - 1, if r < i then r else r - 1;
      if q == i {
        assert ring[r0] in ring;
      } else if r == i {
        assert ring[q0] in ring;
      } else {
        SamePlace(ring, n, q0, r0);
      }
    }
  }

  lemma UnlinkAt(next: seq<nat>, prev: seq<nat>, ring: seq<nat>, p: nat, q: nat)
    requires Linked(next, prev, ring) && p < |ring| && q < |ring| - 1
    requires next[ring[p]] < |next| && prev[ring[p]] < |next|
    requires Distinct(RemoveAt(ring, p), |next|)
    ensures LinkedAt(next[prev[ring[p]] := next[ring[p]]], prev[next[ring[p]] := prev[ring[p]]], RemoveAt(ring, p), q)
  {
    var m, o := |ring|, if q < p then q else q + 1;
    assert LinkedAt(next, prev, ring, o) && LinkedAt(next, prev, ring, p);
    assert RemoveAt(ring, p)[q] == ring[o];
    SamePlace(ring, |next|, Pred(p, m), o);
    SamePlace(ring, |next|, Succ(p, m), o);
    assert Succ(o, m) == p <==> Pred(p, m) == o;
    assert Pred(o, m) == p <==> Succ(p, m) == o;
    assert RemoveAt(ring, p)[Succ(q, m - 1)] == ring[if Succ(o, m) == p then Succ(p, m) else Succ(o, m)];
    assert RemoveAt(ring, p)[Pred(q, m - 1)] == ring[if Pred(o, m) == p then Pred(p, m) else Pred(o, m)];
  }

  /** Taking one node out of the cycle by the two pointer writes of the filter. */
  lemma UnlinkKeepsRing(next: seq<nat>, prev: seq<nat>, ring: seq<nat>, p: nat)
    requires Linked(next, prev, ring) && p < |ring|
    ensures next[ring[p]] < |next| && prev[ring[p]] < |next|
    ensures Linked(next[prev[ring[p]] := next[ring[p]]], prev[next[ring[p]] := prev[ring[p]]], RemoveAt(ring, p))
  {
    assert LinkedAt(next, prev, ring, p);
    RemoveAtIsDistinct(ring, |next|, p);
    var next', prev' := next[prev[ring[p]] := next[ring[p]]], prev[next[ring[p]] := prev[ring[p]]];
    var rest := RemoveAt(ring, p);
    forall q | 0 <= q < |rest| ensures LinkedAt(next', prev', rest, q) {
      UnlinkAt(next, prev, ring, p, q);
    }
  }

  lemma NeighboursAfterInsert(ring: seq<nat>, i: nat, a: nat, q: nat)
    requires ring != [] && i <= |ring| && q <= |ring|
    ensures var m, h, out := |ring|, if i == |ring| then 0 else i, InsertAt(ring, i, a);
      && (q == i ==> out[q] == a && out[Succ(q, m + 1)] == ring[h] && out[Pred(q, m + 1)] == ring[Pred(h, m)])
      && (q != i ==> var o := if q < i then q else q - 1;
            && out[q] == ring[o]
            && out[Succ(q, m + 1)] == (if o == Pred(h, m) then a else ring[Succ(o, m)])
            && out[Pred(q, m + 1)] == (if o == h then a else ring[Pred(o, m)]))
  {
  }

  lemma LinkBeforeAt(next: seq<nat>, prev: seq<nat>, ring: seq<nat>, i: nat, a: nat, q: nat)
    requires Linked(next, prev, ring) && ring != [] && i <= |ring| && q <= |ring|
    requires a < |next| && a !in ring
    requires Distinct(InsertAt(ring, i, a), |next|)
    ensures var it := ring[if i == |ring| then 0 else i];
      && prev[it] < |next|
      && LinkedAt(next[prev[it] := a][a := it], prev[a := prev[it]][it := a], InsertAt(ring, i, a), q)
  {
    var m, h := |ring|, if i == |ring| then 0 else i;
    var it, last := ring[h], ring[Pred(h, m)];
    assert LinkedAt(next, prev, ring, h);
    assert it in ring && last in ring;
    NeighboursAfterInsert(ring, i, a, q);
    if q != i {
      var o := if q < i then q else q - 1;
      assert LinkedAt(next, prev, ring, o);
      assert ring[o] in ring;
      SamePlace(ring, |next|, o, h);
      SamePlace(ring, |next|, o, Pred(h, m));
      assert next[last := a][a := it][ring[o]] == if o == Pred(h, m) then a else next[ring[o]];
      assert prev[a := last][it := a][ring[o]] == if o == h then a else prev[ring[o]];
    }
  }

  /** Putting a node back in front of the i-th node (or of the head, when i is the end). */
  lemma LinkBeforeKeepsRing(next: seq<nat>, prev: seq<nat>, ring: seq<nat>, i: nat, a: nat)
    requires Linked(next, prev, ring) && ring != [] && i <= |ring|
    requires a < |next| && a !in ring
    ensures var it := ring[if i == |ring| then 0 else i];
      && prev[it] < |next|
      && Linked(next[prev[it] := a][a := it], prev[a := prev[it]][it := a], InsertAt(ring, i, a))
  {
    var it := ring[if i == |ring| then 0 else i];
    InsertAtIsDistinct(ring, |next|, i, a);
    LinkBeforeAt(next, prev, ring, i, a, 0);
    var next', prev' := next[prev[it] := a][a := it], prev[a := prev[it]][it := a];
    var out := InsertAt(ring, i, a);
    forall q | 0 <= q < |out| ensures LinkedAt(next', prev', out, q) {
      LinkBeforeAt(next, prev, ring, i, a, q);
    }
  }

  // ----- arrival order and value order -----

  /** How many nodes are older than node k when node `age` is the oldest of n. */
  function Arrival(k: nat, age: nat, n: nat): (j: nat)
    requires k < n && age < n
    ensures j < n
  {
    if k >= age then k - age else k + n - age
  }

  /** The window as the filter holds it: n entries, oldest first, unfilled ones before all samples. */
  function Padded(history: seq<int>, n: nat): (w: seq<int>)
    ensures |w| == n
  {
    if |history| >= n then history[|history| - n..] else seq(n - |history|, _ => UNFILLED) + history
  }

  function Samples(ring: seq<nat>, age: nat, w: seq<int>): (s: seq<int>)
    requires age < |w| && Distinct(ring, |w|)
    ensures |s| == |ring|
  {
    seq(|ring|, q requires 0 <= q < |ring| => w[Arrival(ring[q], age, |w|)])
  }

  lemma PaddedStep(history: seq<int>, n: nat, x: int)
    requires n > 0
    ensures Padded(history + [x], n) == Padded(history, n)[1..] + [x]
  {
    var k, h := |history|, history + [x];
    if k + 1 <= n {
      assert Padded(h, n) == seq(n - k - 1, _ => UNFILLED) + h;
      assert seq(n - k, _ => UNFILLED)[1..] == seq(n - k - 1, _ => UNFILLED);
    } else {
      assert h[k + 1 - n..] == history[k - n..][1..] + [x];
    }
  }

  /** Node k precedes node l: smaller sample, or equal sample and earlier arrival. */
  ghost predicate Precedes(k: nat, l: nat, age: nat, w: seq<int>)
    requires k < |w| && l < |w| && age < |w|
  {
    var i, j := Arrival(k, age, |w|), Arrival(l, age, |w|);
    w[i] < w[j] || (w[i] == w[j] && i < j)
  }

  /** Ascending by sample; equal samples in arrival order. */
  ghost predicate Ordered(ring: seq<nat>, age: nat, w: seq<int>)
    requires age < |w| && Distinct(ring, |w|)
  {
    forall p, q {:trigger Precedes(ring[p], ring[q], age, w)} :: 0 <= p < q < |ring| ==> Precedes(ring[p], ring[q], age, w)
  }

  /** Dropping the oldest entry moves every other node one place forward in age. */
  lemma ArrivalStep(k: nat, age: nat, w: seq<int>, x: int)
    requires k < |w| && age < |w| && k != age
    ensures var age', w' := Succ(age, |w|), w[1..] + [x];
      && Arrival(k, age', |w|) == Arrival(k, age, |w|) - 1
      && w'[Arrival(k, age', |w|)] == w[Arrival(k, age, |w|)]
  {
  }

  lemma PrecedesStep(k: nat, l: nat, age: nat, w: seq<int>, x: int)
    requires k < |w| && l < |w| && age < |w| && k != age && l != age
    ensures Precedes(k, l, age, w) == Precedes(k, l, Succ(age, |w|), w[1..] + [x])
  {
    ArrivalStep(k, age, w, x);
    ArrivalStep(l, age, w, x);
  }

  /** Replacing the oldest sample: its node leaves its place and re-enters behind every sample <= x. */
  lemma OrderedStep(ring: seq<nat>, age: nat, w: seq<int>, p: nat, i: nat, x: int)
    requires age < |w| == |ring| && Distinct(ring, |w|) && Ordered(ring, age, w)
    requires p < |ring| && ring[p] == age
    requires i < |ring|
    requires forall q :: 0 <= q < i ==> w[Arrival(RemoveAt(ring, p)[q], age, |w|)] <= x
    requires i < |ring| - 1 ==> x < w[Arrival(RemoveAt(ring, p)[i], age, |w|)]
    ensures Distinct(InsertAt(RemoveAt(ring, p), i, age), |w|)
    ensures Ordered(InsertAt(RemoveAt(ring, p), i, age), Succ(age, |w|), w[1..] + [x])
  {
    var n, rest := |w|, RemoveAt(ring, p);
    var out, age', w' := InsertAt(rest, i, age), Succ(age, n), w[1..] + [x];
    RemoveAtIsDistinct(ring, n, p);
    InsertAtIsDistinct(rest, n, i, age);
    assert Ordered(rest, age, w);
    assert Arrival(age, age', n) == n - 1;
    forall q, r | 0 <= q < r < |out| ensures Precedes(out[q], out[r], age', w') {
      if r == i {
        assert out[q] == rest[q];
        ArrivalStep(rest[q], age, w, x);
      } else if q == i {
        assert out[r] == rest[r - 1];
        ArrivalStep(rest[r - 1], age, w, x);
        assert i < r - 1 ==> Precedes(rest[i], rest[r - 1], age, w);
      } else {
        var q0, r0 := if q < i then q else q - 1, if r < i then r else r - 1;
        assert out[q] == rest[q0] && out[r] == rest[r0];
        assert Precedes(rest[q0], rest[r0], age, w);
        PrecedesStep(rest[q0], rest[r0], age, w, x);
      }
    }
  }

  lemma SampleStepAt(ring: seq<nat>, age: nat, w: seq<int>, p: nat, i: nat, x: int, q: nat)
    requires age < |w| == |ring| && Distinct(ring, |w|)
    requires p < |ring| && ring[p] == age && i < |ring| && q < |ring|
    requires Distinct(InsertAt(RemoveAt(ring, p), i, age), |w|)
    ensures Samples(InsertAt(RemoveAt(ring, p), i, age), Succ(age, |w|), w[1..] + [x])[q]
         == InsertAt(RemoveAt(Samples(ring, age, w), p), i, x)[q]
  {
    if q != i {
      var r := if q < i then q else q - 1;
      var o := if r < p then r else r + 1;  // where the node stood before
      assert InsertAt(RemoveAt(ring, p), i, age)[q] == ring[o];
      SamePlace(ring, |w|, o, p);
      ArrivalStep(ring[o], age, w, x);
      assert InsertAt(RemoveAt(Samples(ring, age, w), p), i, x)[q] == Samples(ring, age, w)[o];
    }
  }

  lemma SamplesStep(ring: seq<nat>, age: nat, w: seq<int>, p: nat, i: nat, x: int)
    requires age < |w| == |ring| && Distinct(ring, |w|)
    requires p < |ring| && ring[p] == age && i < |ring|
    requires Distinct(InsertAt(RemoveAt(ring, p), i, age), |w|)
    ensures Samples(InsertAt(RemoveAt(ring, p), i, age), Succ(age, |w|), w[1..] + [x])
         == InsertAt(RemoveAt(Samples(ring, age, w), p), i, x)
  {
    var s := Samples(InsertAt(RemoveAt(ring, p), i, age), Succ(age, |w|), w[1..] + [x]);
    var t := InsertAt(RemoveAt(Samples(ring, age, w), p), i, x);
    forall q | 0 <= q < |w| ensures s[q] == t[q] {
      SampleStepAt(ring, age, w, p, i, x, q);
    }
  }

  lemma MultisetStep(s: seq<int>, w: seq<int>, p: nat, i: nat, x: int)
    requires w != [] && multiset(s) == multiset(w) && p < |s| && i < |s| && s[p] == w[0]
    ensures multiset(InsertAt(RemoveAt(s, p), i, x)) == multiset(w[1..] + [x])
  {
    MultisetOfRemoveAt(s, p);
    MultisetOfInsertAt(RemoveAt(s, p), i, x);
    MultisetOfTail(w);
  }

  lemma SortedWithPadding(last: seq<int>, pad: seq<int>)
    requires forall x :: x in last ==> x <= INT64_MAX
    requires forall x :: x in pad ==> x == UNFILLED
    ensures Ascending(Sorted(last) + pad)
    ensures multiset(Sorted(last) + pad) == multiset(pad + last)
  {
    SortedIsAscendingPermutation(last);
    SortedHasSameElements(last);
    assert forall j :: 0 <= j < |pad| ==> pad[j] in pad;
  }

  /** Read along the value ring, the samples are the sorted window, unfilled nodes last. */
  lemma RingIsSortedWindow(ring: seq<nat>, age: nat, history: seq<int>, n: nat)
    requires 0 < n == |ring| && age < n && Distinct(ring, n)
    requires forall x :: x in history ==> x <= INT64_MAX
    requires Ordered(ring, age, Padded(history, n))
    requires multiset(Samples(ring, age, Padded(history, n))) == multiset(Padded(history, n))
    ensures Samples(ring, age, Padded(history, n))
         == Sorted(Last(history, n)) + seq(n - |Last(history, n)|, _ => UNFILLED)
  {
    var w, last := Padded(history, n), Last(history, n);
    var pad := seq(n - |last|, _ => UNFILLED);
    var s := Samples(ring, age, w);
    assert w == pad + last;
    assert forall v :: v in last ==> v in history;
    SortedWithPadding(last, pad);
    forall q, r | 0 <= q < r < |s| ensures s[q] <= s[r] {
      assert Precedes(ring[q], ring[r], age, w);
    }
    AscendingIsUnique(s, Sorted(last) + pad);
  }
}
