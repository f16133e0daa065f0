/** The oracle median: an in-place exchange sort over a fixed array, and what the middle is worth. */
module Median {

  ghost predicate Sorted(xs: seq<int>) {
    forall i, j :: 0 <= i < j < |xs| ==> xs[i] <= xs[j]
  }

  /** The reference order: insert each value into the sorted rest. */
  function Insert(x: int, xs: seq<int>): (r: seq<int>)
    ensures |r| == |xs| + 1
  {
    if |xs| == 0 || x <= xs[0] then [x] + xs else [xs[0]] + Insert(x, xs[1..])
  }

  function SortedOf(xs: seq<int>): (r: seq<int>)
    ensures |r| == |xs|
  {
    if |xs| == 0 then [] else Insert(xs[0], SortedOf(xs[1..]))
  }

  /** The middle value, or the mean of the two middle values rounded down. */
  function MedianOf(prices: seq<int>): int
    requires |prices| > 0
  {
    var xs := SortedOf(prices);
    var mid := |xs| / 2;
    if |xs| % 2 == 1 then xs[mid] else (xs[mid - 1] + xs[mid]) / 2
  }

  lemma {:induction false} InsertAdds(x: int, xs: seq<int>)
    ensures multiset(Insert(x, xs)) == multiset{x} + multiset(xs)
  {
    if |xs| > 0 && xs[0] < x {
      InsertAdds(x, xs[1..]);
      assert xs == [xs[0]] + xs[1..];
    }
  }

  lemma {:induction false} InsertSorts(x: int, xs: seq<int>)
    requires Sorted(xs)
    ensures Sorted(Insert(x, xs))
  {
    if |xs| > 0 && xs[0] < x {
      InsertSorts(x, xs[1..]);
      var rest := Insert(x, xs[1..]);
      forall k | 0 <= k < |rest| ensures xs[0] <= rest[k] {
        InsertAdds(x, xs[1..]);
        assert rest[k] in multiset{x} + multiset(xs[1..]);
      }
    }
  }

  /** The reference order is a sorted permutation. */
  lemma {:induction false} SortedOfSorts(xs: seq<int>)
    ensures Sorted(SortedOf(xs)) && multiset(SortedOf(xs)) == multiset(xs)
  {
    if |xs| > 0 {
      SortedOfSorts(xs[1..]);
      InsertSorts(xs[0], SortedOf(xs[1..]));
      InsertAdds(xs[0], SortedOf(xs[1..]));
      assert xs == [xs[0]] + xs[1..];
    }
  }

  /** Two sorted sequences with the same values are the same sequence. */
  lemma {:induction false} SortedIsUnique(xs: seq<int>, ys: seq<int>)
    requires Sorted(xs) && Sorted(ys) && multiset(xs) == multiset(ys)
    ensures xs == ys
  {
    assert |multiset(xs)| == |multiset(ys)|;
    if |xs| > 0 {
      SameFirst(xs, ys);
      assert xs == [xs[0]] + xs[1..];
      assert ys == [ys[0]] + ys[1..];
      assert multiset(xs[1..]) == multiset(xs) - multiset{xs[0]};
      assert multiset(ys[1..]) == multiset(ys) - multiset{ys[0]};
      SortedIsUnique(xs[1..], ys[1..]);
    }
  }

  lemma SameFirst(xs: seq<int>, ys: seq<int>)
    requires Sorted(xs) && Sorted(ys) && multiset(xs) == multiset(ys) && |xs| > 0 && |ys| > 0
    ensures xs[0] == ys[0]
  {
    assert ys[0] in multiset(xs) && xs[0] in multiset(ys);
    assert ys[0] in xs && xs[0] in ys;
  }

  /** Any sorted permutation of the prices is the reference order. */
  lemma SortedPermutation(xs: seq<int>, prices: seq<int>)
    requires Sorted(xs) && multiset(xs) == multiset(prices)
    ensures xs == SortedOf(prices)
  {
    SortedOfSorts(prices);
    SortedIsUnique(xs, SortedOf(prices));
  }

  /** The median does not depend on who submitted first. */
  lemma MedianIgnoresOrder(p: seq<int>, q: seq<int>)
    requires |p| > 0 && multiset(p) == multiset(q)
    ensures |q| > 0 && MedianOf(p) == MedianOf(q)
  {
    assert |multiset(p)| == |multiset(q)|;
    SortedOfSorts(q);
    SortedPermutation(SortedOf(q), p);
  }

  // -- a strict majority decides -----------------------------------------------------------

  function CountIn(xs: seq<int>, lo: int, hi: int): nat {
    if |xs| == 0 then 0 else (if lo <= xs[0] <= hi then 1 else 0) + CountIn(xs[1..], lo, hi)
  }

  lemma {:induction false} CountSplit(xs: seq<int>, ys: seq<int>, lo: int, hi: int)
    ensures CountIn(xs + ys, lo, hi) == CountIn(xs, lo, hi) + CountIn(ys, lo, hi)
    ensures CountIn(xs, lo, hi) <= |xs|
  {
    if |xs| == 0 {
      assert xs + ys == ys;
    } else {
      assert (xs + ys)[1..] == xs[1..] + ys;
      CountSplit(xs[1..], ys, lo, hi);
    }
  }

  lemma {:induction false} CountNone(xs: seq<int>, lo: int, hi: int)
    requires forall k :: 0 <= k < |xs| ==> !(lo <= xs[k] <= hi)
    ensures CountIn(xs, lo, hi) == 0
  {
    if |xs| > 0 {
      CountNone(xs[1..], lo, hi);
    }
  }

  lemma {:induction false} CountInserted(x: int, xs: seq<int>, lo: int, hi: int)
    ensures CountIn(Insert(x, xs), lo, hi) == CountIn([x], lo, hi) + CountIn(xs, lo, hi)
  {
    if |xs| == 0 || x <= xs[0] {
      CountSplit([x], xs, lo, hi);
    } else {
      CountInserted(x, xs[1..], lo, hi);
    }
  }

  lemma {:induction false} CountSorted(xs: seq<int>, lo: int, hi: int)
    ensures CountIn(SortedOf(xs), lo, hi) == CountIn(xs, lo, hi)
  {
    if |xs| > 0 {
      CountSorted(xs[1..], lo, hi);
      CountInserted(xs[0], SortedOf(xs[1..]), lo, hi);
    }
  }

  /** In sorted order, a value below the range at position k leaves only the later ones for the range. */
  lemma LowCount(xs: seq<int>, lo: int, hi: int, k: nat)
    requires Sorted(xs) && k < |xs| && xs[k] < lo
    ensures CountIn(xs, lo, hi) <= |xs| - k - 1
  {
    var front, back := xs[..k + 1], xs[k + 1..];
    assert xs == front + back;
    CountNone(front, lo, hi);
    CountSplit(front, back, lo, hi);
    CountSplit(back, [], lo, hi);
  }

  lemma HighCount(xs: seq<int>, lo: int, hi: int, k: nat)
    requires Sorted(xs) && k < |xs| && hi < xs[k]
    ensures CountIn(xs, lo, hi) <= k
  {
    var front, back := xs[..k], xs[k..];
    assert xs == front + back;
    CountNone(back, lo, hi);
    CountSplit(front, back, lo, hi);
  }

  /** In sorted order, a value at position k outside the range leaves no majority on the other side. */
  lemma MajorityCovers(xs: seq<int>, lo: int, hi: int, k: nat)
    requires Sorted(xs) && k < |xs|
    ensures xs[k] < lo ==> CountIn(xs, lo, hi) <= |xs| - k - 1
    ensures hi < xs[k] ==> CountIn(xs, lo, hi) <= k
  {
    if xs[k] < lo { LowCount(xs, lo, hi, k); }
    if hi < xs[k] { HighCount(xs, lo, hi, k); }
  }

  /** If more than half of the submitted prices lie in a range, so does the median. */
  lemma MajorityBoundsMedian(prices: seq<int>, lo: int, hi: int)
    requires 2 * CountIn(prices, lo, hi) > |prices|
    ensures |prices| > 0 && lo <= MedianOf(prices) <= hi
  {
    CountSplit(prices, [], lo, hi);
    var xs := SortedOf(prices);
    SortedOfSorts(prices);
    CountSorted(prices, lo, hi);
    var mid := |xs| / 2;
    MajorityCovers(xs, lo, hi, mid);
    if |xs| % 2 == 0 {
      MajorityCovers(xs, lo, hi, mid - 1);
    }
  }

  /** Exactly half is not enough: one honest price of two does not hold the median. */
  lemma HalfDoesNotBoundMedian()
    ensures 2 * CountIn([1, 100], 1, 1) == |[1, 100]| && MedianOf([1, 100]) == 50
  {
    assert SortedOf([1, 100]) == [1, 100] by {
      assert Sorted([1, 100]);
      SortedPermutation([1, 100], [1, 100]);
    }
    CountSplit([1], [100], 1, 1);
    assert [1] + [100] == [1, 100];
  }

  /** Every price lies in the range, so a fortiori the median does. */
  lemma MedianInRange(prices: seq<int>, lo: int, hi: int)
    requires |prices| > 0 && forall k :: 0 <= k < |prices| ==> lo <= prices[k] <= hi
    ensures lo <= MedianOf(prices) <= hi
  {
    SortedOfSorts(prices);
    var xs := SortedOf(prices);
    forall k | 0 <= k < |xs| ensures lo <= xs[k] <= hi {
      assert xs[k] in multiset(prices);
      assert xs[k] in prices;
    }
  }

  // -- the sort in the contract ------------------------------------------------------------

  method Swap(a: array<int>, i: nat, j: nat)
    requires i < j < a.Length
    modifies a
    ensures a[..] == Exchanged(old(a[..]), i, j)
    ensures multiset(a[..]) == old(multiset(a[..]))
  {
    var tmp := a[i];
    a[i] := a[j];
    a[j] := tmp;
  }

  /** Rearranging a sequence without touching its tail rearranges its prefix. */
  lemma SamePrefix(xs: seq<int>, ys: seq<int>, n: nat)
    requires n <= |xs| == |ys| && multiset(xs) == multiset(ys) && xs[n..] == ys[n..]
    ensures multiset(xs[..n]) == multiset(ys[..n])
  {
    assert xs == xs[..n] + xs[n..] && ys == ys[..n] + ys[n..];
    var tail := multiset(xs[n..]);
    assert multiset(xs[..n]) == multiset(xs) - tail;
    assert multiset(ys[..n]) == multiset(ys) - tail;
  }

  lemma PrefixSorted(xs: seq<int>, ys: seq<int>, n: nat)
    requires n <= |xs| == |ys| && multiset(xs) == multiset(ys) && xs[n..] == ys[n..] && Sorted(xs[..n])
    ensures xs[..n] == SortedOf(ys[..n])
  {
    SamePrefix(xs, ys, n);
    SortedPermutation(xs[..n], ys[..n]);
  }

  /** The first `i` of `n` values are in order and none of the rest is smaller. */
  ghost predicate Settled(xs: seq<int>, i: nat, n: nat)
    requires n <= |xs|
  {
    forall p, q :: 0 <= p < i && p < q < n ==> xs[p] <= xs[q]
  }

  /** The value at `i` is the least of those up to `j`. */
  ghost predicate LeastTo(xs: seq<int>, i: nat, j: nat)
    requires i < j <= |xs|
  {
    forall q :: i < q < j ==> xs[i] <= xs[q]
  }

  function Exchanged(xs: seq<int>, i: nat, j: nat): seq<int>
    requires i < j < |xs|
  {
    xs[i := xs[j]][j := xs[i]]
  }

  lemma ExchangeKeeps(xs: seq<int>, i: nat, j: nat, n: nat)
    requires i < j < n <= |xs| && Settled(xs, i, n) && LeastTo(xs, i, j) && xs[j] < xs[i]
    ensures Settled(Exchanged(xs, i, j), i, n) && LeastTo(Exchanged(xs, i, j), i, j + 1)
    ensures Exchanged(xs, i, j)[n..] == xs[n..]
  {
    var ys := Exchanged(xs, i, j);
    forall p, q | 0 <= p < i && p < q < n ensures ys[p] <= ys[q] {
    }
  }

  lemma NothingSettled(xs: seq<int>, n: nat)
    requires n <= |xs|
    ensures Settled(xs, 0, n)
  {
  }

  lemma OnlyOne(xs: seq<int>, i: nat)
    requires i < |xs|
    ensures LeastTo(xs, i, i + 1)
  {
  }

  lemma LeastGrows(xs: seq<int>, i: nat, j: nat)
    requires i < j < |xs| && LeastTo(xs, i, j) && xs[i] <= xs[j]
    ensures LeastTo(xs, i, j + 1)
  {
  }

  lemma SettledGrows(xs: seq<int>, i: nat, n: nat)
    requires i < n <= |xs| && Settled(xs, i, n) && LeastTo(xs, i, n)
    ensures Settled(xs, i + 1, n)
  {
  }

  lemma SettledSorts(xs: seq<int>, n: nat)
    requires n <= |xs| && Settled(xs, n, n)
    ensures Sorted(xs[..n])
  {
  }

  /** Exchange sort of the first `n` slots; the unused slots of the fixed array are not touched. */
  method SortPrefix(a: array<int>, n: nat)
    requires n <= a.Length
    modifies a
    ensures a[..n] == SortedOf(old(a[..n]))
    ensures a[n..] == old(a[n..])
  {
    hide Settled, LeastTo, Exchanged;
    ghost var was := a[..];
    var i := 0;
    NothingSettled(a[..], n);
    while i < n
      invariant i <= n
      invariant a[n..] == was[n..] && multiset(a[..]) == multiset(was)
      invariant Settled(a[..], i, n)
    {
      var j := i + 1;
      OnlyOne(a[..], i);
      while j < n
        invariant i < j <= n
        invariant a[n..] == was[n..] && multiset(a[..]) == multiset(was)
        invariant Settled(a[..], i, n) && LeastTo(a[..], i, j)
      {
        if a[i] > a[j] {
          ExchangeKeeps(a[..], i, j, n);
          Swap(a, i, j);
        } else {
          LeastGrows(a[..], i, j);
        }
        j := j + 1;
      }
      SettledGrows(a[..], i, n);
      i := i + 1;
    }
    SettledSorts(a[..], n);
    ghost var all := a[..];
    assert all[n..] == a[n..] && all[..n] == a[..n] && was[..n] == old(a[..n]);
    PrefixSorted(all, was, n);
  }
}
