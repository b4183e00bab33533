// The luminance list of ConvertToBW: its ascending sort and the median taken from it.

module Sorting {

  predicate Ascending(s: seq<int>) {
    forall i, j :: 0 <= i < j < |s| ==> s[i] <= s[j]
  }

  /** Putting an entry no larger than the head in front keeps a list ascending. */
  lemma AscendingCons(v: int, s: seq<int>)
    requires Ascending(s) && (s == [] || v <= s[0])
    ensures Ascending([v] + s)
  {
  }

  /** Inserts v into an ascending list, keeping it ascending. */
  function Insert(s: seq<int>, v: int): (r: seq<int>)
    requires Ascending(s)
    ensures Ascending(r)
    ensures multiset(r) == multiset(s) + multiset{v}
    ensures |r| == |s| + 1 && (r[0] == v || (s != [] && r[0] == s[0]))
    decreases |s|
  {
    if s == [] then [v]
    else if v <= s[0] then
      AscendingCons(v, s);
      [v] + s
    else
      assert s == [s[0]] + s[1..];
      var rest := Insert(s[1..], v);
      AscendingCons(s[0], rest);
      [s[0]] + rest
  }

  /**
   * Collections.sort on the luminance list: the result is ascending and holds the
   * same values, each as often, as the input.
   */
  method Sort(s: seq<int>) returns (r: seq<int>)
    ensures Ascending(r)
    ensures multiset(r) == multiset(s)
  {
    r := [];
    var i := 0;
    while i < |s|
      invariant 0 <= i <= |s|
      invariant Ascending(r)
      invariant multiset(r) == multiset(s[..i])
    {
      assert s[..i + 1] == s[..i] + [s[i]];
      r := Insert(r, s[i]);
      i := i + 1;
    }
    assert s[..i] == s;
  }

  /**
   * The index `size / 2` that ConvertToBW takes as the median: inside a non-empty
   * list, with as many entries before it as after it when the size is odd, and one
   * more before than after when the size is even (the upper of the two middle entries).
   */
  function MedianIndex(size: nat): (m: nat)
    ensures size > 0 ==> m < size
    ensures size % 2 == 1 ==> m == size - 1 - m
    ensures size % 2 == 0 && size > 0 ==> m == (size - 1 - m) + 1
  {
    size / 2
  }

  /** How many entries of s are at least t. */
  function CountAtLeast(s: seq<int>, t: int): (n: nat)
    ensures n <= |s|
  {
    if s == [] then 0 else (if s[0] >= t then 1 else 0) + CountAtLeast(s[1..], t)
  }

  lemma {:induction false} CountAtLeastAppend(a: seq<int>, b: seq<int>, t: int)
    ensures CountAtLeast(a + b, t) == CountAtLeast(a, t) + CountAtLeast(b, t)
  {
    if a == [] {
      assert a + b == b;
    } else {
      assert (a + b)[1..] == a[1..] + b;
      CountAtLeastAppend(a[1..], b, t);
    }
  }

  /** The count depends only on the values, not on their order. */
  lemma {:induction false} CountAtLeastPermutation(a: seq<int>, b: seq<int>, t: int)
    requires multiset(a) == multiset(b)
    ensures CountAtLeast(a, t) == CountAtLeast(b, t)
    decreases |a|
  {
    if a == [] {
      assert |b| == |multiset(b)| == 0;
    } else {
      var v := a[0];
      assert a == [v] + a[1..];
      assert v in multiset(b);
      var i :| 0 <= i < |b| && b[i] == v;
      var rest := b[..i] + b[i + 1..];
      assert b == b[..i] + [v] + b[i + 1..];
      assert multiset(b) == multiset(b[..i]) + multiset{v} + multiset(b[i + 1..]);
      assert multiset(rest) == multiset(b[..i]) + multiset(b[i + 1..]);
      assert multiset(a) == multiset{v} + multiset(a[1..]);
      assert multiset(a[1..]) == multiset(a) - multiset{v};
      assert multiset(rest) == multiset(b) - multiset{v};
      CountAtLeastPermutation(a[1..], rest, t);
      CountAtLeastAppend(b[..i] + [v], b[i + 1..], t);
      CountAtLeastAppend(b[..i], [v], t);
      CountAtLeastAppend(b[..i], b[i + 1..], t);
    }
  }

  lemma {:induction false} CountAtLeastAll(s: seq<int>, t: int)
    requires forall i :: 0 <= i < |s| ==> s[i] >= t
    ensures CountAtLeast(s, t) == |s|
  {
    if s != [] {
      CountAtLeastAll(s[1..], t);
    }
  }

  /** In an ascending list, everything from index k on is at least s[k]. */
  lemma AscendingCountAtLeast(s: seq<int>, k: nat)
    requires Ascending(s) && k < |s|
    ensures CountAtLeast(s, s[k]) >= |s| - k
  {
    assert s == s[..k] + s[k..];
    CountAtLeastAppend(s[..k], s[k..], s[k]);
    CountAtLeastAll(s[k..], s[k]);
  }

  /**
   * The value at the median index of the sorted list is reached or exceeded by at
   * least half (rounded up) of the collected values, in whatever order they were
   * collected; so at most half (rounded down) are strictly below it.
   */
  lemma MedianSplitsList(collected: seq<int>, sorted: seq<int>)
    requires Ascending(sorted) && multiset(sorted) == multiset(collected)
    requires |collected| > 0
    ensures |sorted| == |collected|
    ensures CountAtLeast(collected, sorted[MedianIndex(|sorted|)]) >= |collected| - |collected| / 2
  {
    assert |sorted| == |multiset(sorted)| == |multiset(collected)| == |collected|;
    var m := MedianIndex(|sorted|);
    AscendingCountAtLeast(sorted, m);
    CountAtLeastPermutation(sorted, collected, sorted[m]);
  }
}
