/** computeLNIS (include/aggregate.h): a longest non-increasing subsequence
    of elements[hits[0]], elements[hits[1]], ..., by patience sorting with
    a binary search over the piles and a predecessor array for the
    reconstruction. The template is modelled on `int`, as test/test_lnis.cpp
    uses it. */
module Lnis {

  // ---------------------------------------------------------------------
  // What a non-increasing subsequence is

  /** The values the algorithm compares: elements[hits[i]]. */
  function Values(elements: seq<int>, hits: seq<int>): (v: seq<int>)
    requires forall i :: 0 <= i < |hits| ==> 0 <= hits[i] < |elements|
    ensures |v| == |hits| && forall i :: 0 <= i < |hits| ==> v[i] == elements[hits[i]]
  {
    seq(|hits|, i requires 0 <= i < |hits| => elements[hits[i]])
  }

  /** Strictly increasing positions into v whose values never increase. */
  predicate IsNonIncreasing(v: seq<int>, idx: seq<int>)
  {
    (forall k :: 0 <= k < |idx| ==> 0 <= idx[k] < |v|) &&
    (forall k :: 0 < k < |idx| ==> idx[k - 1] < idx[k] && v[idx[k - 1]] >= v[idx[k]])
  }

  predicate EndsAt(idx: seq<int>, j: int)
  {
    |idx| > 0 && idx[|idx| - 1] == j
  }

  /** The hits at the given positions, in order. */
  function Pick(hits: seq<int>, idx: seq<int>): (r: seq<int>)
    requires forall k :: 0 <= k < |idx| ==> 0 <= idx[k] < |hits|
    ensures |r| == |idx|
  {
    if |idx| == 0 then [] else [hits[idx[0]]] + Pick(hits, idx[1..])
  }

  /** lnis is the hits along a non-increasing subsequence ending at the
      last hit, and no non-increasing subsequence ending there is longer. */
  ghost predicate LongestEndingAtLast(v: seq<int>, hits: seq<int>, lnis: seq<int>)
    requires |v| == |hits|
  {
    (exists idx :: IsNonIncreasing(v, idx) && EndsAt(idx, |v| - 1) && lnis == Pick(hits, idx)) &&
    (forall idx :: IsNonIncreasing(v, idx) && EndsAt(idx, |v| - 1) ==> |idx| <= |lnis|)
  }

  /** lnis is the hits along a non-increasing subsequence, and no
      non-increasing subsequence is longer. */
  ghost predicate Longest(v: seq<int>, hits: seq<int>, lnis: seq<int>)
    requires |v| == |hits|
  {
    (exists idx :: IsNonIncreasing(v, idx) && lnis == Pick(hits, idx)) &&
    (forall idx :: IsNonIncreasing(v, idx) ==> |idx| <= |lnis|)
  }

  /** The values along a non-increasing subsequence are ordered pairwise,
      not only between neighbours. */
  lemma {:induction false} NonIncreasingPairwise(v: seq<int>, idx: seq<int>, a: int, b: int)
    requires IsNonIncreasing(v, idx) && 0 <= a < b < |idx|
    ensures idx[a] < idx[b] && v[idx[a]] >= v[idx[b]]
    decreases b - a
  {
    if a + 1 < b {
      NonIncreasingPairwise(v, idx, a + 1, b);
    }
  }

  // ---------------------------------------------------------------------
  // The predecessor array

  /** p[m] is -1 or an earlier position. */
  predicate PredOk(p: seq<int>)
  {
    forall m :: 0 <= m < |p| ==> -1 <= p[m] < m
  }

  /** Each predecessor holds a value at least as large. */
  predicate PredOrdered(v: seq<int>, p: seq<int>)
    requires |p| <= |v| && PredOk(p)
  {
    forall m :: 0 <= m < |p| && p[m] >= 0 ==> v[p[m]] >= v[m]
  }

  /** The positions visited by the predecessor walk from k, in order. */
  ghost function Chain(p: seq<int>, k: int): (c: seq<int>)
    requires PredOk(p) && 0 <= k < |p|
    ensures EndsAt(c, k)
    ensures forall m :: 0 <= m < |c| ==> 0 <= c[m] <= k
    decreases k
  {
    (if p[k] < 0 then [] else Chain(p, p[k])) + [k]
  }

  lemma {:induction false} ChainInRange(p: seq<int>, k: int)
    requires PredOk(p) && 0 <= k < |p|
    ensures forall m :: 0 <= m < |Chain(p, k)| ==> 0 <= Chain(p, k)[m] <= k
    decreases k
  {
    if p[k] >= 0 {
      ChainInRange(p, p[k]);
    }
  }

  lemma {:induction false} ChainIsNonIncreasing(v: seq<int>, p: seq<int>, k: int)
    requires |p| <= |v| && PredOk(p) && PredOrdered(v, p) && 0 <= k < |p|
    ensures IsNonIncreasing(v, Chain(p, k))
    decreases k
  {
    if p[k] >= 0 {
      ChainIsNonIncreasing(v, p, p[k]);
      var c := Chain(p, p[k]);
      assert Chain(p, k) == c + [k];
    }
  }

  /** Appending to p does not change the walks from earlier positions. */
  lemma {:induction false} ChainExtend(p: seq<int>, x: int, k: int)
    requires PredOk(p) && PredOk(p + [x]) && 0 <= k < |p|
    ensures Chain(p + [x], k) == Chain(p, k)
    decreases k
  {
    if p[k] >= 0 {
      ChainExtend(p, x, p[k]);
    }
  }

  /** Removing the last entry leaves a non-increasing subsequence ending
      at the one before. */
  lemma DropLast(v: seq<int>, idx: seq<int>)
    requires IsNonIncreasing(v, idx) && |idx| >= 2
    ensures IsNonIncreasing(v, idx[..|idx| - 1]) && EndsAt(idx[..|idx| - 1], idx[|idx| - 2])
    ensures idx[|idx| - 2] < idx[|idx| - 1] && v[idx[|idx| - 2]] >= v[idx[|idx| - 1]]
  {
  }

  // ---------------------------------------------------------------------
  // The forward pass
  //
  // Alongside s and p the proof keeps d[j], the length of the predecessor
  // walk from j. After n positions five facts hold, each kept by its own
  // predicate so that each step proves them one at a time.

  /** Every entry of s is a position below n. */
  predicate InRange(s: seq<int>, n: int)
  {
    forall k :: 0 <= k < |s| ==> 0 <= s[k] < n
  }

  /** Sizes and ranges, and d[j] is one more than d of j's predecessor. */
  ghost predicate Shape(v: seq<int>, n: int, s: seq<int>, p: seq<int>, d: seq<int>)
  {
    1 <= n <= |v| && |p| == n && |d| == n && PredOk(p) && PredOrdered(v, p) &&
    (forall m :: 0 <= m < n ==> d[m] == (if p[m] < 0 then 1 else d[p[m]] + 1)) &&
    1 <= |s| <= n && InRange(s, n)
  }

  /** The walk from the top of pile k visits k + 1 positions. */
  ghost predicate PileLengths(s: seq<int>, d: seq<int>)
  {
    forall k :: 0 <= k < |s| ==> 0 <= s[k] < |d| && d[s[k]] == k + 1
  }

  /** The pile tops never increase from the first pile to the last. */
  ghost predicate PilesSorted(v: seq<int>, s: seq<int>)
    requires InRange(s, |v|)
  {
    forall a, b :: 0 <= a < b < |s| ==> v[s[a]] >= v[s[b]]
  }

  /** Every position's walk is no longer than the number of piles, and the
      top of the pile of that length is at least its value. */
  ghost predicate Covered(v: seq<int>, n: int, s: seq<int>, d: seq<int>)
    requires n <= |d| && n <= |v| && InRange(s, |v|)
  {
    forall j :: 0 <= j < n ==> 1 <= d[j] <= |s| && v[s[d[j] - 1]] >= v[j]
  }

  /** No non-increasing subsequence ending at j is longer than j's walk. */
  ghost predicate Optimal(v: seq<int>, n: int, d: seq<int>)
    requires n <= |d|
  {
    forall j, idx :: 0 <= j < n && IsNonIncreasing(v, idx) && EndsAt(idx, j) ==> |idx| <= d[j]
  }

  ghost predicate Tables(v: seq<int>, n: int, s: seq<int>, p: seq<int>, d: seq<int>)
  {
    Shape(v, n, s, p, d) && PileLengths(s, d) && PilesSorted(v, s) &&
    Covered(v, n, s, d) && Optimal(v, n, d)
  }

  lemma TablesStart(v: seq<int>)
    requires |v| >= 1
    ensures Tables(v, 1, [0], [-1], [1])
  {
    forall idx | IsNonIncreasing(v, idx) && EndsAt(idx, 0)
      ensures |idx| <= 1
    {
      if |idx| >= 2 {
        DropLast(v, idx);
      }
    }
  }

  /** The binary search: lo is the first pile whose top value is below x. */
  method FindPile(v: seq<int>, s: seq<int>, x: int) returns (lo: int)
    requires InRange(s, |v|)
    requires PilesSorted(v, s)
    requires |s| > 0 && v[s[|s| - 1]] < x
    ensures 0 <= lo < |s|
    ensures forall k :: 0 <= k < lo ==> v[s[k]] >= x
    ensures forall k :: lo <= k < |s| ==> v[s[k]] < x
  {
    lo := 0;
    var hi := |s| - 1;
    while lo <= hi
      invariant 0 <= lo <= hi + 1 <= |s|
      invariant forall k :: 0 <= k < lo ==> v[s[k]] >= x
      invariant forall k :: hi < k < |s| ==> v[s[k]] < x
      decreases hi - lo + 1
    {
      var mid := (lo + hi) / 2;
      var y := v[s[mid]];
      if y < x {
        hi := mid - 1;
      } else {
        lo := mid + 1;
      }
    }
  }

  /** Optimality for the new position i, whose walk has length e, given
      that every earlier position with a value at least v[i] has a walk
      shorter than e. */
  lemma OptimalStep(v: seq<int>, d: seq<int>, i: int, e: int)
    requires |d| == i < |v|
    requires Optimal(v, i, d)
    requires 1 <= e
    requires forall j :: 0 <= j < i && v[j] >= v[i] ==> d[j] + 1 <= e
    ensures Optimal(v, i + 1, d + [e])
  {
    var d' := d + [e];
    forall j, idx | 0 <= j < i + 1 && IsNonIncreasing(v, idx) && EndsAt(idx, j)
      ensures |idx| <= d'[j]
    {
      if j == i && |idx| >= 2 {
        DropLast(v, idx);
      }
    }
  }

  /** Appending position i with predecessor q keeps the shape. */
  lemma ShapeStep(v: seq<int>, i: int, s: seq<int>, p: seq<int>, d: seq<int>, s': seq<int>, q: int, e: int)
    requires Shape(v, i, s, p, d) && i < |v|
    requires -1 <= q < i && (q >= 0 ==> v[q] >= v[i])
    requires e == (if q < 0 then 1 else d[q] + 1)
    requires 1 <= |s'| <= i + 1 && InRange(s', i + 1)
    ensures Shape(v, i + 1, s', p + [q], d + [e])
  {
    var p', d' := p + [q], d + [e];
    assert forall m :: 0 <= m < i ==> p'[m] == p[m] && d'[m] == d[m];
  }

  /** x is at most the top of the last pile: it starts a new pile. */
  lemma StepAppend(v: seq<int>, i: int, s: seq<int>, p: seq<int>, d: seq<int>)
    requires Tables(v, i, s, p, d) && i < |v|
    requires v[i] <= v[s[|s| - 1]]
    ensures Tables(v, i + 1, s + [i], p + [s[|s| - 1]], d + [|s| + 1])
  {
    AppendShape(v, i, s, p, d);
    AppendPiles(v, i, s, d);
    AppendCovered(v, i, s, d);
    OptimalStep(v, d, i, |s| + 1);
  }

  lemma AppendShape(v: seq<int>, i: int, s: seq<int>, p: seq<int>, d: seq<int>)
    requires Shape(v, i, s, p, d) && PileLengths(s, d) && i < |v|
    requires v[i] <= v[s[|s| - 1]]
    ensures Shape(v, i + 1, s + [i], p + [s[|s| - 1]], d + [|s| + 1])
  {
    var s' := s + [i];
    assert forall k :: 0 <= k < |s'| ==> s'[k] == if k < |s| then s[k] else i;
    ShapeStep(v, i, s, p, d, s', s[|s| - 1], |s| + 1);
  }

  lemma AppendPiles(v: seq<int>, i: int, s: seq<int>, d: seq<int>)
    requires |d| == i < |v| && 1 <= |s| && InRange(s, i)
    requires PileLengths(s, d) && PilesSorted(v, s)
    requires v[i] <= v[s[|s| - 1]]
    ensures PileLengths(s + [i], d + [|s| + 1]) && PilesSorted(v, s + [i])
  {
    var s', d' := s + [i], d + [|s| + 1];
    forall k | 0 <= k < |s'|
      ensures 0 <= s'[k] < |d'| && d'[s'[k]] == k + 1
    {
      if k < |s| {
        assert s'[k] == s[k] && d'[s[k]] == d[s[k]];
      }
    }
    forall a, b | 0 <= a < b < |s'|
      ensures v[s'[a]] >= v[s'[b]]
    {
      if b == |s| && a < |s| - 1 {
        assert v[s[a]] >= v[s[|s| - 1]];
      }
    }
  }

  lemma AppendCovered(v: seq<int>, i: int, s: seq<int>, d: seq<int>)
    requires |d| == i < |v| && 1 <= |s| && InRange(s, i)
    requires Covered(v, i, s, d)
    ensures InRange(s + [i], |v|)
    ensures Covered(v, i + 1, s + [i], d + [|s| + 1])
    ensures forall j :: 0 <= j < i ==> d[j] + 1 <= |s| + 1
  {
    var s', d' := s + [i], d + [|s| + 1];
    forall j | 0 <= j < i + 1
      ensures 1 <= d'[j] <= |s'| && v[s'[d'[j] - 1]] >= v[j]
    {
      if j < i {
        assert d'[j] == d[j] && s'[d[j] - 1] == s[d[j] - 1];
      }
    }
  }

  /** x is above the top of the last pile: it replaces the top of pile
      lo, the first whose top is below x. */
  lemma StepReplace(v: seq<int>, i: int, s: seq<int>, p: seq<int>, d: seq<int>, lo: int, q: int)
    requires Tables(v, i, s, p, d) && i < |v|
    requires 0 <= lo < |s|
    requires forall k :: 0 <= k < lo ==> v[s[k]] >= v[i]
    requires forall k :: lo <= k < |s| ==> v[s[k]] < v[i]
    requires q == if lo == 0 then -1 else s[lo - 1]
    ensures Tables(v, i + 1, s[lo := i], p + [q], d + [lo + 1])
  {
    ReplaceShape(v, i, s, p, d, lo, q);
    ReplacePiles(v, i, s, d, lo);
    ReplaceCovered(v, i, s, d, lo);
    OptimalStep(v, d, i, lo + 1);
  }

  lemma ReplaceShape(v: seq<int>, i: int, s: seq<int>, p: seq<int>, d: seq<int>, lo: int, q: int)
    requires Shape(v, i, s, p, d) && PileLengths(s, d) && i < |v|
    requires 0 <= lo < |s|
    requires forall k :: 0 <= k < lo ==> v[s[k]] >= v[i]
    requires q == if lo == 0 then -1 else s[lo - 1]
    ensures Shape(v, i + 1, s[lo := i], p + [q], d + [lo + 1])
  {
    var s' := s[lo := i];
    assert forall k :: 0 <= k < |s'| ==> s'[k] == if k == lo then i else s[k];
    if lo > 0 {
      assert v[s[lo - 1]] >= v[i] && d[s[lo - 1]] == lo;
    }
    ShapeStep(v, i, s, p, d, s', q, lo + 1);
  }

  lemma ReplacePiles(v: seq<int>, i: int, s: seq<int>, d: seq<int>, lo: int)
    requires |d| == i < |v| && InRange(s, i)
    requires PileLengths(s, d) && PilesSorted(v, s)
    requires 0 <= lo < |s|
    requires forall k :: 0 <= k < lo ==> v[s[k]] >= v[i]
    requires forall k :: lo <= k < |s| ==> v[s[k]] < v[i]
    ensures PileLengths(s[lo := i], d + [lo + 1]) && PilesSorted(v, s[lo := i])
  {
    var s', d' := s[lo := i], d + [lo + 1];
    forall k | 0 <= k < |s'|
      ensures 0 <= s'[k] < |d'| && d'[s'[k]] == k + 1
    {
      if k != lo {
        assert s'[k] == s[k] && d'[s[k]] == d[s[k]];
      }
    }
    forall a, b | 0 <= a < b < |s'|
      ensures v[s'[a]] >= v[s'[b]]
    {
      if a == lo {
        assert v[s[b]] < v[i];
      } else if b == lo {
        assert v[s[a]] >= v[i];
      } else {
        assert v[s[a]] >= v[s[b]];
      }
    }
  }

  lemma ReplaceCovered(v: seq<int>, i: int, s: seq<int>, d: seq<int>, lo: int)
    requires |d| == i < |v| && InRange(s, i)
    requires Covered(v, i, s, d)
    requires 0 <= lo < |s|
    requires forall k :: lo <= k < |s| ==> v[s[k]] < v[i]
    ensures InRange(s[lo := i], |v|)
    ensures Covered(v, i + 1, s[lo := i], d + [lo + 1])
    ensures forall j :: 0 <= j < i && v[j] >= v[i] ==> d[j] + 1 <= lo + 1
  {
    var s', d' := s[lo := i], d + [lo + 1];
    forall j | 0 <= j < i + 1
      ensures 1 <= d'[j] <= |s'| && v[s'[d'[j] - 1]] >= v[j]
    {
      if j < i {
        assert d'[j] == d[j] && v[s[d[j] - 1]] >= v[j];
      }
    }
    forall j | 0 <= j < i && v[j] >= v[i]
      ensures d[j] + 1 <= lo + 1
    {
      assert v[s[d[j] - 1]] >= v[j];
    }
  }

  /** The forward loop of computeLNIS over a non-empty hits list; d is
      the proof's record of walk lengths. */
  method ForwardPass(v: seq<int>) returns (s: seq<int>, p: seq<int>, ghost d: seq<int>)
    requires |v| >= 1
    ensures Tables(v, |v|, s, p, d)
    ensures |p| == |v| && PredOk(p) && PredOrdered(v, p)
    ensures 1 <= |s| <= |v| && InRange(s, |v|) && PilesSorted(v, s)
  {
    s := [0];
    p := [-1];
    d := [1];
    TablesStart(v);
    var i := 1;
    while i < |v|
      invariant 1 <= i <= |v|
      invariant Tables(v, i, s, p, d)
      decreases |v| - i
    {
      s, p, d := Step(v, i, s, p, d);
      i := i + 1;
    }
  }

  /** One iteration of the forward loop: position i either starts a new
      pile or replaces the top of the first pile whose top is below it. */
  method Step(v: seq<int>, i: int, s: seq<int>, p: seq<int>, ghost d: seq<int>)
    returns (s': seq<int>, p': seq<int>, ghost d': seq<int>)
    requires Tables(v, i, s, p, d) && i < |v|
    ensures Tables(v, i + 1, s', p', d')
    ensures |p'| == i + 1 && p'[..i] == p && PredOk(p') && PredOrdered(v, p')
    ensures 1 <= |s'| <= i + 1 && InRange(s', i + 1) && PilesSorted(v, s')
  {
    var x := v[i];
    if x <= v[s[|s| - 1]] {
      StepAppend(v, i, s, p, d);
      s', p', d' := s + [i], p + [s[|s| - 1]], d + [|s| + 1];
    } else {
      var lo := FindPile(v, s, x);
      var q := if lo == 0 then -1 else s[lo - 1];
      StepReplace(v, i, s, p, d, lo, q);
      s', p', d' := s[lo := i], p + [q], d + [lo + 1];
    }
  }

  /** d records the walk lengths. */
  lemma {:induction false} ChainLength(v: seq<int>, n: int, s: seq<int>, p: seq<int>, d: seq<int>, k: int)
    requires Shape(v, n, s, p, d) && 0 <= k < n
    ensures |Chain(p, k)| == d[k]
    decreases k
  {
    if p[k] >= 0 {
      ChainLength(v, n, s, p, d, p[k]);
    }
  }

  /** The walk from k is non-increasing, ends at k, and is as long as any
      non-increasing subsequence ending at k. */
  ghost predicate WalkLongest(v: seq<int>, p: seq<int>, k: int)
    requires PredOk(p) && 0 <= k < |p|
  {
    IsNonIncreasing(v, Chain(p, k)) && EndsAt(Chain(p, k), k) &&
    forall idx :: IsNonIncreasing(v, idx) && EndsAt(idx, k) ==> |idx| <= |Chain(p, k)|
  }

  /** After the pass every walk is a longest one for its end. */
  lemma WalkIsLongest(v: seq<int>, s: seq<int>, p: seq<int>, d: seq<int>, k: int)
    requires Shape(v, |v|, s, p, d) && Optimal(v, |v|, d) && 0 <= k < |v|
    ensures |p| == |v| && PredOk(p)
    ensures WalkLongest(v, p, k)
  {
    ChainIsNonIncreasing(v, p, k);
    ChainLength(v, |v|, s, p, d, k);
  }

  /** After the pass, the walk from the top of the last pile is as long as
      any non-increasing subsequence at all. */
  lemma LongestPileIsLongest(v: seq<int>, s: seq<int>, p: seq<int>, d: seq<int>)
    requires Tables(v, |v|, s, p, d)
    ensures forall idx :: IsNonIncreasing(v, idx) ==> |idx| <= |Chain(p, s[|s| - 1])|
  {
    ChainLength(v, |v|, s, p, d, s[|s| - 1]);
    forall idx | IsNonIncreasing(v, idx)
      ensures |idx| <= |s|
    {
      if |idx| > 0 {
        var j := idx[|idx| - 1];
        assert EndsAt(idx, j) && d[j] <= |s|;
      }
    }
  }

  /** The predecessor walk from start, collecting hits[pos] at the front. */
  method ReadPredecessors(hits: seq<int>, p: seq<int>, start: int) returns (lnis: seq<int>)
    requires |p| == |hits| && PredOk(p) && 0 <= start < |p|
    ensures lnis == Pick(hits, Chain(p, start))
  {
    var pos := start;
    lnis := [];
    ghost var rest: seq<int> := [];
    while pos >= 0
      invariant -1 <= pos < |p|
      invariant forall k :: 0 <= k < |rest| ==> 0 <= rest[k] < |hits|
      invariant Chain(p, start) == (if pos >= 0 then Chain(p, pos) else []) + rest
      invariant lnis == Pick(hits, rest)
      decreases pos + 1
    {
      WalkStep(hits, p, start, pos, rest);
      lnis := [hits[pos]] + lnis;
      rest := [pos] + rest;
      pos := p[pos];
    }
    assert [] + rest == rest;
  }

  /** One step of the walk keeps the loop's two invariants. */
  lemma WalkStep(hits: seq<int>, p: seq<int>, start: int, pos: int, rest: seq<int>)
    requires |p| == |hits| && PredOk(p) && 0 <= start < |p| && 0 <= pos < |p|
    requires forall k :: 0 <= k < |rest| ==> 0 <= rest[k] < |hits|
    requires Chain(p, start) == Chain(p, pos) + rest
    ensures forall k :: 0 <= k < |[pos] + rest| ==> 0 <= ([pos] + rest)[k] < |hits|
    ensures Chain(p, start) == (if p[pos] >= 0 then Chain(p, p[pos]) else []) + ([pos] + rest)
    ensures Pick(hits, [pos] + rest) == [hits[pos]] + Pick(hits, rest)
  {
    ChainStep(p, pos, rest);
    PickCons(hits, pos, rest);
  }

  lemma ChainStep(p: seq<int>, pos: int, rest: seq<int>)
    requires PredOk(p) && 0 <= pos < |p|
    ensures Chain(p, pos) + rest == (if p[pos] < 0 then [] else Chain(p, p[pos])) + ([pos] + rest)
  {
  }

  lemma PickCons(hits: seq<int>, pos: int, rest: seq<int>)
    requires 0 <= pos < |hits| && forall k :: 0 <= k < |rest| ==> 0 <= rest[k] < |hits|
    ensures Pick(hits, [pos] + rest) == [hits[pos]] + Pick(hits, rest)
  {
    assert ([pos] + rest)[1..] == rest;
  }

  lemma {:induction false} PickLast(hits: seq<int>, idx: seq<int>)
    requires |idx| > 0 && forall k :: 0 <= k < |idx| ==> 0 <= idx[k] < |hits|
    ensures Pick(hits, idx)[|idx| - 1] == hits[idx[|idx| - 1]]
    decreases |idx|
  {
    if |idx| > 1 {
      PickLast(hits, idx[1..]);
    }
  }

  /** computeLNIS as written: the walk starts at the last position. The
      result is a longest non-increasing subsequence among those ending at
      the last hit; empty hits give an empty result. */
  method ComputeLnis(elements: seq<int>, hits: seq<int>) returns (lnis: seq<int>)
    requires forall i :: 0 <= i < |hits| ==> 0 <= hits[i] < |elements|
    ensures |hits| == 0 ==> lnis == []
    ensures |hits| > 0 ==> LongestEndingAtLast(Values(elements, hits), hits, lnis)
    ensures |hits| > 0 ==> |lnis| > 0 && lnis[|lnis| - 1] == hits[|hits| - 1]
  {
    if |hits| == 0 {
      return [];
    }
    lnis := WalkFromLast(Values(elements, hits), hits);
  }

  /** The forward pass and the walk back from the last position. */
  method WalkFromLast(v: seq<int>, hits: seq<int>) returns (lnis: seq<int>)
    requires |v| == |hits| > 0
    ensures LongestEndingAtLast(v, hits, lnis)
    ensures |lnis| > 0 && lnis[|lnis| - 1] == hits[|hits| - 1]
  {
    ghost var d;
    var s, p;
    s, p, d := ForwardPass(v);
    LastPositionWalk(v, s, p, d);
    lnis := ReadPredecessors(hits, p, |v| - 1);
    LastWalkMeetsContract(v, hits, p, lnis);
  }

  lemma LastPositionWalk(v: seq<int>, s: seq<int>, p: seq<int>, d: seq<int>)
    requires Shape(v, |v|, s, p, d) && Optimal(v, |v|, d)
    ensures |p| == |v| && PredOk(p) && WalkLongest(v, p, |v| - 1)
  {
    WalkIsLongest(v, s, p, d, |v| - 1);
  }

  /** The walk from the last position keeps the last hit at the end. */
  lemma LastHitAtEnd(hits: seq<int>, p: seq<int>)
    requires PredOk(p) && |p| == |hits| > 0
    ensures var r := Pick(hits, Chain(p, |p| - 1)); |r| > 0 && r[|r| - 1] == hits[|p| - 1]
  {
    PickLast(hits, Chain(p, |p| - 1));
  }

  lemma LastWalkMeetsContract(v: seq<int>, hits: seq<int>, p: seq<int>, lnis: seq<int>)
    requires |p| == |v| == |hits| > 0 && PredOk(p)
    requires WalkLongest(v, p, |v| - 1)
    requires lnis == Pick(hits, Chain(p, |v| - 1))
    ensures LongestEndingAtLast(v, hits, lnis)
    ensures |lnis| > 0 && lnis[|lnis| - 1] == hits[|hits| - 1]
  {
    var c := Chain(p, |v| - 1);
    assert IsNonIncreasing(v, c) && EndsAt(c, |v| - 1) && lnis == Pick(hits, c);
    LastHitAtEnd(hits, p);
  }

  /** After the pass, the walk from the top of the last pile is
      non-increasing and as long as any non-increasing subsequence. */
  lemma TopWalk(v: seq<int>, s: seq<int>, p: seq<int>, d: seq<int>)
    requires Tables(v, |v|, s, p, d)
    ensures |p| == |v| && PredOk(p) && |s| > 0 && 0 <= s[|s| - 1] < |p|
    ensures IsNonIncreasing(v, Chain(p, s[|s| - 1]))
    ensures forall idx :: IsNonIncreasing(v, idx) ==> |idx| <= |Chain(p, s[|s| - 1])|
  {
    WalkIsLongest(v, s, p, d, s[|s| - 1]);
    LongestPileIsLongest(v, s, p, d);
  }

  lemma TopWalkMeetsContract(v: seq<int>, hits: seq<int>, p: seq<int>, top: int)
    requires |p| == |v| == |hits| && PredOk(p) && 0 <= top < |p|
    requires IsNonIncreasing(v, Chain(p, top))
    requires forall idx :: IsNonIncreasing(v, idx) ==> |idx| <= |Chain(p, top)|
    ensures Longest(v, hits, Pick(hits, Chain(p, top)))
  {
  }

  /** computeLNIS with the walk starting at s.back(), the top of the
      longest pile: a longest non-increasing subsequence overall. */
  method ComputeLnisLongest(elements: seq<int>, hits: seq<int>) returns (lnis: seq<int>)
    requires forall i :: 0 <= i < |hits| ==> 0 <= hits[i] < |elements|
    ensures |hits| == 0 ==> lnis == []
    ensures |hits| > 0 ==> Longest(Values(elements, hits), hits, lnis)
  {
    if |hits| == 0 {
      return [];
    }
    lnis := WalkFromTop(Values(elements, hits), hits);
  }

  /** The forward pass and the walk back from the top of the last pile. */
  method WalkFromTop(v: seq<int>, hits: seq<int>) returns (lnis: seq<int>)
    requires |v| == |hits| > 0
    ensures Longest(v, hits, lnis)
  {
    ghost var d;
    var s, p;
    s, p, d := ForwardPass(v);
    TopWalk(v, s, p, d);
    lnis := ReadPredecessors(hits, p, s[|s| - 1]);
    TopWalkMeetsContract(v, hits, p, s[|s| - 1]);
  }

  // ---------------------------------------------------------------------
  // Consequences

  /** The positions 0 .. n-1, for calling computeLNIS on a plain vector. */
  function Identity(n: nat): (r: seq<int>)
    ensures |r| == n && forall i :: 0 <= i < n ==> r[i] == i
  {
    seq(n, i => i)
  }

  /** Picking from the identity list gives back the positions. */
  lemma {:induction false} PickIdentity(n: nat, idx: seq<int>)
    requires forall k :: 0 <= k < |idx| ==> 0 <= idx[k] < n
    ensures Pick(Identity(n), idx) == idx
    decreases |idx|
  {
    if |idx| > 0 {
      PickIdentity(n, idx[1..]);
      assert [idx[0]] + idx[1..] == idx;
    }
  }

  /** The first vector of test/test_lnis.cpp. */
  const VectorOne: seq<int> := [10, 9, 9, 8, 2, 1, 8, 7, 6, 5]

  /** It has exactly one answer that meets the contract of computeLNIS. */
  lemma TestVectorOne(lnis: seq<int>)
    requires LongestEndingAtLast(VectorOne, Identity(10), lnis)
    ensures lnis == [0, 1, 2, 3, 6, 7, 8, 9]
  {
    VectorOneWitness();
    var idx :| IsNonIncreasing(VectorOne, idx) && EndsAt(idx, 9) && lnis == Pick(Identity(10), idx);
    PickIdentity(10, idx);
    VectorOneAvoids(idx);
    SkipsTwo(idx);
  }

  lemma VectorOneWitness()
    ensures IsNonIncreasing(VectorOne, [0, 1, 2, 3, 6, 7, 8, 9]) && EndsAt([0, 1, 2, 3, 6, 7, 8, 9], 9)
  {
    var w: seq<int> := [0, 1, 2, 3, 6, 7, 8, 9];
    forall k | 0 < k < |w|
      ensures w[k - 1] < w[k] && VectorOne[w[k - 1]] >= VectorOne[w[k]]
    {
      if k < 4 {
        assert w[k - 1] == k - 1 && w[k] == k;
      } else if k > 4 {
        assert w[k - 1] == k + 1 && w[k] == k + 2;
      }
    }
  }

  /** A non-increasing subsequence of the first vector ending at its last
      element never takes the values 2 and 1 at positions 4 and 5. */
  lemma VectorOneAvoids(idx: seq<int>)
    requires IsNonIncreasing(VectorOne, idx) && EndsAt(idx, 9)
    ensures forall k :: 0 <= k < |idx| ==> 0 <= idx[k] && idx[k] != 4 && idx[k] != 5
    ensures forall k :: 0 < k < |idx| ==> idx[k - 1] < idx[k]
  {
    forall k | 0 <= k < |idx|
      ensures idx[k] != 4 && idx[k] != 5
    {
      if k < |idx| - 1 {
        NonIncreasingPairwise(VectorOne, idx, k, |idx| - 1);
      }
    }
  }

  /** A strictly increasing list of positions from 0 ..= 9 that never
      takes 4 or 5, ends at 9 and has at least 8 entries is the listing of
      the other eight. */
  lemma SkipsTwo(idx: seq<int>)
    requires |idx| >= 8 && EndsAt(idx, 9)
    requires forall k :: 0 <= k < |idx| ==> 0 <= idx[k] && idx[k] != 4 && idx[k] != 5
    requires forall k :: 0 < k < |idx| ==> idx[k - 1] < idx[k]
    ensures idx == [0, 1, 2, 3, 6, 7, 8, 9]
  {
    var n := |idx|;
    Gap(idx, 0, 4);
    Gap(idx, 4, n - 1);
    assert n == 8;
    EightAscending(idx[0], idx[1], idx[2], idx[3], idx[4], idx[5], idx[6], idx[7]);
    assert idx == [idx[0], idx[1], idx[2], idx[3], idx[4], idx[5], idx[6], idx[7]];
  }

  /** Eight ascending naturals up to 9 that miss 4 and 5 are the other eight. */
  lemma EightAscending(a0: int, a1: int, a2: int, a3: int, a4: int, a5: int, a6: int, a7: int)
    requires 0 <= a0 < a1 < a2 < a3 < a4 < a5 < a6 < a7 == 9
    requires a0 != 4 && a1 != 4 && a2 != 4 && a3 != 4 && a4 != 4 && a5 != 4 && a6 != 4
    requires a0 != 5 && a1 != 5 && a2 != 5 && a3 != 5 && a4 != 5 && a5 != 5 && a6 != 5
    ensures a0 == 0 && a1 == 1 && a2 == 2 && a3 == 3 && a4 == 6 && a5 == 7 && a6 == 8
  {
  }

  lemma {:induction false} AtLeastIndex(idx: seq<int>, k: int)
    requires forall m :: 0 < m < |idx| ==> idx[m - 1] < idx[m]
    requires 0 <= k < |idx|
    ensures forall m :: k <= m < |idx| ==> idx[m] >= idx[k] + (m - k)
  {
    forall m | k <= m < |idx|
      ensures idx[m] >= idx[k] + (m - k)
    {
      Gap(idx, k, m);
    }
  }

  lemma {:induction false} Gap(idx: seq<int>, k: int, m: int)
    requires forall t :: 0 < t < |idx| ==> idx[t - 1] < idx[t]
    requires 0 <= k <= m < |idx|
    ensures idx[m] >= idx[k] + (m - k)
    decreases m - k
  {
    if k < m {
      Gap(idx, k + 1, m);
    }
  }

  /** The reconstruction's starting point is a real restriction: on
      elements {3, 2, 5} the contract of computeLNIS as written forces the
      answer [2], while positions [0, 1] form a longer non-increasing
      subsequence. */
  lemma LastHitCounterexample(lnis: seq<int>)
    requires LongestEndingAtLast([3, 2, 5], Identity(3), lnis)
    ensures lnis == [2]
    ensures IsNonIncreasing([3, 2, 5], [0, 1]) && |lnis| < 2
  {
    LastHitForcesSingle(lnis);
    TwoFirstIsNonIncreasing();
  }

  lemma LastHitForcesSingle(lnis: seq<int>)
    requires LongestEndingAtLast([3, 2, 5], Identity(3), lnis)
    ensures lnis == [2]
  {
    var idx :| IsNonIncreasing([3, 2, 5], idx) && EndsAt(idx, 2) && lnis == Pick(Identity(3), idx);
    AloneAfterSmaller([3, 2, 5], idx, 2);
    PickIdentity(3, idx);
  }

  lemma TwoFirstIsNonIncreasing()
    ensures IsNonIncreasing([3, 2, 5], [0, 1])
  {
  }

  /** Nothing comes before a value larger than all earlier ones in a
      non-increasing subsequence. */
  lemma AloneAfterSmaller(v: seq<int>, idx: seq<int>, j: int)
    requires IsNonIncreasing(v, idx) && EndsAt(idx, j)
    requires forall m :: 0 <= m < j ==> v[m] < v[j]
    ensures idx == [j]
  {
    if |idx| >= 2 {
      DropLast(v, idx);
      assert false;
    }
  }
}
