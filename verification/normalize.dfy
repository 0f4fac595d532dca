/** `sort_and_normalize(intervals, given_start_dt, next_day)`: sort, drop the
    intervals that end before the day starts, clip the rest to the day, and
    merge the ones that overlap. The merge test is strict (`y.start < x.stop`):
    intervals that only touch stay separate entries. */
module Normalize {
  import opened Intervals

  /** The intervals a normalized list may hold for the day [given, nextDay):
      they start and end no earlier than `given`, and one that starts before
      `nextDay` ends by `nextDay`. */
  predicate InScope(s: seq<Interval>, given: int, nextDay: int)
  {
    forall iv :: iv in s ==>
      given <= iv.start && given <= iv.stop && (iv.start < nextDay ==> iv.stop <= nextDay)
  }

  /** The two clipping steps applied to one interval that was kept. */
  function ClipOne(iv: Interval, given: int, nextDay: int): (r: Interval)
    requires given <= iv.stop
    ensures InScope([r], given, nextDay)
    ensures given <= nextDay <= iv.start ==> r == iv
    ensures Valid(iv) ==> Valid(r)
    ensures forall t :: Contains(r, t) <==>
      Contains(iv, t) && given <= t && (r.start < nextDay ==> t < nextDay)
  {
    var start := if iv.start < given then given else iv.start;
    var stop := if start < nextDay && iv.stop > nextDay then nextDay else iv.stop;
    Interval(start, stop)
  }

  /** The list `clean_intervals` built from the first n entries of the
      (sorted) list s: those with `stop < given` are skipped, the others
      clipped. */
  function Clip(s: seq<Interval>, n: nat, given: int, nextDay: int): (r: seq<Interval>)
    requires n <= |s|
    ensures |r| <= n
  {
    if n == 0 then []
    else
      var init := Clip(s, n - 1, given, nextDay);
      if s[n - 1].stop < given then init else init + [ClipOne(s[n - 1], given, nextDay)]
  }

  /** Clipping keeps an interval exactly when it does not end before
      `given`, and what it keeps lies in the day's scope. */
  lemma {:induction false} ClipFacts(s: seq<Interval>, n: nat, given: int, nextDay: int)
    requires n <= |s|
    ensures InScope(Clip(s, n, given, nextDay), given, nextDay)
    ensures AllValid(s) ==> AllValid(Clip(s, n, given, nextDay))
    ensures (exists k :: 0 <= k < n && given <= s[k].stop) <==> Clip(s, n, given, nextDay) != []
    ensures forall k :: 0 <= k < n && given <= s[k].stop ==>
      ClipOne(s[k], given, nextDay) in Clip(s, n, given, nextDay)
    ensures forall iv :: iv in Clip(s, n, given, nextDay) ==>
      exists k :: 0 <= k < n && given <= s[k].stop && iv == ClipOne(s[k], given, nextDay)
  {
    if n > 0 {
      ClipFacts(s, n - 1, given, nextDay);
      assert s[n - 1] in s;
    }
    ClipMembers(s, n, given, nextDay);
  }

  /** The members of `Clip(s, n, ...)` are the clipped entries of s[..n]
      that do not end before `given`. */
  lemma {:induction false} ClipMembers(s: seq<Interval>, n: nat, given: int, nextDay: int)
    requires n <= |s|
    ensures (exists k :: 0 <= k < n && given <= s[k].stop) <==> Clip(s, n, given, nextDay) != []
    ensures forall k :: 0 <= k < n && given <= s[k].stop ==>
      ClipOne(s[k], given, nextDay) in Clip(s, n, given, nextDay)
    ensures forall iv :: iv in Clip(s, n, given, nextDay) ==>
      exists k :: 0 <= k < n && given <= s[k].stop && iv == ClipOne(s[k], given, nextDay)
  {
    if n > 0 {
      ClipMembers(s, n - 1, given, nextDay);
      var init := Clip(s, n - 1, given, nextDay);
      if given <= s[n - 1].stop {
        var c := ClipOne(s[n - 1], given, nextDay);
        assert Clip(s, n, given, nextDay) == init + [c];
        assert c in init + [c];
      }
    }
  }

  /** Every start in `Clip(s, n, ...)` is at most `Max(given, b)` when the
      first n starts of s are at most b. */
  lemma {:induction false} ClipStartsBounded(s: seq<Interval>, n: nat, given: int, nextDay: int, b: int)
    requires n <= |s|
    requires forall k :: 0 <= k < n ==> s[k].start <= b
    ensures forall iv :: iv in Clip(s, n, given, nextDay) ==> iv.start <= Max(given, b)
  {
    if n > 0 {
      ClipStartsBounded(s, n - 1, given, nextDay, b);
    }
  }

  /** Clipping keeps a list that is sorted by start sorted by start. */
  lemma {:induction false} ClipSorted(s: seq<Interval>, n: nat, given: int, nextDay: int)
    requires n <= |s|
    requires SortedByStart(s)
    ensures SortedByStart(Clip(s, n, given, nextDay))
  {
    if n > 0 {
      ClipSorted(s, n - 1, given, nextDay);
      ClipStartsBounded(s, n - 1, given, nextDay, s[n - 1].start);
    }
  }

  /** Some interval of s that starts at or after `nextDay` holds t: the
      intervals the first loop keeps without clipping. */
  predicate LateCovered(s: seq<Interval>, nextDay: int, t: int)
  {
    exists iv :: iv in s && nextDay <= iv.start && Contains(iv, t)
  }

  /** The points the clipped list covers. Below `nextDay`: exactly the
      points of s[..n] from `given` on. From `nextDay` on: exactly the points
      of the intervals of s[..n] that start at or after `nextDay`, which are
      kept as they are, since every other kept interval is cut at `nextDay`. */
  lemma {:induction false} ClipCovers(s: seq<Interval>, n: nat, given: int, nextDay: int, t: int)
    requires n <= |s|
    ensures t < nextDay ==>
      (Covered(Clip(s, n, given, nextDay), t) <==> given <= t && Covered(s[..n], t))
    ensures given < nextDay <= t ==>
      (Covered(Clip(s, n, given, nextDay), t) <==> LateCovered(s[..n], nextDay, t))
  {
    if n > 0 {
      var last := s[n - 1];
      var init := Clip(s, n - 1, given, nextDay);
      assert s[..n] == s[..n - 1] + [last];
      ClipCovers(s, n - 1, given, nextDay, t);
      CoveredAppend(s[..n - 1], [last], t);
      var lateLast := nextDay <= last.start && Contains(last, t);
      assert LateCovered(s[..n], nextDay, t) <==> LateCovered(s[..n - 1], nextDay, t) || lateLast by {
        if LateCovered(s[..n], nextDay, t) {
          var iv :| iv in s[..n] && nextDay <= iv.start && Contains(iv, t);
          if iv != last {
            assert iv in s[..n - 1];
          }
        }
        if LateCovered(s[..n - 1], nextDay, t) {
          var iv :| iv in s[..n - 1] && nextDay <= iv.start && Contains(iv, t);
          assert iv in s[..n];
        }
        if lateLast {
          assert last in s[..n];
        }
      }
      if last.stop >= given {
        var c := ClipOne(last, given, nextDay);
        CoveredAppend(init, [c], t);
        assert Covered([c], t) <==> Contains(c, t) by {
          if Covered([c], t) {
            var iv :| iv in [c] && Contains(iv, t);
          }
          if Contains(c, t) {
            assert c in [c];
          }
        }
        assert given < nextDay <= t ==> (Contains(c, t) <==> lateLast);
      }
    }
  }

  /** Every interval of s from index j on starts at b or later. */
  predicate StartsFrom(b: int, s: seq<Interval>, j: nat)
  {
    forall k :: j <= k < |s| ==> b <= s[k].start
  }

  /** The merge loop of `sort_and_normalize` as a function: x is the running
      interval and s[j..] the intervals not yet looked at. One that starts
      strictly before `x.stop` extends x; any other closes x and starts a new
      run. */
  function StrictMerge(x: Interval, s: seq<Interval>, j: nat): (r: seq<Interval>)
    ensures r != [] && r[0].start == x.start
    decreases |s| - j
  {
    if j >= |s| then [x]
    else if s[j].start < x.stop then
      StrictMerge(Interval(x.start, Max(x.stop, s[j].stop)), s, j + 1)
    else
      [x] + StrictMerge(s[j], s, j + 1)
  }

  /** An interval that ends by the start of every entry of a sorted list
      without overlaps, put in front of it, keeps it so. */
  lemma DisjointCons(x: Interval, tail: seq<Interval>)
    requires SortedByStart(tail) && Disjoint(tail)
    requires forall iv :: iv in tail ==> x.start <= iv.start && x.stop <= iv.start
    ensures SortedByStart([x] + tail) && Disjoint([x] + tail)
    ensures forall iv :: iv in [x] + tail ==> x.start <= iv.start
  {
    var r := [x] + tail;
    forall a, b | 0 <= a < b < |r| ensures r[a].start <= r[b].start && r[a].stop <= r[b].start {
      assert r[b] == tail[b - 1];
      assert r[b] in tail;
      if a > 0 {
        assert r[a] == tail[a - 1];
      }
    }
  }

  /** The runs come out sorted by start and without overlaps. */
  lemma {:induction false} StrictMergeOrdered(x: Interval, s: seq<Interval>, j: nat)
    requires StartsFrom(x.start, s, j) && SortedByStart(s)
    ensures var r := StrictMerge(x, s, j);
      SortedByStart(r) && Disjoint(r) && forall iv :: iv in r ==> x.start <= iv.start
    decreases |s| - j
  {
    if j < |s| {
      var y := s[j];
      if y.start < x.stop {
        StrictMergeOrdered(Interval(x.start, Max(x.stop, y.stop)), s, j + 1);
      } else {
        StrictMergeOrdered(y, s, j + 1);
        DisjointCons(x, StrictMerge(y, s, j + 1));
      }
    }
  }

  /** Merging two intervals where the second starts inside the first covers
      exactly the points of both. */
  lemma MergePairCovers(x: Interval, y: Interval, t: int)
    requires x.start <= y.start <= x.stop
    ensures Contains(Interval(x.start, Max(x.stop, y.stop)), t) <==> Contains(x, t) || Contains(y, t)
  {
  }

  /** The runs cover exactly the points of x and of s[j..]. */
  lemma {:induction false} StrictMergeCovers(x: Interval, s: seq<Interval>, j: nat, t: int)
    requires j <= |s|
    requires StartsFrom(x.start, s, j) && SortedByStart(s)
    ensures Covered(StrictMerge(x, s, j), t) <==> Contains(x, t) || Covered(s[j..], t)
    decreases |s| - j
  {
    if j < |s| {
      var y := s[j];
      assert s[j..] == [y] + s[j + 1..];
      CoveredAppend([y], s[j + 1..], t);
      if y.start < x.stop {
        var merged := Interval(x.start, Max(x.stop, y.stop));
        MergePairCovers(x, y, t);
        StrictMergeCovers(merged, s, j + 1, t);
      } else {
        StrictMergeCovers(y, s, j + 1, t);
        CoveredAppend([x], StrictMerge(y, s, j + 1), t);
      }
    } else {
      assert s[j..] == [];
    }
  }

  /** Merging keeps valid intervals valid. */
  lemma {:induction false} StrictMergeValid(x: Interval, s: seq<Interval>, j: nat)
    requires Valid(x) && AllValid(s)
    ensures AllValid(StrictMerge(x, s, j))
    decreases |s| - j
  {
    if j < |s| {
      var y := s[j];
      assert y in s;
      if y.start < x.stop {
        StrictMergeValid(Interval(x.start, Max(x.stop, y.stop)), s, j + 1);
      } else {
        StrictMergeValid(y, s, j + 1);
        var t := StrictMerge(y, s, j + 1);
        forall iv | iv in [x] + t ensures Valid(iv) {
          if iv != x {
            assert iv in t;
          }
        }
      }
    }
  }

  /** Merging keeps the day's scope. */
  lemma {:induction false} StrictMergeInScope(x: Interval, s: seq<Interval>, j: nat, given: int, nextDay: int)
    requires InScope([x], given, nextDay) && InScope(s, given, nextDay)
    ensures InScope(StrictMerge(x, s, j), given, nextDay)
    decreases |s| - j
  {
    assert x in [x];
    if j < |s| {
      var y := s[j];
      assert y in s;
      if y.start < x.stop {
        var merged := Interval(x.start, Max(x.stop, y.stop));
        assert InScope([merged], given, nextDay) by {
          forall iv | iv in [merged] ensures
            given <= iv.start && given <= iv.stop && (iv.start < nextDay ==> iv.stop <= nextDay)
          {
            assert iv == merged;
          }
        }
        StrictMergeInScope(merged, s, j + 1, given, nextDay);
      } else {
        assert InScope([y], given, nextDay) by {
          forall iv | iv in [y] ensures
            given <= iv.start && given <= iv.stop && (iv.start < nextDay ==> iv.stop <= nextDay)
          {
            assert iv == y;
          }
        }
        StrictMergeInScope(y, s, j + 1, given, nextDay);
        var t := StrictMerge(y, s, j + 1);
        forall iv | iv in [x] + t ensures
          given <= iv.start && given <= iv.stop && (iv.start < nextDay ==> iv.stop <= nextDay)
        {
          if iv != x {
            assert iv in t;
          }
        }
      }
    }
  }

  /** What `sort_and_normalize` returns, as a function of its arguments. */
  function Normalized(intervals: seq<Interval>, given: int, nextDay: int): (r: seq<Interval>)
    requires exists iv :: iv in intervals && given <= iv.stop
    ensures r != []
    ensures SortedByStart(r) && Disjoint(r)
    ensures InScope(r, given, nextDay)
    ensures AllValid(intervals) ==> AllValid(r)
    ensures forall t :: t < nextDay ==> (Covered(r, t) <==> given <= t && Covered(intervals, t))
    ensures given < nextDay ==>
      forall t :: nextDay <= t ==> (Covered(r, t) <==> LateCovered(intervals, nextDay, t))
  {
    var clean := Clip(SortLex(intervals), |intervals|, given, nextDay);
    CleanFacts(intervals, given, nextDay);
    StrictMergeOrdered(clean[0], clean, 1);
    StrictMergeInScope(clean[0], clean, 1, given, nextDay);
    var r := StrictMerge(clean[0], clean, 1);
    assert AllValid(intervals) ==> AllValid(r) by {
      if AllValid(intervals) {
        StrictMergeValid(clean[0], clean, 1);
      }
    }
    assert forall t :: t < nextDay ==> (Covered(r, t) <==> given <= t && Covered(intervals, t)) by {
      forall t | t < nextDay {
        NormalizedCovers(intervals, given, nextDay, t);
      }
    }
    assert given < nextDay ==>
      forall t :: nextDay <= t ==> (Covered(r, t) <==> LateCovered(intervals, nextDay, t)) by {
      if given < nextDay {
        forall t | nextDay <= t {
          NormalizedLateCovers(intervals, given, nextDay, t);
        }
      }
    }
    r
  }

  /** The list `clean_intervals` is not empty, is sorted by start, lies in
      the day's scope and holds valid intervals when the input does. */
  lemma CleanFacts(intervals: seq<Interval>, given: int, nextDay: int)
    requires exists iv :: iv in intervals && given <= iv.stop
    ensures var clean := Clip(SortLex(intervals), |intervals|, given, nextDay);
      && clean != []
      && SortedByStart(clean)
      && InScope(clean, given, nextDay)
      && InScope([clean[0]], given, nextDay)
      && (AllValid(intervals) ==> Valid(clean[0]))
      && (AllValid(intervals) ==> AllValid(clean))
  {
    var sorted := SortLex(intervals);
    SortedLexByStart(sorted);
    var iv :| iv in intervals && given <= iv.stop;
    assert iv in multiset(sorted);
    ClipFacts(sorted, |sorted|, given, nextDay);
    ClipSorted(sorted, |sorted|, given, nextDay);
    if AllValid(intervals) {
      assert forall x :: x in sorted ==> x in multiset(intervals);
    }
  }

  lemma NormalizedCovers(intervals: seq<Interval>, given: int, nextDay: int, t: int)
    requires exists iv :: iv in intervals && given <= iv.stop
    requires t < nextDay
    ensures var clean := Clip(SortLex(intervals), |intervals|, given, nextDay);
      clean != [] &&
      (Covered(StrictMerge(clean[0], clean, 1), t) <==> given <= t && Covered(intervals, t))
  {
    var sorted := SortLex(intervals);
    var clean := Clip(sorted, |sorted|, given, nextDay);
    CleanFacts(intervals, given, nextDay);
    StrictMergeCovers(clean[0], clean, 1, t);
    CoveredCons(clean, t);
    ClipCovers(sorted, |sorted|, given, nextDay, t);
    assert sorted[..|sorted|] == sorted;
    CoveredPermutation(sorted, intervals, t);
  }

  lemma NormalizedLateCovers(intervals: seq<Interval>, given: int, nextDay: int, t: int)
    requires exists iv :: iv in intervals && given <= iv.stop
    requires given < nextDay <= t
    ensures var clean := Clip(SortLex(intervals), |intervals|, given, nextDay);
      clean != [] &&
      (Covered(StrictMerge(clean[0], clean, 1), t) <==> LateCovered(intervals, nextDay, t))
  {
    var sorted := SortLex(intervals);
    var clean := Clip(sorted, |sorted|, given, nextDay);
    CleanFacts(intervals, given, nextDay);
    StrictMergeCovers(clean[0], clean, 1, t);
    CoveredCons(clean, t);
    ClipCovers(sorted, |sorted|, given, nextDay, t);
    assert sorted[..|sorted|] == sorted;
    LatePermutation(sorted, intervals, nextDay, t);
  }

  /** Reordering a list does not change which points its late intervals
      cover. */
  lemma LatePermutation(a: seq<Interval>, b: seq<Interval>, nextDay: int, t: int)
    requires multiset(a) == multiset(b)
    ensures LateCovered(a, nextDay, t) <==> LateCovered(b, nextDay, t)
  {
    if LateCovered(a, nextDay, t) {
      var iv :| iv in a && nextDay <= iv.start && Contains(iv, t);
      assert iv in multiset(b);
    }
    if LateCovered(b, nextDay, t) {
      var iv :| iv in b && nextDay <= iv.start && Contains(iv, t);
      assert iv in multiset(a);
    }
  }

  /** Intervals that only touch stay two entries: [8, 9) and [9, 10) are
      not merged. */
  lemma TouchingStaySeparate()
    ensures Normalized([Interval(8, 9), Interval(9, 10)], 0, Day) == [Interval(8, 9), Interval(9, 10)]
  {
    var s := [Interval(8, 9), Interval(9, 10)];
    assert Interval(8, 9) in s;
    SortLexOfSorted(s);
    var clean := Clip(s, 2, 0, Day);
    assert Clip(s, 1, 0, Day) == [Interval(8, 9)];
    assert clean == s;
    assert StrictMerge(s[1], s, 2) == [s[1]];
  }

  /** An entry that ends no later than it starts is not followed by an
      entry with the same start that ends before it. Clipping a list
      sorted by `Interval.__lt__` keeps this, and with it the strict merge
      keeps that order, even for intervals that end before they start. */
  predicate EmptyTiesOrdered(s: seq<Interval>)
  {
    forall i, k :: 0 <= i < k < |s| && s[i].start == s[k].start && s[i].stop <= s[i].start ==>
      s[i].stop <= s[k].stop
  }

  /** Clipping two kept intervals in `Interval.__lt__` order: if the first
      comes out with the second's start and ends no later than it starts,
      it ends no later than the second. */
  lemma ClipPairOrdered(p: Interval, q: Interval, given: int, nextDay: int)
    requires given <= p.stop && given <= q.stop && !Less(q, p)
    ensures var a := ClipOne(p, given, nextDay);
      var b := ClipOne(q, given, nextDay);
      a.start == b.start && a.stop <= a.start ==> a.stop <= b.stop
  {
  }

  /** Appending an entry that no empty entry with its start ends after
      keeps the ties ordered. */
  lemma TiesAppend(init: seq<Interval>, c: Interval)
    requires EmptyTiesOrdered(init)
    requires forall a :: a in init && a.start == c.start && a.stop <= a.start ==> a.stop <= c.stop
    ensures EmptyTiesOrdered(init + [c])
  {
    var r := init + [c];
    forall i, k | 0 <= i < k < |r| && r[i].start == r[k].start && r[i].stop <= r[i].start
      ensures r[i].stop <= r[k].stop
    {
      assert r[i] == init[i];
      if k == |init| {
        assert init[i] in init;
      } else {
        assert r[k] == init[k];
      }
    }
  }

  /** An entry clipped from s[..n - 1] and the clip of s[n - 1] are in
      order on a tie. */
  lemma ClipTieLast(s: seq<Interval>, n: nat, given: int, nextDay: int, a: Interval)
    requires 0 < n <= |s| && SortedLex(s) && given <= s[n - 1].stop
    requires a in Clip(s, n - 1, given, nextDay)
    ensures var c := ClipOne(s[n - 1], given, nextDay);
      a.start == c.start && a.stop <= a.start ==> a.stop <= c.stop
  {
    ClipMembers(s, n - 1, given, nextDay);
    var m :| 0 <= m < n - 1 && given <= s[m].stop && a == ClipOne(s[m], given, nextDay);
    ClipPairOrdered(s[m], s[n - 1], given, nextDay);
  }

  lemma {:induction false} ClipTiesOrdered(s: seq<Interval>, n: nat, given: int, nextDay: int)
    requires n <= |s| && SortedLex(s)
    ensures EmptyTiesOrdered(Clip(s, n, given, nextDay))
  {
    if n > 0 {
      ClipTiesOrdered(s, n - 1, given, nextDay);
      var init := Clip(s, n - 1, given, nextDay);
      if given <= s[n - 1].stop {
        var c := ClipOne(s[n - 1], given, nextDay);
        forall a | a in init && a.start == c.start && a.stop <= a.start ensures a.stop <= c.stop {
          ClipTieLast(s, n, given, nextDay, a);
        }
        TiesAppend(init, c);
        assert Clip(s, n, given, nextDay) == init + [c];
      }
    }
  }

  /** The strict merge of a list sorted by start whose ties are ordered
      comes out in `Interval.__lt__` order, no entry smaller than x. */
  lemma {:induction false} StrictMergeSortedLex(x: Interval, s: seq<Interval>, j: nat)
    requires StartsFrom(x.start, s, j) && SortedByStart(s) && EmptyTiesOrdered(s)
    requires forall k :: j <= k < |s| && s[k].start == x.start && x.stop <= x.start ==> x.stop <= s[k].stop
    ensures var r := StrictMerge(x, s, j);
      SortedLex(r) && forall iv :: iv in r ==> !Less(iv, x)
    decreases |s| - j
  {
    if j < |s| {
      var y := s[j];
      if y.start < x.stop {
        StrictMergeSortedLex(Interval(x.start, Max(x.stop, y.stop)), s, j + 1);
      } else {
        StrictMergeSortedLex(y, s, j + 1);
        assert y.start == x.start ==> x.stop <= y.stop;
        SortedLexCons(x, StrictMerge(y, s, j + 1));
      }
    }
  }

  /** What `sort_and_normalize` returns is also sorted by `Interval.__lt__`. */
  lemma NormalizedSortedLex(intervals: seq<Interval>, given: int, nextDay: int)
    requires exists iv :: iv in intervals && given <= iv.stop
    ensures SortedLex(Normalized(intervals, given, nextDay))
  {
    var sorted := SortLex(intervals);
    var clean := Clip(sorted, |intervals|, given, nextDay);
    CleanFacts(intervals, given, nextDay);
    ClipTiesOrdered(sorted, |intervals|, given, nextDay);
    StrictMergeSortedLex(clean[0], clean, 1);
  }

  /** Clipping leaves a list that is already in the day's scope as it
      is. */
  lemma {:induction false} ClipInScope(s: seq<Interval>, n: nat, given: int, nextDay: int)
    requires n <= |s| && InScope(s, given, nextDay)
    ensures Clip(s, n, given, nextDay) == s[..n]
  {
    if n > 0 {
      ClipInScope(s, n - 1, given, nextDay);
      assert s[n - 1] in s;
      assert s[..n] == s[..n - 1] + [s[n - 1]];
    }
  }

  /** The strict merge leaves a list without overlaps as it is: entries
      that only touch (`s[k].stop == s[k + 1].start`) stay separate. */
  lemma {:induction false} StrictMergeDisjoint(s: seq<Interval>, j: nat)
    requires 0 < j <= |s| && Disjoint(s)
    ensures StrictMerge(s[j - 1], s, j) == s[j - 1..]
    decreases |s| - j
  {
    if j < |s| {
      StrictMergeDisjoint(s, j + 1);
      assert s[j - 1..] == [s[j - 1]] + s[j..];
    } else {
      assert s[j - 1..] == [s[j - 1]];
    }
  }

  /** A non-empty list in the day's scope, sorted by `Interval.__lt__`,
      without overlaps, is its own normalization. */
  lemma NormalizedFixed(s: seq<Interval>, given: int, nextDay: int)
    requires s != [] && SortedLex(s) && Disjoint(s) && InScope(s, given, nextDay)
    ensures (exists iv :: iv in s && given <= iv.stop) && Normalized(s, given, nextDay) == s
  {
    assert s[0] in s;
    SortLexOfSorted(s);
    ClipInScope(s, |s|, given, nextDay);
    assert s[..|s|] == s;
    StrictMergeDisjoint(s, 1);
    assert s[0..] == s;
  }

  /** Normalizing twice gives the same list as normalizing once. */
  lemma NormalizedIdempotent(intervals: seq<Interval>, given: int, nextDay: int)
    requires exists iv :: iv in intervals && given <= iv.stop
    ensures var r := Normalized(intervals, given, nextDay);
      (exists iv :: iv in r && given <= iv.stop) && Normalized(r, given, nextDay) == r
  {
    var r := Normalized(intervals, given, nextDay);
    NormalizedSortedLex(intervals, given, nextDay);
    NormalizedFixed(r, given, nextDay);
  }

  /** The first loop of `sort_and_normalize`: drop the intervals that end
      before `given`, raise starts to `given`, and cut at `nextDay` the ones
      that start before it and end after it. */
  method ClipToDay(sorted: seq<Interval>, given: int, nextDay: int) returns (clean: seq<Interval>)
    ensures clean == Clip(sorted, |sorted|, given, nextDay)
  {
    clean := [];
    var i := 0;
    while i < |sorted|
      invariant 0 <= i <= |sorted|
      invariant clean == Clip(sorted, i, given, nextDay)
    {
      var interval := sorted[i];
      if given <= interval.stop {
        var start, stop := interval.start, interval.stop;
        if start < given {
          start := given;
        }
        if start < nextDay && stop > nextDay {
          stop := nextDay;
        }
        clean := clean + [Interval(start, stop)];
      }
      i := i + 1;
    }
  }

  /** The second loop of `sort_and_normalize`: fold each interval that
      starts strictly before the current one stops into it. */
  method MergeOverlapping(clean: seq<Interval>) returns (normalized: seq<Interval>)
    requires clean != []
    ensures normalized == StrictMerge(clean[0], clean, 1)
  {
    var x := clean[0];
    normalized := [];
    var j := 1;
    while j < |clean|
      invariant 1 <= j <= |clean|
      invariant normalized + StrictMerge(x, clean, j) == StrictMerge(clean[0], clean, 1)
    {
      var y := clean[j];
      if y.start < x.stop {
        ghost var merged := Interval(x.start, Max(x.stop, y.stop));
        assert StrictMerge(x, clean, j) == StrictMerge(merged, clean, j + 1);
        if y.stop > x.stop {
          x := Interval(x.start, y.stop);
        }
        assert x == merged;
      } else {
        ghost var tail := StrictMerge(y, clean, j + 1);
        assert normalized + ([x] + tail) == (normalized + [x]) + tail;
        normalized := normalized + [x];
        x := y;
      }
      j := j + 1;
    }
    normalized := normalized + [x];
  }

  /** `sort_and_normalize`. The source reads `clean_intervals[0]`, so it
      fails when every interval ends before `given`; that is the
      precondition. */
  method SortAndNormalize(intervals: seq<Interval>, given: int, nextDay: int)
    returns (normalized: seq<Interval>)
    requires exists iv :: iv in intervals && given <= iv.stop
    ensures normalized == Normalized(intervals, given, nextDay)
    ensures SortedByStart(normalized) && Disjoint(normalized)
    ensures InScope(normalized, given, nextDay)
    ensures forall t :: t < nextDay ==> (Covered(normalized, t) <==> given <= t && Covered(intervals, t))
    ensures given < nextDay ==>
      forall t :: nextDay <= t ==> (Covered(normalized, t) <==> LateCovered(intervals, nextDay, t))
  {
    var sorted := SortLex(intervals);
    var clean := ClipToDay(sorted, given, nextDay);
    CleanFacts(intervals, given, nextDay);
    normalized := MergeOverlapping(clean);
  }
}
