/** `merge_subtract_intervals(intervals)` (app_adv.py only): merge the
    intervals of the categories in which a meeting may be held, merge those
    of the categories in which it may not, and cut the second from the first.
    Its helpers `merge_intervals`, `subtract_intervals` and
    `subtract_many_intervals` are modelled one by one. */
module Algebra {
  import opened Intervals
  import opened Normalize
  import opened Categories

  /** The categories whose time is available for a meeting. */
  const AvailableKeys: seq<string> := ["Free", "Amrit Kaal", "Abhijit Muhurat", "Yamaganda", "Gulika"]

  /** The categories whose time is not. */
  const UnavailableKeys: seq<string> := ["Rahu", "Dur Muhurat", "Varjyam"]

  // ---- merge_intervals ----

  /** The loop of `merge_intervals` as a function: x is `merged[-1]` and
      s[j..] the intervals not yet looked at. One that starts at or before
      `x.stop` extends x (so touching intervals are merged); any other is
      appended and becomes the new last entry. */
  function LooseMerge(x: Interval, s: seq<Interval>, j: nat): (r: seq<Interval>)
    ensures r != [] && r[0].start == x.start
    decreases |s| - j
  {
    if j >= |s| then [x]
    else if s[j].start <= x.stop then
      LooseMerge(Interval(x.start, Max(x.stop, s[j].stop)), s, j + 1)
    else
      [x] + LooseMerge(s[j], s, j + 1)
  }

  /** An interval that ends before every entry of a sorted list without
      touching entries starts, put in front of it, keeps it so. */
  lemma ApartCons(x: Interval, tail: seq<Interval>)
    requires SortedByStart(tail) && Apart(tail)
    requires forall iv :: iv in tail ==> x.start <= iv.start && x.stop < iv.start
    ensures SortedByStart([x] + tail) && Apart([x] + tail)
    ensures forall iv :: iv in [x] + tail ==> x.start <= iv.start
  {
    var r := [x] + tail;
    forall a, b | 0 <= a < b < |r| ensures r[a].start <= r[b].start && r[a].stop < r[b].start {
      assert r[b] == tail[b - 1];
      assert r[b] in tail;
      if a > 0 {
        assert r[a] == tail[a - 1];
      }
    }
  }

  /** The runs come out sorted by start, and each ends strictly before the
      next starts. */
  lemma {:induction false} LooseMergeOrdered(x: Interval, s: seq<Interval>, j: nat)
    requires StartsFrom(x.start, s, j) && SortedByStart(s)
    ensures var r := LooseMerge(x, s, j);
      SortedByStart(r) && Apart(r) && forall iv :: iv in r ==> x.start <= iv.start
    decreases |s| - j
  {
    if j < |s| {
      var y := s[j];
      if y.start <= x.stop {
        LooseMergeOrdered(Interval(x.start, Max(x.stop, y.stop)), s, j + 1);
      } else {
        LooseMergeOrdered(y, s, j + 1);
        ApartCons(x, LooseMerge(y, s, j + 1));
      }
    }
  }

  /** The runs cover exactly the points of x and of s[j..]. */
  lemma {:induction false} LooseMergeCovers(x: Interval, s: seq<Interval>, j: nat, t: int)
    requires j <= |s|
    requires StartsFrom(x.start, s, j) && SortedByStart(s)
    ensures Covered(LooseMerge(x, s, j), t) <==> Contains(x, t) || Covered(s[j..], t)
    decreases |s| - j
  {
    if j < |s| {
      var y := s[j];
      assert s[j..] == [y] + s[j + 1..];
      CoveredAppend([y], s[j + 1..], t);
      if y.start <= x.stop {
        MergePairCovers(x, y, t);
        LooseMergeCovers(Interval(x.start, Max(x.stop, y.stop)), s, j + 1, t);
      } else {
        LooseMergeCovers(y, s, j + 1, t);
        CoveredAppend([x], LooseMerge(y, s, j + 1), t);
      }
    } else {
      assert s[j..] == [];
    }
  }

  /** Merging keeps valid intervals valid. */
  lemma {:induction false} LooseMergeValid(x: Interval, s: seq<Interval>, j: nat)
    requires Valid(x) && AllValid(s)
    ensures AllValid(LooseMerge(x, s, j))
    decreases |s| - j
  {
    if j < |s| {
      var y := s[j];
      assert y in s;
      if y.start <= x.stop {
        LooseMergeValid(Interval(x.start, Max(x.stop, y.stop)), s, j + 1);
      } else {
        LooseMergeValid(y, s, j + 1);
        var t := LooseMerge(y, s, j + 1);
        forall iv | iv in [x] + t ensures Valid(iv) {
          if iv != x {
            assert iv in t;
          }
        }
      }
    }
  }

  /** What `merge_intervals` returns: [] for no intervals, otherwise the
      runs of the list sorted by start. */
  function Merged(intervals: seq<Interval>): seq<Interval>
  {
    if intervals == [] then []
    else
      var s := SortByStart(intervals);
      assert intervals[0] in multiset(s);
      LooseMerge(s[0], s, 1)
  }

  /** `merge_intervals` returns [] exactly for no intervals; otherwise its
      result is sorted by start, no entry touches or overlaps a later one,
      it covers the same points as its input, and it holds valid intervals
      when the input does. */
  lemma MergedFacts(intervals: seq<Interval>)
    ensures var r := Merged(intervals);
      (r == [] <==> intervals == [])
      && SortedByStart(r) && Apart(r)
      && (AllValid(intervals) ==> AllValid(r))
  {
    if intervals != [] {
      var s := SortByStart(intervals);
      assert intervals[0] in multiset(s);
      assert StartsFrom(s[0].start, s, 1);
      LooseMergeOrdered(s[0], s, 1);
      if AllValid(intervals) {
        assert forall iv :: iv in s ==> iv in multiset(intervals);
        assert s[0] in s;
        LooseMergeValid(s[0], s, 1);
      }
    }
  }

  /** `merge_intervals` covers the same points as its input. */
  lemma MergedCovers(intervals: seq<Interval>, t: int)
    ensures Covered(Merged(intervals), t) <==> Covered(intervals, t)
  {
    if intervals != [] {
      var s := SortByStart(intervals);
      assert intervals[0] in multiset(s);
      LooseMergeCovers(s[0], s, 1, t);
      CoveredCons(s, t);
      CoveredPermutation(s, intervals, t);
    }
  }

  /** Intervals that touch are merged into one: [8, 9) and [9, 10) become
      [8, 10). */
  lemma TouchingMerge()
    ensures Merged([Interval(8, 9), Interval(9, 10)]) == [Interval(8, 10)]
  {
    var s := [Interval(8, 9), Interval(9, 10)];
    assert s[1..] == [Interval(9, 10)];
    assert SortByStart([Interval(9, 10)]) == [Interval(9, 10)] by {
      assert [Interval(9, 10)][1..] == [];
    }
    assert SortByStart(s) == s;
    assert LooseMerge(Interval(8, 10), s, 2) == [Interval(8, 10)];
  }

  /** A non-empty list is its entries before the last, then the last. */
  lemma SplitLast(m: seq<Interval>)
    requires m != []
    ensures m == m[..|m| - 1] + [m[|m| - 1]]
  {
  }

  /** `merge_intervals`: sort by start, then extend the last entry in place
      or append a new one. */
  method MergeIntervals(intervals: seq<Interval>) returns (merged: seq<Interval>)
    ensures merged == Merged(intervals)
  {
    if intervals == [] {
      return [];
    }
    var s := SortByStart(intervals);
    assert intervals[0] in multiset(s);
    merged := [s[0]];
    var j := 1;
    while j < |s|
      invariant 1 <= j <= |s| && merged != []
      invariant merged[..|merged| - 1] + LooseMerge(merged[|merged| - 1], s, j) == LooseMerge(s[0], s, 1)
    {
      var current := s[j];
      var last := merged[|merged| - 1];
      ghost var prefix := merged[..|merged| - 1];
      if current.start <= last.stop {
        merged := merged[|merged| - 1 := Interval(last.start, Max(last.stop, current.stop))];
        assert merged[..|merged| - 1] == prefix;
      } else {
        ghost var tail := LooseMerge(current, s, j + 1);
        assert prefix + ([last] + tail) == (prefix + [last]) + tail;
        SplitLast(merged);
        merged := merged + [current];
        assert merged[..|merged| - 1] == prefix + [last];
      }
      j := j + 1;
    }
    SplitLast(merged);
  }

  // ---- subtract_intervals ----

  /** The intervals of s with start < stop, in order (the filtering
      comprehension). */
  function NonEmpty(s: seq<Interval>): seq<Interval>
  {
    if s == [] then []
    else Keep(s[0]) + NonEmpty(s[1..])
  }

  /** w lies inside a. */
  predicate Inside(w: Interval, a: Interval)
  {
    a.start <= w.start && w.stop <= a.stop
  }

  /** w lies inside one of s[..n]. */
  predicate InsideSome(w: Interval, s: seq<Interval>, n: nat)
    requires n <= |s|
  {
    exists i :: 0 <= i < n && Inside(w, s[i])
  }

  /** No interval of s is empty. */
  predicate AllNonEmpty(s: seq<Interval>)
  {
    forall w :: w in s ==> w.start < w.stop
  }

  /** Every interval of s lies within [lo, hi]. */
  predicate Within(s: seq<Interval>, lo: int, hi: int)
  {
    forall w :: w in s ==> lo <= w.start && w.stop <= hi
  }

  /** The list `results` of `subtract_intervals(interval, removal)` before
      its filter: a removal that does not overlap leaves the interval whole;
      otherwise the part before the removal and the part after it are
      candidates. */
  function Results(a: Interval, r: Interval): seq<Interval>
  {
    if r.stop <= a.start || r.start >= a.stop then [a]
    else
      (if r.start > a.start then [Interval(a.start, Min(r.start, a.stop))] else [])
      + (if r.stop < a.stop then [Interval(Max(r.stop, a.start), a.stop)] else [])
  }

  /** [w] when w is non-empty, otherwise []. */
  function Keep(w: Interval): seq<Interval>
  {
    if w.start < w.stop then [w] else []
  }

  /** `subtract_intervals(interval, removal)`: the filter applied to each
      of the (at most two) candidates of `Results` in turn. */
  function Subtract(a: Interval, r: Interval): seq<Interval>
  {
    if r.stop <= a.start || r.start >= a.stop then Keep(a)
    else
      (if r.start > a.start then Keep(Interval(a.start, Min(r.start, a.stop))) else [])
      + (if r.stop < a.stop then Keep(Interval(Max(r.stop, a.start), a.stop)) else [])
  }

  /** The filter on lists of one and of two candidates. */
  lemma NonEmptySmall(w: Interval, v: Interval)
    ensures NonEmpty([w]) == Keep(w)
    ensures NonEmpty([w, v]) == Keep(w) + Keep(v)
  {
    assert [w][1..] == [];
    assert NonEmpty([w]) == Keep(w) + NonEmpty([]);
    assert [w, v][1..] == [v];
    assert NonEmpty([w, v]) == Keep(w) + NonEmpty([v]);
    assert [v][1..] == [];
    assert NonEmpty([v]) == Keep(v) + NonEmpty([]);
  }

  /** `Subtract` is the filtering comprehension over `Results`. */
  lemma SubtractFilters(a: Interval, r: Interval)
    ensures Subtract(a, r) == NonEmpty(Results(a, r))
  {
    var first := Interval(a.start, Min(r.start, a.stop));
    var second := Interval(Max(r.stop, a.start), a.stop);
    NonEmptySmall(a, a);
    NonEmptySmall(first, second);
    NonEmptySmall(second, second);
    if !(r.stop <= a.start || r.start >= a.stop) {
      if r.start > a.start && r.stop < a.stop {
        assert Results(a, r) == [first, second];
      } else if r.start > a.start {
        assert Results(a, r) == [first];
      } else if r.stop < a.stop {
        assert Results(a, r) == [second];
      } else {
        assert Results(a, r) == [];
      }
    }
  }

  /** The pieces with the filter applied: with no overlap, a itself when it
      is non-empty; otherwise the non-empty ones of [a.start, r.start) and
      [r.stop, a.stop). */
  lemma SubtractShape(a: Interval, r: Interval)
    ensures Subtract(a, r)
         == if r.stop <= a.start || r.start >= a.stop then
              (if a.start < a.stop then [a] else [])
            else
              (if r.start > a.start then [Interval(a.start, r.start)] else [])
              + (if r.stop < a.stop then [Interval(r.stop, a.stop)] else [])
  {
  }

  /** Every piece is non-empty and lies inside a. */
  lemma SubtractInside(a: Interval, r: Interval)
    ensures AllNonEmpty(Subtract(a, r)) && Within(Subtract(a, r), a.start, a.stop)
  {
    SubtractShape(a, r);
  }

  /** For a valid removal the pieces are in order and do not overlap. */
  lemma SubtractOrdered(a: Interval, r: Interval)
    requires Valid(r)
    ensures SortedByStart(Subtract(a, r)) && Disjoint(Subtract(a, r))
  {
    SubtractShape(a, r);
    if !(r.stop <= a.start || r.start >= a.stop) {
      var first := if r.start > a.start then [Interval(a.start, r.start)] else [];
      var second := if r.stop < a.stop then [Interval(r.stop, a.stop)] else [];
      assert Subtract(a, r) == first + second;
      assert forall w :: w in first ==> w.stop == r.start;
      assert forall w :: w in second ==> w.start == r.stop;
    }
  }

  /** At most two pieces; a removal that covers a leaves nothing, one
      strictly inside a leaves the part before it and the part after it. */
  lemma SubtractPieces(a: Interval, r: Interval)
    ensures |Subtract(a, r)| <= 2
    ensures r.start <= a.start && a.stop <= r.stop ==> Subtract(a, r) == []
    ensures a.start < r.start <= r.stop < a.stop ==>
      Subtract(a, r) == [Interval(a.start, r.start), Interval(r.stop, a.stop)]
  {
    SubtractShape(a, r);
  }

  /** The pieces hold exactly the points of a that r does not hold. */
  lemma SubtractCovers(a: Interval, r: Interval, t: int)
    ensures Covered(Subtract(a, r), t) <==> Contains(a, t) && !Contains(r, t)
  {
    var p := Subtract(a, r);
    SubtractShape(a, r);
    if r.stop <= a.start || r.start >= a.stop {
      if Contains(a, t) {
        assert a in p;
      }
    } else {
      var first := if r.start > a.start then [Interval(a.start, r.start)] else [];
      var second := if r.stop < a.stop then [Interval(r.stop, a.stop)] else [];
      CoveredAppend(first, second, t);
      if Contains(a, t) && !Contains(r, t) {
        if t < r.start {
          assert Contains(first[0], t);
        } else {
          assert Contains(second[0], t);
        }
      }
    }
  }

  // ---- subtract_many_intervals ----

  /** The innermost loop: every piece of temp[..n], cut by one removal. */
  function SubtractEach(temp: seq<Interval>, removal: Interval, n: nat): seq<Interval>
    requires n <= |temp|
  {
    if n == 0 then []
    else SubtractEach(temp, removal, n - 1) + Subtract(temp[n - 1], removal)
  }

  /** The middle loop: cut the pieces by removals[i..] one removal after
      the other, stopping as soon as no piece is left. */
  function SubtractAll(temp: seq<Interval>, removals: seq<Interval>, i: nat): seq<Interval>
    decreases |removals| - i
  {
    if i >= |removals| then temp
    else
      var next := SubtractEach(temp, removals[i], |temp|);
      if next == [] then [] else SubtractAll(next, removals, i + 1)
  }

  /** What `subtract_many_intervals` returns for available[..n]: for each
      available interval in turn, what is left of it after all the
      removals. */
  function SubtractMany(available: seq<Interval>, removals: seq<Interval>, n: nat): seq<Interval>
    requires n <= |available|
  {
    if n == 0 then []
    else SubtractMany(available, removals, n - 1) + SubtractAll([available[n - 1]], removals, 0)
  }

  lemma {:induction false} SubtractEachCovers(temp: seq<Interval>, removal: Interval, n: nat, t: int)
    requires n <= |temp|
    ensures Covered(SubtractEach(temp, removal, n), t) <==> Covered(temp[..n], t) && !Contains(removal, t)
  {
    if n > 0 {
      SubtractEachCovers(temp, removal, n - 1, t);
      CoversStep(temp, removal, n, t);
    }
  }

  /** The step of `SubtractEachCovers`, from temp[..n - 1] to temp[..n]. */
  lemma CoversStep(temp: seq<Interval>, removal: Interval, n: nat, t: int)
    requires 0 < n <= |temp|
    requires Covered(SubtractEach(temp, removal, n - 1), t) <==> Covered(temp[..n - 1], t) && !Contains(removal, t)
    ensures Covered(SubtractEach(temp, removal, n), t) <==> Covered(temp[..n], t) && !Contains(removal, t)
  {
    var w := temp[n - 1];
    var done := SubtractEach(temp, removal, n - 1);
    var prefix := temp[..n - 1];
    assert SubtractEach(temp, removal, n) == done + Subtract(w, removal);
    assert temp[..n] == prefix + [w];
    AppendStep(done, prefix, w, removal, t);
  }

  /** The step of `SubtractEachCovers`: appending the pieces of w to what
      is left of prefix keeps exactly the points of prefix + [w] outside r. */
  lemma AppendStep(done: seq<Interval>, prefix: seq<Interval>, w: Interval, r: Interval, t: int)
    requires Covered(done, t) <==> Covered(prefix, t) && !Contains(r, t)
    ensures Covered(done + Subtract(w, r), t) <==> Covered(prefix + [w], t) && !Contains(r, t)
  {
    SubtractCovers(w, r, t);
    CoveredAppend(done, Subtract(w, r), t);
    CoveredAppend(prefix, [w], t);
    assert Covered([w], t) <==> Contains(w, t) by {
      if Contains(w, t) {
        assert w in [w];
      }
    }
  }

  /** What is left after the removals from index i holds exactly the points
      of the pieces that none of those removals holds. */
  lemma {:induction false} SubtractAllCovers(temp: seq<Interval>, removals: seq<Interval>, i: nat, t: int)
    requires i <= |removals|
    ensures Covered(SubtractAll(temp, removals, i), t) <==> Covered(temp, t) && !Covered(removals[i..], t)
    decreases |removals| - i
  {
    if i < |removals| {
      var r := removals[i];
      var next := SubtractEach(temp, r, |temp|);
      SubtractEachCovers(temp, r, |temp|, t);
      assert temp[..|temp|] == temp;
      RemovalsCons(removals, i, t);
      if next != [] {
        SubtractAllCovers(next, removals, i + 1, t);
        assert SubtractAll(temp, removals, i) == SubtractAll(next, removals, i + 1);
      } else {
        assert SubtractAll(temp, removals, i) == [];
      }
    } else {
      assert removals[i..] == [];
    }
  }

  /** A point is held by removals[i..] exactly when removals[i] or
      removals[i + 1..] holds it. */
  lemma RemovalsCons(removals: seq<Interval>, i: nat, t: int)
    requires i < |removals|
    ensures Covered(removals[i..], t) <==> Contains(removals[i], t) || Covered(removals[i + 1..], t)
  {
    assert removals[i..][1..] == removals[i + 1..];
    CoveredCons(removals[i..], t);
  }

  /** The result for available[..n] holds exactly the points of
      available[..n] that no removal holds. */
  lemma {:induction false} SubtractManyCovers(available: seq<Interval>, removals: seq<Interval>, n: nat, t: int)
    requires n <= |available|
    ensures Covered(SubtractMany(available, removals, n), t)
        <==> Covered(available[..n], t) && !Covered(removals, t)
  {
    if n > 0 {
      var a := available[n - 1];
      var done := SubtractMany(available, removals, n - 1);
      var left := SubtractAll([a], removals, 0);
      assert SubtractMany(available, removals, n) == done + left;
      SubtractManyCovers(available, removals, n - 1, t);
      SubtractAllCovers([a], removals, 0, t);
      assert removals[0..] == removals;
      CoveredAppend(done, left, t);
      assert available[..n] == available[..n - 1] + [a];
      CoveredAppend(available[..n - 1], [a], t);
    }
  }

  // ---- where the pieces lie, and their order ----

  /** Every piece left of temp[..n] lies within any bounds that hold every
      entry of temp[..n]. */
  lemma {:induction false} SubtractEachWithin(temp: seq<Interval>, removal: Interval, n: nat, lo: int, hi: int)
    requires n <= |temp|
    requires forall k :: 0 <= k < n ==> lo <= temp[k].start && temp[k].stop <= hi
    ensures Within(SubtractEach(temp, removal, n), lo, hi)
  {
    if n > 0 {
      SubtractEachWithin(temp, removal, n - 1, lo, hi);
      WithinStep(temp, removal, n, lo, hi);
    }
  }

  /** The step of `SubtractEachWithin`: the pieces of temp[n - 1], which
      lies within [lo, hi], keep the pieces of temp[..n - 1] within it. */
  lemma WithinStep(temp: seq<Interval>, removal: Interval, n: nat, lo: int, hi: int)
    requires 0 < n <= |temp|
    requires Within(SubtractEach(temp, removal, n - 1), lo, hi)
    requires lo <= temp[n - 1].start && temp[n - 1].stop <= hi
    ensures Within(SubtractEach(temp, removal, n), lo, hi)
  {
    SubtractInside(temp[n - 1], removal);
  }

  /** No piece left of temp[..n] is empty. */
  lemma {:induction false} SubtractEachNonEmpty(temp: seq<Interval>, removal: Interval, n: nat)
    requires n <= |temp|
    ensures AllNonEmpty(SubtractEach(temp, removal, n))
  {
    if n > 0 {
      SubtractEachNonEmpty(temp, removal, n - 1);
      NonEmptyStep(temp, removal, n);
    }
  }

  /** The step of `SubtractEachNonEmpty`: the pieces of temp[n - 1] are
      not empty either. */
  lemma NonEmptyStep(temp: seq<Interval>, removal: Interval, n: nat)
    requires 0 < n <= |temp|
    requires AllNonEmpty(SubtractEach(temp, removal, n - 1))
    ensures AllNonEmpty(SubtractEach(temp, removal, n))
  {
    SubtractInside(temp[n - 1], removal);
  }

  /** Two lists that are each sorted by start and without overlap, where
      every entry of the first ends by the start of every entry of the
      second, are together sorted and without overlap. */
  lemma AppendOrdered(a: seq<Interval>, b: seq<Interval>)
    requires SortedByStart(a) && Disjoint(a) && SortedByStart(b) && Disjoint(b)
    requires forall w, v :: w in a && v in b ==> w.start <= v.start && w.stop <= v.start
    ensures SortedByStart(a + b) && Disjoint(a + b)
  {
    var c := a + b;
    forall i, j | 0 <= i < j < |c| ensures c[i].start <= c[j].start && c[i].stop <= c[j].start {
      if j >= |a| {
        assert c[j] == b[j - |a|];
        if i < |a| {
          assert c[i] in a && c[j] in b;
        } else {
          assert c[i] == b[i - |a|];
        }
      }
    }
  }

  /** Cutting a sorted list without overlaps by a valid removal gives a
      sorted list without overlaps. */
  lemma {:induction false} SubtractEachOrdered(temp: seq<Interval>, removal: Interval, n: nat)
    requires n <= |temp|
    requires SortedByStart(temp) && Disjoint(temp) && Valid(removal)
    ensures SortedByStart(SubtractEach(temp, removal, n)) && Disjoint(SubtractEach(temp, removal, n))
  {
    if n > 0 {
      var done := SubtractEach(temp, removal, n - 1);
      var pieces := Subtract(temp[n - 1], removal);
      var a := temp[n - 1];
      SubtractEachOrdered(temp, removal, n - 1);
      SubtractEachWithin(temp, removal, n - 1, temp[0].start, a.start);
      SubtractEachNonEmpty(temp, removal, n - 1);
      OrderedStep(done, a, removal, temp[0].start);
      assert SubtractEach(temp, removal, n) == done + pieces;
    }
  }

  /** The step of `SubtractEachOrdered`: the pieces of the earlier entries
      end by the start of the entry a now being cut, so the pieces of a can
      follow them. */
  lemma OrderedStep(done: seq<Interval>, a: Interval, removal: Interval, lo: int)
    requires SortedByStart(done) && Disjoint(done)
    requires AllNonEmpty(done) && Within(done, lo, a.start)
    requires Valid(removal)
    ensures SortedByStart(done + Subtract(a, removal)) && Disjoint(done + Subtract(a, removal))
  {
    var pieces := Subtract(a, removal);
    SubtractInside(a, removal);
    SubtractOrdered(a, removal);
    AppendOrdered(done, pieces);
  }

  /** Every piece left after the removals from index i lies inside one of
      the pieces it started from; sorted pieces without overlaps stay so
      when the removals are valid. */
  lemma {:induction false} SubtractAllInside(temp: seq<Interval>, removals: seq<Interval>, i: nat, a: Interval)
    requires forall w :: w in temp ==> Inside(w, a)
    ensures forall w :: w in SubtractAll(temp, removals, i) ==> Inside(w, a)
    decreases |removals| - i
  {
    if i < |removals| {
      var next := SubtractEach(temp, removals[i], |temp|);
      forall k | 0 <= k < |temp| ensures a.start <= temp[k].start && temp[k].stop <= a.stop {
        assert temp[k] in temp;
      }
      SubtractEachWithin(temp, removals[i], |temp|, a.start, a.stop);
      assert forall w :: w in next ==> Inside(w, a);
      if next != [] {
        SubtractAllInside(next, removals, i + 1, a);
      }
    }
  }

  lemma {:induction false} SubtractAllValid(temp: seq<Interval>, removals: seq<Interval>, i: nat)
    requires AllValid(temp)
    ensures AllValid(SubtractAll(temp, removals, i))
    decreases |removals| - i
  {
    if i < |removals| {
      var next := SubtractEach(temp, removals[i], |temp|);
      SubtractEachNonEmpty(temp, removals[i], |temp|);
      if next != [] {
        SubtractAllValid(next, removals, i + 1);
      }
    }
  }

  lemma {:induction false} SubtractAllOrdered(temp: seq<Interval>, removals: seq<Interval>, i: nat)
    requires SortedByStart(temp) && Disjoint(temp) && AllValid(removals)
    ensures SortedByStart(SubtractAll(temp, removals, i)) && Disjoint(SubtractAll(temp, removals, i))
    decreases |removals| - i
  {
    if i < |removals| {
      assert removals[i] in removals;
      var next := SubtractEach(temp, removals[i], |temp|);
      SubtractEachOrdered(temp, removals[i], |temp|);
      if next != [] {
        SubtractAllOrdered(next, removals, i + 1);
      }
    }
  }

  /** Every piece of the result for available[..n] lies inside one of
      available[..n]; when the available intervals are valid, sorted by
      start and without overlaps, and the removals are valid, the result is
      sorted by start and without overlaps too, so the pieces come in the
      order of the available interval they were cut from. */
  lemma {:induction false} SubtractManyOrdered(available: seq<Interval>, removals: seq<Interval>, n: nat)
    requires n <= |available|
    ensures forall w :: w in SubtractMany(available, removals, n) ==>
      InsideSome(w, available, n)
    ensures AllValid(available) ==> AllValid(SubtractMany(available, removals, n))
    ensures SortedByStart(available) && Disjoint(available) && AllValid(available) && AllValid(removals) ==>
      SortedByStart(SubtractMany(available, removals, n)) && Disjoint(SubtractMany(available, removals, n))
  {
    if n > 0 {
      var a := available[n - 1];
      var done := SubtractMany(available, removals, n - 1);
      var left := SubtractAll([a], removals, 0);
      SubtractManyOrdered(available, removals, n - 1);
      SubtractAllInside([a], removals, 0, a);
      if AllValid(available) {
        assert a in available;
        SubtractAllValid([a], removals, 0);
      }
      if SortedByStart(available) && Disjoint(available) && AllValid(available) && AllValid(removals) {
        SubtractAllOrdered([a], removals, 0);
        forall w, v | w in done && v in left ensures w.start <= v.start && w.stop <= v.start {
          var k :| 0 <= k < n - 1 && Inside(w, available[k]);
          assert Valid(w);
        }
        AppendOrdered(done, left);
      }
    }
  }

  // ---- the loops of subtract_many_intervals, and merge_subtract_intervals ----

  /** The innermost loop: `new_temp` extended with the pieces of each entry
      of temp cut by one removal. */
  method SubtractFromEach(temp: seq<Interval>, removal: Interval) returns (newTemp: seq<Interval>)
    ensures newTemp == SubtractEach(temp, removal, |temp|)
  {
    newTemp := [];
    var n := 0;
    while n < |temp|
      invariant 0 <= n <= |temp|
      invariant newTemp == SubtractEach(temp, removal, n)
    {
      newTemp := newTemp + Subtract(temp[n], removal);
      n := n + 1;
    }
  }

  /** The middle loop: cut one available interval by each removal in turn,
      leaving the loop once nothing is left. */
  method SubtractFromOne(interval: Interval, removals: seq<Interval>) returns (temp: seq<Interval>)
    ensures temp == SubtractAll([interval], removals, 0)
  {
    temp := [interval];
    var i := 0;
    while i < |removals|
      invariant 0 <= i <= |removals|
      invariant SubtractAll(temp, removals, i) == SubtractAll([interval], removals, 0)
    {
      var newTemp := SubtractFromEach(temp, removals[i]);
      temp := newTemp;
      if temp == [] {
        break;
      }
      i := i + 1;
    }
  }

  /** `subtract_many_intervals(available, not_available)`: what is left of
      each available interval, in order. */
  method SubtractManyIntervals(available: seq<Interval>, removals: seq<Interval>) returns (result: seq<Interval>)
    ensures result == SubtractMany(available, removals, |available|)
  {
    result := [];
    var n := 0;
    while n < |available|
      invariant 0 <= n <= |available|
      invariant result == SubtractMany(available, removals, n)
    {
      var temp := SubtractFromOne(available[n], removals);
      result := result + temp;
      n := n + 1;
    }
  }

  /** What `merge_subtract_intervals` returns for the category dictionary
      `intervals`. */
  function MergeSubtract(intervals: map<string, seq<Interval>>): seq<Interval>
    requires forall k :: k in AvailableKeys ==> k in intervals
    requires forall k :: k in UnavailableKeys ==> k in intervals
  {
    var available := Merged(Gathered(intervals, AvailableKeys));
    var unavailable := Merged(Gathered(intervals, UnavailableKeys));
    SubtractMany(available, unavailable, |available|)
  }

  /** A meeting slot holds exactly the points that some available
      category holds and no unavailable category holds. */
  lemma MergeSubtractCovers(intervals: map<string, seq<Interval>>, t: int)
    requires forall k :: k in AvailableKeys ==> k in intervals
    requires forall k :: k in UnavailableKeys ==> k in intervals
    ensures Covered(MergeSubtract(intervals), t) <==>
      (exists k :: k in AvailableKeys && Covered(intervals[k], t))
      && !(exists k :: k in UnavailableKeys && Covered(intervals[k], t))
  {
    var gatheredIn := Gathered(intervals, AvailableKeys);
    var gatheredOut := Gathered(intervals, UnavailableKeys);
    var available := Merged(gatheredIn);
    var unavailable := Merged(gatheredOut);
    MergedCovers(gatheredIn, t);
    assert available[..|available|] == available;
    SubtractManyCovers(available, unavailable, |available|, t);
    MergedCovers(gatheredOut, t);
    GatheredCovers(intervals, AvailableKeys, t);
    GatheredCovers(intervals, UnavailableKeys, t);
  }

  /** Every meeting slot lies inside one merged available interval; when
      all the gathered intervals are valid the slots are sorted by start and
      do not overlap. */
  lemma MergeSubtractOrdered(intervals: map<string, seq<Interval>>)
    requires forall k :: k in AvailableKeys ==> k in intervals
    requires forall k :: k in UnavailableKeys ==> k in intervals
    ensures var r := MergeSubtract(intervals);
      var available := Merged(Gathered(intervals, AvailableKeys));
      (forall w :: w in r ==> InsideSome(w, available, |available|))
      && (AllValid(Gathered(intervals, AvailableKeys)) && AllValid(Gathered(intervals, UnavailableKeys)) ==>
            SortedByStart(r) && Disjoint(r))
  {
    var gatheredIn := Gathered(intervals, AvailableKeys);
    var gatheredOut := Gathered(intervals, UnavailableKeys);
    var available := Merged(gatheredIn);
    var unavailable := Merged(gatheredOut);
    var r := SubtractMany(available, unavailable, |available|);
    assert MergeSubtract(intervals) == r;
    SubtractManyOrdered(available, unavailable, |available|);
    forall w | w in r ensures InsideSome(w, available, |available|) {
      var k :| 0 <= k < |available| && Inside(w, available[k]);
    }
    MergedFacts(gatheredIn);
    MergedFacts(gatheredOut);
  }

  /** `merge_subtract_intervals`. The source reads `intervals[key]` for
      each available and unavailable key, so those keys must be present. */
  method MergeSubtractIntervals(intervals: map<string, seq<Interval>>) returns (final: seq<Interval>)
    requires forall k :: k in AvailableKeys ==> k in intervals
    requires forall k :: k in UnavailableKeys ==> k in intervals
    ensures final == MergeSubtract(intervals)
  {
    var availableIntervals := Collect(intervals, AvailableKeys);
    var notAvailableIntervals := Collect(intervals, UnavailableKeys);
    var mergedAvailable := MergeIntervals(availableIntervals);
    var mergedNotAvailable := MergeIntervals(notAvailableIntervals);
    final := SubtractManyIntervals(mergedAvailable, mergedNotAvailable);
  }
}
