/** `find_free_time(day, given)`: the free windows of the day that starts at
    `given`, i.e. the gaps between the busy intervals of the categories Rahu,
    Yamaganda, Gulika, Dur Muhurat and Varjyam. A one-second sentinel
    [next_day - 1s, next_day) is normalized together with the busy
    intervals, so the last free window ends at next_day - 1s. */
module FreeTime {
  import opened Intervals
  import opened Normalize
  import opened Categories

  /** The categories `find_free_time` treats as busy, in the order it
      gathers them. */
  const BusyKeys: seq<string> := ["Rahu", "Yamaganda", "Gulika", "Dur Muhurat", "Varjyam"]

  /** The sentinel [next_day - 1s, next_day) of the day that starts at
      `given`. */
  function Sentinel(given: int): Interval
  {
    Interval(given + Day - 1, given + Day)
  }

  /** The walk of `find_free_time` over the normalized busy list s from
      index j, with the cursor at `cursor`: it stops at the end of the list or
      once the cursor reaches `nextDay`; otherwise it emits [cursor, s[j].start)
      when `delta.seconds`, i.e. (s[j].start - cursor) modulo one day, is
      positive, and moves the cursor to s[j].stop. */
  function Gaps(cursor: int, s: seq<Interval>, j: nat, nextDay: int): seq<Interval>
    decreases |s| - j
  {
    if j >= |s| || cursor >= nextDay then []
    else
      var window := if (s[j].start - cursor) % Day > 0 then [Interval(cursor, s[j].start)] else [];
      window + Gaps(s[j].stop, s, j + 1, nextDay)
  }

  /** Some interval of s[j..] holds the last second of the day. */
  predicate Reaches(s: seq<Interval>, j: nat, nextDay: int)
  {
    exists k :: j <= k < |s| && Contains(s[k], nextDay - 1)
  }

  /** The facts about the walk on a list that is sorted, does not overlap,
      holds valid intervals and holds the last second of the day. */
  predicate WalkReady(cursor: int, s: seq<Interval>, j: nat, given: int, nextDay: int)
  {
    nextDay == given + Day && given <= cursor && j <= |s|
    && SortedByStart(s) && Disjoint(s) && AllValid(s)
    && StartsFrom(cursor, s, j)
    && (cursor < nextDay ==> Reaches(s, j, nextDay))
  }

  /** Where the next busy interval lies when the walk reaches it: at or
      after the cursor and before the last second of the day, so
      `delta.seconds` is the plain difference. */
  lemma StepBounds(cursor: int, s: seq<Interval>, j: nat, given: int, nextDay: int)
    requires WalkReady(cursor, s, j, given, nextDay)
    requires j < |s| && cursor < nextDay
    ensures cursor <= s[j].start <= s[j].stop && s[j].start <= nextDay - 1
    ensures (s[j].start - cursor) % Day > 0 <==> cursor < s[j].start
  {
    var y := s[j];
    assert Valid(y) by { assert y in s; }
    var k :| j <= k < |s| && Contains(s[k], nextDay - 1);
    assert cursor <= y.start <= nextDay - 1 by {
      assert y.start <= s[k].start;
    }
    var d := y.start - cursor;
    assert 0 <= d < Day;
  }

  /** After the next busy interval, the walk goes on from its stop with
      the same facts. */
  lemma StepReady(cursor: int, s: seq<Interval>, j: nat, given: int, nextDay: int)
    requires WalkReady(cursor, s, j, given, nextDay)
    requires j < |s| && cursor < nextDay
    ensures WalkReady(s[j].stop, s, j + 1, given, nextDay)
  {
    var y := s[j];
    assert Valid(y) by { assert y in s; }
    assert StartsFrom(y.stop, s, j + 1);
    if y.stop < nextDay {
      var k :| j <= k < |s| && Contains(s[k], nextDay - 1);
      assert k != j;
      assert Reaches(s, j + 1, nextDay);
    }
  }

  /** One step of the walk: the next busy interval starts at or after the
      cursor and before the last second of the day, so `delta.seconds` is
      the plain difference and a window is emitted exactly when the cursor
      is before that start; the walk goes on from its stop. */
  lemma GapsStep(cursor: int, s: seq<Interval>, j: nat, given: int, nextDay: int)
    requires WalkReady(cursor, s, j, given, nextDay)
    requires j < |s| && cursor < nextDay
    ensures cursor <= s[j].start <= s[j].stop && s[j].start <= nextDay - 1
    ensures Gaps(cursor, s, j, nextDay)
         == (if cursor < s[j].start then [Interval(cursor, s[j].start)] else [])
            + Gaps(s[j].stop, s, j + 1, nextDay)
    ensures WalkReady(s[j].stop, s, j + 1, given, nextDay)
  {
    StepBounds(cursor, s, j, given, nextDay);
    StepReady(cursor, s, j, given, nextDay);
  }

  /** No point before the start of s[j] is held by an interval after it in
      a list sorted by start. */
  lemma BeforeStartUncovered(s: seq<Interval>, j: nat, t: int)
    requires SortedByStart(s) && j < |s| && t < s[j].start
    ensures !Covered(s[j + 1..], t)
  {
    forall iv | iv in s[j + 1..] ensures !Contains(iv, t) {
      var m :| j + 1 <= m < |s| && s[m] == iv;
    }
  }

  /** One step of the walk, on points: the window [cursor, y.start) and the
      windows after y hold exactly the points from the cursor to the end of
      the day that neither y nor the intervals after it hold. */
  lemma CoverStep(cursor: int, y: Interval, rest: seq<Interval>, tail: seq<Interval>, nextDay: int, t: int)
    requires cursor <= y.start <= y.stop && y.start < nextDay
    requires Covered(rest, t) <==> y.stop <= t < nextDay && !Covered(tail, t)
    requires t < y.start ==> !Covered(tail, t)
    ensures var window := if cursor < y.start then [Interval(cursor, y.start)] else [];
      Covered(window + rest, t) <==> cursor <= t < nextDay && !Covered([y] + tail, t)
  {
    var window := if cursor < y.start then [Interval(cursor, y.start)] else [];
    CoveredAppend(window, rest, t);
    CoveredAppend([y], tail, t);
    assert Covered(window, t) <==> cursor <= t < y.start by {
      if cursor <= t < y.start {
        assert Contains(window[0], t);
      }
    }
    assert Covered([y], t) <==> Contains(y, t) by {
      if Contains(y, t) {
        assert y in [y];
      }
    }
  }

  /** The windows of the walk are exactly the points from the cursor to the
      end of the day that no interval of s[j..] holds. */
  lemma {:induction false} GapsCovers(cursor: int, s: seq<Interval>, j: nat, given: int, nextDay: int, t: int)
    requires WalkReady(cursor, s, j, given, nextDay)
    ensures Covered(Gaps(cursor, s, j, nextDay), t) <==> cursor <= t < nextDay && !Covered(s[j..], t)
    decreases |s| - j
  {
    if j < |s| && cursor < nextDay {
      var y := s[j];
      GapsStep(cursor, s, j, given, nextDay);
      GapsCovers(y.stop, s, j + 1, given, nextDay, t);
      if t < y.start {
        BeforeStartUncovered(s, j, t);
      }
      CoverStep(cursor, y, Gaps(y.stop, s, j + 1, nextDay), s[j + 1..], nextDay, t);
      assert s[j..] == [y] + s[j + 1..];
    }
  }

  /** The windows of the walk are non-empty and lie between the cursor and
      the last second of the day. */
  lemma {:induction false} GapsBounded(cursor: int, s: seq<Interval>, j: nat, given: int, nextDay: int)
    requires WalkReady(cursor, s, j, given, nextDay)
    ensures forall w :: w in Gaps(cursor, s, j, nextDay) ==> cursor <= w.start < w.stop <= nextDay - 1
    decreases |s| - j
  {
    if j < |s| && cursor < nextDay {
      GapsStep(cursor, s, j, given, nextDay);
      GapsBounded(s[j].stop, s, j + 1, given, nextDay);
    }
  }

  /** The facts about the walk that hold whether or not the intervals are
      valid: the list is sorted, does not overlap, ends no earlier than
      `given` and holds the last second of the day. */
  predicate WalkInDay(cursor: int, s: seq<Interval>, j: nat, given: int, nextDay: int)
  {
    nextDay == given + Day && given <= cursor && j <= |s|
    && SortedByStart(s) && Disjoint(s) && (forall k :: 0 <= k < |s| ==> given <= s[k].stop)
    && StartsFrom(cursor, s, j)
    && (cursor < nextDay ==> Reaches(s, j, nextDay))
  }

  /** One step of the walk on such a list: the window it may emit lies
      between the cursor and the last second of the day, and the walk goes
      on from the stop of the next interval, still inside the day. */
  lemma InDayStep(cursor: int, s: seq<Interval>, j: nat, given: int, nextDay: int)
    requires WalkInDay(cursor, s, j, given, nextDay)
    requires j < |s| && cursor < nextDay
    ensures cursor <= s[j].start <= nextDay - 1
    ensures WalkInDay(s[j].stop, s, j + 1, given, nextDay)
  {
    var y := s[j];
    var k :| j <= k < |s| && Contains(s[k], nextDay - 1);
    assert y.start <= s[k].start;
    assert StartsFrom(y.stop, s, j + 1);
    if y.stop < nextDay {
      assert k != j;
      assert Reaches(s, j + 1, nextDay);
    }
  }

  /** The bounds on the windows after one step carry over to the window
      the step may emit. */
  lemma InDayWindows(cursor: int, s: seq<Interval>, j: nat, given: int, nextDay: int)
    requires j < |s| && given <= cursor < nextDay
    requires cursor <= s[j].start <= nextDay - 1
    requires forall w :: w in Gaps(s[j].stop, s, j + 1, nextDay) ==> given <= w.start < w.stop <= nextDay - 1
    ensures forall w :: w in Gaps(cursor, s, j, nextDay) ==> given <= w.start < w.stop <= nextDay - 1
  {
    var window := if (s[j].start - cursor) % Day > 0 then [Interval(cursor, s[j].start)] else [];
    var rest := Gaps(s[j].stop, s, j + 1, nextDay);
    assert Gaps(cursor, s, j, nextDay) == window + rest;
    assert (s[j].start - cursor) % Day > 0 ==> cursor < s[j].start;
  }

  /** Valid intervals or not, the windows of the walk are non-empty and
      lie between `given` and the last second of the day. */
  lemma {:induction false} GapsInDay(cursor: int, s: seq<Interval>, j: nat, given: int, nextDay: int)
    requires WalkInDay(cursor, s, j, given, nextDay)
    ensures forall w :: w in Gaps(cursor, s, j, nextDay) ==> given <= w.start < w.stop <= nextDay - 1
    decreases |s| - j
  {
    if j < |s| && cursor < nextDay {
      InDayStep(cursor, s, j, given, nextDay);
      GapsInDay(s[j].stop, s, j + 1, given, nextDay);
      InDayWindows(cursor, s, j, given, nextDay);
    }
  }

  /** One step of the walk, valid intervals or not: the next busy interval
      starts at or after the cursor and before the last second of the day,
      so `delta.seconds` is the plain difference and a window is emitted
      exactly when the cursor is before that start. */
  lemma GapsTest(cursor: int, s: seq<Interval>, j: nat, given: int, nextDay: int)
    requires WalkInDay(cursor, s, j, given, nextDay)
    requires j < |s| && cursor < nextDay
    ensures cursor <= s[j].start <= nextDay - 1
    ensures Gaps(cursor, s, j, nextDay)
         == (if cursor < s[j].start then [Interval(cursor, s[j].start)] else [])
            + Gaps(s[j].stop, s, j + 1, nextDay)
    ensures WalkInDay(s[j].stop, s, j + 1, given, nextDay)
  {
    InDayStep(cursor, s, j, given, nextDay);
  }

  /** The windows of the walk do not overlap. */
  lemma {:induction false} GapsDisjoint(cursor: int, s: seq<Interval>, j: nat, given: int, nextDay: int)
    requires WalkReady(cursor, s, j, given, nextDay)
    ensures Disjoint(Gaps(cursor, s, j, nextDay))
    decreases |s| - j
  {
    if j < |s| && cursor < nextDay {
      var y := s[j];
      GapsStep(cursor, s, j, given, nextDay);
      var rest := Gaps(y.stop, s, j + 1, nextDay);
      GapsDisjoint(y.stop, s, j + 1, given, nextDay);
      GapsBounded(y.stop, s, j + 1, given, nextDay);
      if cursor < y.start {
        WindowCons(Interval(cursor, y.start), rest);
      }
    }
  }

  /** A window that ends by the start of every later window, put in front
      of windows that do not overlap, keeps them so. */
  lemma WindowCons(w: Interval, rest: seq<Interval>)
    requires Disjoint(rest)
    requires forall v :: v in rest ==> w.stop <= v.start
    ensures Disjoint([w] + rest)
  {
    var r := [w] + rest;
    forall a, b | 0 <= a < b < |r| ensures r[a].stop <= r[b].start {
      assert r[b] == rest[b - 1];
      assert r[b] in rest;
      if a > 0 {
        assert r[a] == rest[a - 1];
      }
    }
  }

  /** Non-empty intervals that do not overlap are in `Interval.__lt__`
      order. */
  lemma DisjointSorted(r: seq<Interval>)
    requires Disjoint(r)
    requires forall w :: w in r ==> w.start < w.stop
    ensures SortedLex(r)
  {
    forall a, b | 0 <= a < b < |r| ensures !Less(r[b], r[a]) {
      assert r[a] in r;
    }
  }

  /** The free windows `find_free_time` returns for the gathered busy
      intervals `busy` of the day that starts at `given`: normalize them with
      the sentinel, walk the result, and sort. */
  function FreeTime(busy: seq<Interval>, given: int): seq<Interval>
  {
    var nextDay := given + Day;
    assert Sentinel(given) in [Sentinel(given)] + busy;
    var normalized := Normalized([Sentinel(given)] + busy, given, nextDay);
    SortLex(Gaps(given, normalized, 0, nextDay))
  }

  /** For valid busy intervals, the free windows are sorted, do not overlap,
      are non-empty and lie in [given, next_day - 1s]; they hold exactly the
      points of [given, next_day - 1s) that no busy interval holds. */
  lemma FreeTimeFacts(busy: seq<Interval>, given: int)
    requires AllValid(busy)
    ensures var free := FreeTime(busy, given);
      SortedLex(free) && Disjoint(free)
      && (forall w :: w in free ==> given <= w.start < w.stop <= given + Day - 1)
      && forall t :: Covered(free, t) <==> given <= t < given + Day - 1 && !Covered(busy, t)
  {
    var nextDay := given + Day;
    var merged := [Sentinel(given)] + busy;
    assert Sentinel(given) in merged;
    assert AllValid(merged);
    var normalized := Normalized(merged, given, nextDay);
    assert Covered(normalized, nextDay - 1) by {
      assert Contains(Sentinel(given), nextDay - 1);
    }
    var iv :| iv in normalized && Contains(iv, nextDay - 1);
    assert Reaches(normalized, 0, nextDay);
    assert WalkReady(given, normalized, 0, given, nextDay);
    assert normalized[0..] == normalized;
    var gaps := Gaps(given, normalized, 0, nextDay);
    GapsBounded(given, normalized, 0, given, nextDay);
    GapsDisjoint(given, normalized, 0, given, nextDay);
    DisjointSorted(gaps);
    SortLexOfSorted(gaps);
    forall t ensures Covered(gaps, t) <==> given <= t < nextDay - 1 && !Covered(busy, t) {
      GapsCovers(given, normalized, 0, given, nextDay, t);
      CoveredAppend([Sentinel(given)], busy, t);
      assert Covered([Sentinel(given)], t) <==> Contains(Sentinel(given), t);
    }
  }

  /** Valid busy intervals or not, every free window is non-empty and lies
      in [given, next_day - 1s]. */
  lemma FreeTimeInDay(busy: seq<Interval>, given: int)
    ensures forall w :: w in FreeTime(busy, given) ==> given <= w.start < w.stop <= given + Day - 1
  {
    var nextDay := given + Day;
    var merged := [Sentinel(given)] + busy;
    assert Sentinel(given) in merged;
    var normalized := Normalized(merged, given, nextDay);
    assert Covered(normalized, nextDay - 1) by {
      assert Contains(Sentinel(given), nextDay - 1);
    }
    var iv :| iv in normalized && Contains(iv, nextDay - 1);
    assert Reaches(normalized, 0, nextDay);
    assert WalkInDay(given, normalized, 0, given, nextDay) by {
      forall k | 0 <= k < |normalized| ensures given <= normalized[k].stop {
        assert normalized[k] in normalized;
      }
    }
    var gaps := Gaps(given, normalized, 0, nextDay);
    GapsInDay(given, normalized, 0, given, nextDay);
    forall w | w in FreeTime(busy, given) ensures given <= w.start < w.stop <= nextDay - 1 {
      assert w in multiset(gaps);
    }
  }

  /** With no busy interval, the one free window is [given, next_day - 1s]. */
  lemma FreeTimeNoBusy(given: int)
    ensures FreeTime([], given) == [Interval(given, given + Day - 1)]
  {
    var nextDay := given + Day;
    var s := [Sentinel(given)];
    assert Normalized([Sentinel(given)] + [], given, nextDay) == s by {
      assert [Sentinel(given)] + [] == s;
      SortLexOfSorted(s);
      assert Clip(s, 1, given, nextDay) == s;
    }
    var free := [Interval(given, nextDay - 1)];
    assert Gaps(given, s, 0, nextDay) == free by {
      assert (nextDay - 1 - given) % Day == Day - 1;
    }
    SortLexOfSorted(free);
  }

  /** The cursor loop of `find_free_time` over the normalized list. */
  method Walk(normalized: seq<Interval>, given: int, nextDay: int) returns (free: seq<Interval>)
    ensures free == Gaps(given, normalized, 0, nextDay)
  {
    var cursor := given;
    free := [];
    var j := 0;
    while j < |normalized|
      invariant 0 <= j <= |normalized|
      invariant free + Gaps(cursor, normalized, j, nextDay) == Gaps(given, normalized, 0, nextDay)
    {
      if cursor >= nextDay {
        break;
      }
      var interval := normalized[j];
      ghost var rest := Gaps(interval.stop, normalized, j + 1, nextDay);
      if (interval.start - cursor) % Day > 0 {
        assert free + ([Interval(cursor, interval.start)] + rest)
            == (free + [Interval(cursor, interval.start)]) + rest;
        free := free + [Interval(cursor, interval.start)];
      }
      cursor := interval.stop;
      j := j + 1;
    }
  }

  /** `find_free_time`. The source reads `day[key]` for each busy key, so
      those keys must be present. */
  method FindFreeTime(day: map<string, seq<Interval>>, given: int) returns (free: seq<Interval>)
    requires forall k :: k in BusyKeys ==> k in day
    ensures free == FreeTime(Gathered(day, BusyKeys), given)
  {
    var nextDay := given + Day;
    var busy := Collect(day, BusyKeys);
    var merged := [Interval(nextDay - 1, nextDay)] + busy;
    assert Sentinel(given) in merged;
    var normalized := SortAndNormalize(merged, given, nextDay);
    free := Walk(normalized, given, nextDay);
    free := SortLex(free);
  }
}
