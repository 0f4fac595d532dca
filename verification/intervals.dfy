/** The `Interval` value shared by app.py and app_adv.py: a pair of instants
    with the ordering of `Interval.__lt__`, the points it covers, and the two
    orders in which the scripts sort lists of intervals (`list.sort()` on the
    interval ordering, and `list.sort(key=start)`). Instants are whole
    seconds; a day is `Day` seconds. */
module Intervals {

  /** One day, in seconds (`timedelta(seconds=86400)`). */
  const Day: int := 86400

  /** A time window between two instants; as a set of points it is the
      half-open range [start, stop). */
  datatype Interval = Interval(start: int, stop: int)

  function Max(a: int, b: int): int { if a < b then b else a }

  function Min(a: int, b: int): int { if a < b then a else b }

  /** `Interval.duration`. */
  function Duration(iv: Interval): int { iv.stop - iv.start }

  /** `Interval.__lt__`: the starts decide, the stops break a tie. */
  predicate Less(a: Interval, b: Interval)
  {
    if a.start == b.start then a.stop < b.stop else a.start < b.start
  }

  /** `Interval.__lt__` is the lexicographic order on (start, stop), and
      `Interval.__eq__` together with it gives a strict total order: exactly
      one of a < b, a == b, b < a holds. */
  lemma LessIsLexicographic(a: Interval, b: Interval, c: Interval)
    ensures Less(a, b) <==> a.start < b.start || (a.start == b.start && a.stop < b.stop)
    ensures a == b <==> a.start == b.start && a.stop == b.stop
    ensures !Less(a, a)
    ensures Less(a, b) && Less(b, c) ==> Less(a, c)
    ensures (Less(a, b) && !Less(b, a) && a != b)
         || (!Less(a, b) && Less(b, a) && a != b)
         || (!Less(a, b) && !Less(b, a) && a == b)
  {
  }

  /** A valid interval does not end before it starts. */
  predicate Valid(iv: Interval) { iv.start <= iv.stop }

  predicate AllValid(s: seq<Interval>) { forall iv :: iv in s ==> Valid(iv) }

  /** The instant t lies in the window. */
  predicate Contains(iv: Interval, t: int) { iv.start <= t < iv.stop }

  /** Some interval of s holds the instant t. */
  predicate Covered(s: seq<Interval>, t: int)
  {
    exists iv :: iv in s && Contains(iv, t)
  }

  /** Sorted by `Interval.__lt__` (no later entry is smaller). */
  predicate SortedLex(s: seq<Interval>)
  {
    forall i, j :: 0 <= i < j < |s| ==> !Less(s[j], s[i])
  }

  predicate SortedByStart(s: seq<Interval>)
  {
    forall i, j :: 0 <= i < j < |s| ==> s[i].start <= s[j].start
  }

  /** No entry overlaps a later one: touching entries are allowed. */
  predicate Disjoint(s: seq<Interval>)
  {
    forall i, j :: 0 <= i < j < |s| ==> s[i].stop <= s[j].start
  }

  /** No entry overlaps or touches a later one. */
  predicate Apart(s: seq<Interval>)
  {
    forall i, j :: 0 <= i < j < |s| ==> s[i].stop < s[j].start
  }

  lemma CoveredAppend(a: seq<Interval>, b: seq<Interval>, t: int)
    ensures Covered(a + b, t) <==> Covered(a, t) || Covered(b, t)
  {
    if Covered(a + b, t) {
      var iv :| iv in a + b && Contains(iv, t);
      assert iv in a || iv in b;
    }
    if Covered(a, t) {
      var iv :| iv in a && Contains(iv, t);
      assert iv in a + b;
    }
    if Covered(b, t) {
      var iv :| iv in b && Contains(iv, t);
      assert iv in a + b;
    }
  }

  lemma CoveredCons(s: seq<Interval>, t: int)
    requires s != []
    ensures Covered(s, t) <==> Contains(s[0], t) || Covered(s[1..], t)
  {
    assert s == [s[0]] + s[1..];
    CoveredAppend([s[0]], s[1..], t);
  }

  /** Reordering a list does not change the points it covers. */
  lemma CoveredPermutation(a: seq<Interval>, b: seq<Interval>, t: int)
    requires multiset(a) == multiset(b)
    ensures Covered(a, t) <==> Covered(b, t)
  {
    if Covered(a, t) {
      var iv :| iv in a && Contains(iv, t);
      assert iv in multiset(b);
    }
    if Covered(b, t) {
      var iv :| iv in b && Contains(iv, t);
      assert iv in multiset(a);
    }
  }

  // ---- list.sort() on the interval ordering ----

  /** An entry no later entry is smaller than, put in front of a sorted
      list, keeps it sorted. */
  lemma SortedLexCons(h: Interval, t: seq<Interval>)
    requires SortedLex(t)
    requires forall y :: y in t ==> !Less(y, h)
    ensures SortedLex([h] + t)
  {
    var r := [h] + t;
    forall i, j | 0 <= i < j < |r| ensures !Less(r[j], r[i]) {
      assert r[j] == t[j - 1];
      if i > 0 {
        assert r[i] == t[i - 1];
      }
    }
  }

  function InsertLex(x: Interval, s: seq<Interval>): (r: seq<Interval>)
    requires SortedLex(s)
    ensures |r| == |s| + 1
    ensures forall y :: y in r <==> y == x || y in s
    ensures SortedLex(r)
    ensures multiset(r) == multiset(s) + multiset{x}
  {
    if s == [] || !Less(s[0], x) then
      SortedLexCons(x, s);
      [x] + s
    else
      var tail := InsertLex(x, s[1..]);
      assert s == [s[0]] + s[1..];
      SortedLexCons(s[0], tail);
      [s[0]] + tail
  }

  /** `list.sort()` of intervals: the sorted rearrangement of s. */
  function SortLex(s: seq<Interval>): (r: seq<Interval>)
    ensures |r| == |s|
    ensures SortedLex(r)
    ensures multiset(r) == multiset(s)
  {
    if s == [] then []
    else
      assert s == [s[0]] + s[1..];
      InsertLex(s[0], SortLex(s[1..]))
  }

  /** Sorting a list that is already sorted leaves it as it is. */
  lemma {:induction false} SortLexOfSorted(s: seq<Interval>)
    requires SortedLex(s)
    ensures SortLex(s) == s
  {
    if s != [] {
      SortLexOfSorted(s[1..]);
      assert s == [s[0]] + s[1..];
    }
  }

  lemma SortedLexByStart(s: seq<Interval>)
    requires SortedLex(s)
    ensures SortedByStart(s)
  {
  }

  // ---- list.sort(key=lambda interval: interval.start), a stable sort ----

  lemma SortedByStartCons(h: Interval, t: seq<Interval>)
    requires SortedByStart(t)
    requires forall y :: y in t ==> h.start <= y.start
    ensures SortedByStart([h] + t)
  {
    var r := [h] + t;
    forall i, j | 0 <= i < j < |r| ensures r[i].start <= r[j].start {
      assert r[j] == t[j - 1];
      if i > 0 {
        assert r[i] == t[i - 1];
      }
    }
  }

  function InsertByStart(x: Interval, s: seq<Interval>): (r: seq<Interval>)
    requires SortedByStart(s)
    ensures forall y :: y in r <==> y == x || y in s
    ensures SortedByStart(r)
    ensures multiset(r) == multiset(s) + multiset{x}
  {
    if s == [] || x.start <= s[0].start then
      SortedByStartCons(x, s);
      [x] + s
    else
      var tail := InsertByStart(x, s[1..]);
      assert s == [s[0]] + s[1..];
      SortedByStartCons(s[0], tail);
      [s[0]] + tail
  }

  /** `list.sort(key=start)`: sorted by start, and entries with equal starts
      keep their order (Python's sort is stable; x is placed before every
      later entry whose start is not smaller). */
  function SortByStart(s: seq<Interval>): (r: seq<Interval>)
    ensures SortedByStart(r)
    ensures multiset(r) == multiset(s)
  {
    if s == [] then []
    else
      assert s == [s[0]] + s[1..];
      InsertByStart(s[0], SortByStart(s[1..]))
  }

  /** The entries of s whose start is k, in order. */
  function WithStart(s: seq<Interval>, k: int): seq<Interval>
  {
    if s == [] then []
    else (if s[0].start == k then [s[0]] else []) + WithStart(s[1..], k)
  }

  lemma WithStartCons(h: Interval, t: seq<Interval>, k: int)
    ensures WithStart([h] + t, k) == (if h.start == k then [h] else []) + WithStart(t, k)
  {
    assert ([h] + t)[1..] == t;
  }

  lemma {:induction false} InsertByStartStable(x: Interval, s: seq<Interval>, k: int)
    requires SortedByStart(s)
    ensures WithStart(InsertByStart(x, s), k)
         == (if x.start == k then [x] else []) + WithStart(s, k)
  {
    if s == [] || x.start <= s[0].start {
      WithStartCons(x, s, k);
    } else {
      var tail := InsertByStart(x, s[1..]);
      InsertByStartStable(x, s[1..], k);
      WithStartCons(s[0], tail, k);
      WithStartCons(s[0], s[1..], k);
      assert s == [s[0]] + s[1..];
      if x.start == k {
        // s[0] goes before x, so its start is smaller than k
        assert s[0].start != k;
      }
    }
  }

  /** Stability of `SortByStart`: for every start value, the entries with
      that start come out in the order they went in. */
  lemma {:induction false} SortByStartStable(s: seq<Interval>, k: int)
    ensures WithStart(SortByStart(s), k) == WithStart(s, k)
  {
    if s != [] {
      SortByStartStable(s[1..], k);
      InsertByStartStable(s[0], SortByStart(s[1..]), k);
    }
  }
}
