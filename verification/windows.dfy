/** `build_intervals(data, date)`: the raw window strings of each category
    ("12:35 PM - 01:28 PM", possibly followed by an annotation in
    parentheses) become sorted lists of intervals. Reading one clock token is
    left to a parameter `parse(token, date)` standing for `try_strptime`. */
module Windows {
  import opened Intervals

  datatype Option<T> = None | Some(value: T)

  /** The separator of the two clock tokens (U+2013, EN DASH). */
  const EnDash: char := '\U{2013}'

  /** The characters Python 2.7's `unicode.strip()` removes: white space
      as of Unicode 5.2, which still counts U+180E MONGOLIAN VOWEL
      SEPARATOR. */
  predicate IsSpace(c: char)
  {
    || '\U{9}' <= c <= '\U{D}'
    || '\U{1C}' <= c <= '\U{20}'
    || c == '\U{85}' || c == '\U{A0}' || c == '\U{1680}' || c == '\U{180E}'
    || '\U{2000}' <= c <= '\U{200A}'
    || c == '\U{2028}' || c == '\U{2029}' || c == '\U{202F}' || c == '\U{205F}' || c == '\U{3000}'
  }

  function TrimLeft(s: string): string
  {
    if s != [] && IsSpace(s[0]) then TrimLeft(s[1..]) else s
  }

  function TrimRight(s: string): string
  {
    if s != [] && IsSpace(s[|s| - 1]) then TrimRight(s[..|s| - 1]) else s
  }

  /** `str.strip()`: s without its leading and trailing white space. */
  function Strip(s: string): string
  {
    TrimRight(TrimLeft(s))
  }

  lemma {:induction false} TrimLeftFacts(s: string)
    ensures var r := TrimLeft(s);
      |r| <= |s| && r == s[|s| - |r|..]
      && (r == [] || !IsSpace(r[0]))
      && forall k :: 0 <= k < |s| - |r| ==> IsSpace(s[k])
  {
    if s != [] && IsSpace(s[0]) {
      var t := s[1..];
      TrimLeftFacts(t);
      var r := TrimLeft(t);
      assert TrimLeft(s) == r;
      assert t[|t| - |r|..] == s[|s| - |r|..];
      forall k | 0 <= k < |s| - |r| ensures IsSpace(s[k]) {
        if k > 0 {
          assert s[k] == t[k - 1];
        }
      }
    }
  }

  lemma {:induction false} TrimRightFacts(s: string)
    ensures var r := TrimRight(s);
      |r| <= |s| && r == s[..|r|]
      && (r == [] || !IsSpace(r[|r| - 1]))
      && forall k :: |r| <= k < |s| ==> IsSpace(s[k])
  {
    if s != [] && IsSpace(s[|s| - 1]) {
      var t := s[..|s| - 1];
      TrimRightFacts(t);
      var r := TrimRight(t);
      assert TrimRight(s) == r;
      assert t[..|r|] == s[..|r|];
      forall k | |r| <= k < |s| ensures IsSpace(s[k]) {
        if k < |s| - 1 {
          assert s[k] == t[k];
        }
      }
    }
  }

  /** `Strip(s)` is the piece s[i..i+|Strip(s)|] of s, everything before
      and after it is white space, and it neither starts nor ends with white
      space. */
  lemma StripFacts(s: string)
    ensures var r := Strip(s);
      (r == [] || (!IsSpace(r[0]) && !IsSpace(r[|r| - 1])))
      && exists i :: 0 <= i <= |s| && r <= s[i..]
           && (forall k :: 0 <= k < i ==> IsSpace(s[k]))
           && (forall k :: i + |r| <= k < |s| ==> IsSpace(s[k]))
  {
    var l := TrimLeft(s);
    TrimLeftFacts(s);
    TrimRightFacts(l);
    var r := TrimRight(l);
    var i := |s| - |l|;
    assert r <= s[i..];
    forall k | i + |r| <= k < |s| ensures IsSpace(s[k]) {
      assert s[k] == l[k - i];
    }
  }

  /** `str.rfind(c)`: the index of the last c in s, or -1. */
  function RFind(s: string, c: char): (r: int)
    ensures -1 <= r < |s|
  {
    if s == [] then -1
    else if s[|s| - 1] == c then |s| - 1
    else RFind(s[..|s| - 1], c)
  }

  lemma {:induction false} RFindFacts(s: string, c: char)
    ensures var r := RFind(s, c);
      (r == -1 <==> c !in s)
      && (0 <= r ==> s[r] == c && forall k :: r < k < |s| ==> s[k] != c)
  {
    if s != [] && s[|s| - 1] != c {
      var init := s[..|s| - 1];
      RFindFacts(init, c);
      assert s == init + [s[|s| - 1]];
    }
  }

  /** `str.find(c)`: the index of the first c in s, or -1. */
  function Find(s: string, c: char): (r: int)
    ensures -1 <= r < |s|
  {
    if s == [] then -1
    else if s[0] == c then 0
    else
      var r := Find(s[1..], c);
      if r < 0 then -1 else r + 1
  }

  lemma {:induction false} FindFacts(s: string, c: char)
    ensures var r := Find(s, c);
      (r == -1 <==> c !in s)
      && (0 <= r ==> s[r] == c && forall k :: 0 <= k < r ==> s[k] != c)
  {
    if s != [] && s[0] != c {
      FindFacts(s[1..], c);
      assert s == [s[0]] + s[1..];
    }
  }

  /** The number of occurrences of c in s (`str.count`). */
  function Count(s: string, c: char): nat
  {
    if s == [] then 0 else (if s[0] == c then 1 else 0) + Count(s[1..], c)
  }

  lemma {:induction false} CountAppend(a: string, b: string, c: char)
    ensures Count(a + b, c) == Count(a, c) + Count(b, c)
  {
    if a == [] {
      assert a + b == b;
    } else {
      CountAppend(a[1..], b, c);
      assert (a + b)[0] == a[0];
      assert (a + b)[1..] == a[1..] + b;
    }
  }

  lemma {:induction false} CountAbsent(s: string, c: char)
    requires c !in s
    ensures Count(s, c) == 0
  {
    if s != [] {
      assert c !in s[1..];
      CountAbsent(s[1..], c);
    }
  }

  /** `str.split(sep)`: the pieces between the occurrences of sep. */
  function Split(s: string, sep: char): (parts: seq<string>)
    ensures parts != []
    decreases |s|
  {
    var i := Find(s, sep);
    if i < 0 then [s] else [s[..i]] + Split(s[i + 1..], sep)
  }

  /** There is one more piece than there are separators. */
  lemma {:induction false} SplitCount(s: string, sep: char)
    ensures |Split(s, sep)| == Count(s, sep) + 1
    decreases |s|
  {
    var i := Find(s, sep);
    FindFacts(s, sep);
    if i < 0 {
      CountAbsent(s, sep);
    } else {
      SplitCount(s[i + 1..], sep);
      assert s == s[..i] + ([sep] + s[i + 1..]);
      CountAppend(s[..i], [sep] + s[i + 1..], sep);
      CountAppend([sep], s[i + 1..], sep);
      CountAbsent(s[..i], sep);
    }
  }

  /** No piece holds a separator. */
  lemma {:induction false} SplitPieces(s: string, sep: char)
    ensures forall k :: 0 <= k < |Split(s, sep)| ==> sep !in Split(s, sep)[k]
    decreases |s|
  {
    var i := Find(s, sep);
    FindFacts(s, sep);
    if i >= 0 {
      var rest := Split(s[i + 1..], sep);
      SplitPieces(s[i + 1..], sep);
      var parts := [s[..i]] + rest;
      forall k | 0 <= k < |parts| ensures sep !in parts[k] {
        if k > 0 {
          assert parts[k] == rest[k - 1];
        }
      }
      assert Split(s, sep) == parts;
    }
  }

  lemma SplitFacts(s: string, sep: char)
    ensures var parts := Split(s, sep);
      |parts| == Count(s, sep) + 1
      && forall k :: 0 <= k < |parts| ==> sep !in parts[k]
  {
    SplitCount(s, sep);
    SplitPieces(s, sep);
  }

  /** `sep.join(parts)`. */
  function Join(parts: seq<string>, sep: char): string
    requires parts != []
  {
    if |parts| == 1 then parts[0] else parts[0] + [sep] + Join(parts[1..], sep)
  }

  /** Splitting and joining again gives back the string. */
  lemma {:induction false} JoinSplit(s: string, sep: char)
    ensures Join(Split(s, sep), sep) == s
    decreases |s|
  {
    var i := Find(s, sep);
    FindFacts(s, sep);
    if i >= 0 {
      var rest := Split(s[i + 1..], sep);
      JoinSplit(s[i + 1..], sep);
      assert ([s[..i]] + rest)[1..] == rest;
      assert s == s[..i] + [sep] + s[i + 1..];
    }
  }

  /** The first separator of p + [sep] + tail, when p holds none, is the
      one after p. */
  lemma FindAfter(p: string, tail: string, sep: char)
    requires sep !in p
    ensures Find(p + [sep] + tail, sep) == |p|
  {
    var j := p + [sep] + tail;
    FindFacts(j, sep);
    assert j[|p|] == sep;
    assert j[..|p|] == p;
  }

  /** Joining pieces that hold no separator and splitting again gives back
      the pieces. */
  lemma {:induction false} SplitJoin(parts: seq<string>, sep: char)
    requires parts != []
    requires forall k :: 0 <= k < |parts| ==> sep !in parts[k]
    ensures Split(Join(parts, sep), sep) == parts
  {
    if |parts| > 1 {
      var p := parts[0];
      var rest := parts[1..];
      var tail := Join(rest, sep);
      var j := Join(parts, sep);
      assert j == p + [sep] + tail;
      FindAfter(p, tail, sep);
      assert j[..|p|] == p;
      assert j[|p| + 1..] == tail;
      assert Split(j, sep) == [p] + Split(tail, sep);
      assert forall k :: 0 <= k < |rest| ==> sep !in rest[k] by {
        forall k | 0 <= k < |rest| ensures sep !in rest[k] {
          assert rest[k] == parts[k + 1];
        }
      }
      SplitJoin(rest, sep);
      assert [p] + rest == parts;
    } else {
      FindFacts(parts[0], sep);
    }
  }

  /** Every clock token is read as an instant of the given date, as
      `try_strptime(s, date)` combines the date with the time of day. */
  ghost predicate SameDayClock(parse: (string, int) -> int, date: int)
  {
    forall token :: date <= parse(token, date) < date + Day
  }

  /** The window text with its trailing annotation removed: when the last
      '(' is not the first character, everything from it on is dropped and
      the rest stripped. */
  function DropAnnotation(text: string): string
  {
    var p := RFind(text, '(');
    if p > 0 then Strip(text[..p]) else text
  }

  /** One window string of an important timing: None when it does not
      split into exactly two tokens on the en dash; otherwise the interval of
      the two parsed tokens, with the stop moved one day on when it is
      earlier than the start. */
  function ParseWindow(text: string, date: int, parse: (string, int) -> int): Option<Interval>
  {
    var parts := Split(DropAnnotation(text), EnDash);
    if |parts| != 2 then None
    else
      var x := parse(Strip(parts[0]), date);
      var y := parse(Strip(parts[1]), date);
      Some(Interval(x, if y < x then y + Day else y))
  }

  /** A window string yields an interval exactly when, without its
      annotation, it holds one en dash; it runs from the first token's
      instant to the second's, moved one day on exactly when the second is
      earlier than the first; when the clock tokens read as instants of the
      date, the interval starts on that date and lasts less than a day. */
  lemma ParseWindowFacts(text: string, date: int, parse: (string, int) -> int)
    ensures var r := ParseWindow(text, date, parse);
      (r.Some? <==> Count(DropAnnotation(text), EnDash) == 1)
      && (r.Some? && SameDayClock(parse, date) ==>
            date <= r.value.start < date + Day && 0 <= Duration(r.value) < Day)
      && (r.Some? ==>
            var parts := Split(DropAnnotation(text), EnDash);
            var x := parse(Strip(parts[0]), date);
            var y := parse(Strip(parts[1]), date);
            r.value.start == x && (r.value.stop == y || r.value.stop == y + Day)
            && (r.value.stop == y + Day <==> y < x))
  {
    var parts := Split(DropAnnotation(text), EnDash);
    SplitFacts(DropAnnotation(text), EnDash);
    if |parts| == 2 {
      var x := parse(Strip(parts[0]), date);
      var y := parse(Strip(parts[1]), date);
      assert ParseWindow(text, date, parse) == Some(Interval(x, if y < x then y + Day else y));
    }
  }

  /** A category's value in `important_timings`: one string (Abhijit
      Muhurat) or a list of strings. */
  datatype Timing = Text(text: string) | Texts(texts: seq<string>)

  /** A lone string is treated as a one-element list. */
  function WindowsOf(t: Timing): seq<string>
  {
    match t
    case Text(s) => [s]
    case Texts(l) => l
  }

  /** `ParseWindow` applied to each window string. */
  function ParseAll(windows: seq<string>, date: int, parse: (string, int) -> int): (r: seq<Option<Interval>>)
    ensures |r| == |windows|
    ensures forall k :: 0 <= k < |r| ==> r[k] == ParseWindow(windows[k], date, parse)
  {
    if windows == [] then []
    else [ParseWindow(windows[0], date, parse)] + ParseAll(windows[1..], date, parse)
  }

  /** The intervals of the present results, in order. */
  function Kept(results: seq<Option<Interval>>): (r: seq<Interval>)
    ensures |r| <= |results|
  {
    if results == [] then []
    else
      var init := Kept(results[..|results| - 1]);
      match results[|results| - 1]
      case None => init
      case Some(iv) => init + [iv]
  }

  /** An interval is kept exactly when it is one of the results. */
  lemma {:induction false} KeptMembers(results: seq<Option<Interval>>)
    ensures forall iv :: iv in Kept(results) <==> Some(iv) in results
  {
    if results != [] {
      var init := results[..|results| - 1];
      KeptMembers(init);
      assert results == init + [results[|results| - 1]];
    }
  }

  /** Keeping the first i + 1 results adds the (i + 1)-th one, if present,
      to what the first i keep. */
  lemma KeptStep(results: seq<Option<Interval>>, i: nat)
    requires i < |results|
    ensures Kept(results[..i + 1])
         == Kept(results[..i]) + (if results[i].Some? then [results[i].value] else [])
  {
    assert results[..i + 1][..i] == results[..i];
  }

  /** The sorted interval list `build_intervals` makes of the window
      strings of one important category. */
  function CategorySpec(windows: seq<string>, date: int, parse: (string, int) -> int): seq<Interval>
  {
    SortLex(Kept(ParseAll(windows, date, parse)))
  }

  /** The loop body of `build_intervals` for one important category: parse
      each window string, skip the ones that do not split in two, then sort. */
  method CategoryIntervals(windows: seq<string>, date: int, parse: (string, int) -> int)
    returns (intervals: seq<Interval>)
    ensures intervals == CategorySpec(windows, date, parse)
    ensures SortedLex(intervals)
  {
    ghost var results := ParseAll(windows, date, parse);
    intervals := [];
    var i := 0;
    while i < |windows|
      invariant 0 <= i <= |windows|
      invariant intervals == Kept(results[..i])
    {
      var window := ParseWindow(windows[i], date, parse);
      KeptStep(results, i);
      assert results[i] == window;
      if window.Some? {
        intervals := intervals + [window.value];
      }
      i := i + 1;
    }
    assert results[..i] == results;
    intervals := SortLex(intervals);
  }

  /** The sorted list of a category holds exactly the intervals its window
      strings parse to, and they are valid when the clock tokens read as
      instants of the date. */
  lemma CategorySpecFacts(windows: seq<string>, date: int, parse: (string, int) -> int)
    ensures var sorted := CategorySpec(windows, date, parse);
      (SameDayClock(parse, date) ==> AllValid(sorted))
      && forall iv :: iv in sorted <==>
           exists k :: 0 <= k < |windows| && ParseWindow(windows[k], date, parse) == Some(iv)
  {
    var results := ParseAll(windows, date, parse);
    var kept := Kept(results);
    var sorted := SortLex(kept);
    KeptMembers(results);
    forall iv ensures iv in sorted <==> Some(iv) in results {
      assert iv in sorted <==> iv in multiset(sorted);
    }
    forall iv | Some(iv) in results
      ensures exists k :: 0 <= k < |windows| && ParseWindow(windows[k], date, parse) == Some(iv)
    {
      var k :| 0 <= k < |results| && results[k] == Some(iv);
    }
    forall iv, k | 0 <= k < |windows| && ParseWindow(windows[k], date, parse) == Some(iv)
      ensures Some(iv) in results
    {
      assert results[k] == Some(iv);
    }
    if SameDayClock(parse, date) {
      forall iv | iv in sorted ensures Valid(iv) {
        var k :| 0 <= k < |results| && results[k] == Some(iv);
        ParseWindowFacts(windows[k], date, parse);
      }
    }
  }

  /** An entry of `other_timings`: the first two en-dash tokens, parsed,
      with no midnight adjustment. The source indexes the second token
      without a length check, so a string without an en dash is excluded by
      the precondition. */
  function OtherInterval(text: string, date: int, parse: (string, int) -> int): Interval
    requires |Split(text, EnDash)| >= 2
  {
    var s := Split(text, EnDash);
    Interval(parse(Strip(s[0]), date), parse(Strip(s[1]), date))
  }

  /** The text of an `other_timings` entry has a second token exactly when
      it holds an en dash. Unlike an important window, its interval is valid
      only when its stop token reads no earlier than its start token; when it
      is valid and the text carries one en dash and no annotation, it is the
      interval `ParseWindow` gives. */
  lemma OtherIntervalFacts(text: string, date: int, parse: (string, int) -> int)
    ensures var parts := Split(text, EnDash);
      (|parts| >= 2 <==> Count(text, EnDash) > 0)
      && (|parts| >= 2 ==>
            var r := OtherInterval(text, date, parse);
            (Valid(r) <==> parse(Strip(parts[0]), date) <= parse(Strip(parts[1]), date))
            && (RFind(text, '(') <= 0 && Count(text, EnDash) == 1 && Valid(r) ==>
                  ParseWindow(text, date, parse) == Some(r)))
  {
    SplitFacts(text, EnDash);
  }

  /** The first pass of `build_intervals`, over `important_timings`. */
  method ImportantIntervals<K>(important: map<K, Timing>, date: int, parse: (string, int) -> int)
    returns (day: map<K, seq<Interval>>)
    ensures forall k :: k in day <==> k in important
    ensures forall k :: k in day ==> day[k] == CategorySpec(WindowsOf(important[k]), date, parse)
    ensures forall k :: k in day ==> SortedLex(day[k])
  {
    day := map[];
    var todo := important.Keys;
    while todo != {}
      invariant todo <= important.Keys
      invariant forall k :: k in day <==> k in important && k !in todo
      invariant forall k :: k in day ==> day[k] == CategorySpec(WindowsOf(important[k]), date, parse)
      invariant forall k :: k in day ==> SortedLex(day[k])
      decreases todo
    {
      var k :| k in todo;
      var l := WindowsOf(important[k]);
      var intervals := CategoryIntervals(l, date, parse);
      day := day[k := intervals];
      todo := todo - {k};
    }
  }

  /** The second pass of `build_intervals`, over `other_timings`: each of
      its keys gets the one-element list of its interval, replacing what the
      first pass wrote; every other key keeps its list. */
  method OtherIntervals<K>(first: map<K, seq<Interval>>, other: map<K, string>,
                           date: int, parse: (string, int) -> int)
    returns (day: map<K, seq<Interval>>)
    requires forall k :: k in other ==> |Split(other[k], EnDash)| >= 2
    ensures forall k :: k in day <==> k in first || k in other
    ensures forall k :: k in other ==> day[k] == [OtherInterval(other[k], date, parse)]
    ensures forall k :: k in first && k !in other ==> day[k] == first[k]
  {
    day := first;
    var rest := other.Keys;
    while rest != {}
      invariant rest <= other.Keys
      invariant forall k :: k in day <==> k in first || (k in other && k !in rest)
      invariant forall k :: k in other && k !in rest ==> day[k] == [OtherInterval(other[k], date, parse)]
      invariant forall k :: k in first && (k !in other || k in rest) ==> day[k] == first[k]
      decreases rest
    {
      var k :| k in rest;
      day := day[k := [OtherInterval(other[k], date, parse)]];
      rest := rest - {k};
    }
  }

  /** `build_intervals`: one pass over the important timings, then one over
      the other timings, which overwrite. Dictionary order does not matter:
      each pass writes every key once. */
  method BuildIntervals<K>(important: map<K, Timing>, other: map<K, string>,
                           date: int, parse: (string, int) -> int)
    returns (day: map<K, seq<Interval>>)
    requires forall k :: k in other ==> |Split(other[k], EnDash)| >= 2
    ensures forall k :: k in day <==> k in important || k in other
    ensures forall k :: k in other ==> day[k] == [OtherInterval(other[k], date, parse)]
    ensures forall k :: k in important && k !in other ==>
      day[k] == CategorySpec(WindowsOf(important[k]), date, parse) && SortedLex(day[k])
  {
    var first := ImportantIntervals(important, date, parse);
    day := OtherIntervals(first, other, date, parse);
  }
}
