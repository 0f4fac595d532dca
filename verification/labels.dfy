/** The per-interval arithmetic of the listing loop in `main` (app.py, and
    the same lines in app_adv.py): the duration shown as hours and minutes,
    whether the interval spans a day, and the Next Day / Previous Day mark
    relative to the listed date. Formatting with `strftime` is not
    modelled. */
module Labels {
  import opened Intervals
  import opened Windows
  import FreeTime

  /** The mark the listing puts on an interval: "+" and "(Next Day)",
      "-" and "(Previous Day)", or none. */
  datatype DayMark = NextDay | PreviousDay | SameDay

  /** What the listing computes for one interval. */
  datatype Label = Label(hours: int, minutes: int, spans: bool, mark: DayMark)

  /** `delta.days * 86400 + delta.seconds` for a difference of `delta`
      seconds: a timedelta keeps its days floored and its seconds in
      [0, 86400), so the two parts add up to the whole difference, negative
      ones included. */
  function TotalSeconds(delta: int): (r: int)
    ensures r == delta
  {
    (delta / Day) * Day + delta % Day
  }

  /** Next Day when the interval starts on or after the day after `date`,
      otherwise Previous Day when it starts before `date`. */
  function Mark(start: int, date: int): DayMark
  {
    if start >= date + Day then NextDay
    else if start < date then PreviousDay
    else SameDay
  }

  /** The label of one interval listed under `date`: `seconds // 3600`
      hours, `(seconds // 60) % 60` minutes (Python's floor division and
      modulo, which for a positive divisor are Dafny's `/` and `%`), the
      span flag `seconds >= 86400`, and the day mark. */
  function LabelOf(iv: Interval, date: int): Label
  {
    var seconds := TotalSeconds(iv.stop - iv.start);
    Label(seconds / 3600, (seconds / 60) % 60, seconds >= Day, Mark(iv.start, date))
  }

  /** The hours and minutes shown are the duration rounded down to whole
      minutes: `hours` whole hours, then `minutes` in [0, 60), leaving less
      than a minute over. */
  lemma HoursMinutes(seconds: int)
    ensures 0 <= (seconds / 60) % 60 < 60
    ensures var shown := (seconds / 3600) * 3600 + ((seconds / 60) % 60) * 60;
      shown <= seconds < shown + 60
  {
    var q := seconds / 60;
    var h := q / 60;
    var m := q % 60;
    assert 60 * q <= seconds < 60 * q + 60;
    assert q == 60 * h + m && 0 <= m < 60;
    assert 60 * q == 3600 * h + 60 * m;
    assert 3600 * h <= seconds < 3600 * h + 3600;
  }

  /** What the label says about an interval: its duration to the minute,
      the span flag exactly for a duration of a day or more, and the mark,
      where Next Day, Previous Day and none are exclusive and chosen by the
      start alone. */
  lemma LabelFacts(iv: Interval, date: int)
    ensures var l := LabelOf(iv, date);
      0 <= l.minutes < 60
      && l.hours * 3600 + l.minutes * 60 <= Duration(iv) < l.hours * 3600 + l.minutes * 60 + 60
      && (l.spans <==> Duration(iv) >= Day)
      && (l.mark == NextDay <==> iv.start >= date + Day)
      && (l.mark == PreviousDay <==> iv.start < date)
      && (l.mark == SameDay <==> date <= iv.start < date + Day)
  {
    HoursMinutes(iv.stop - iv.start);
  }

  /** A free window of the day is listed without a mark and without a
      span, and its duration is under 24 hours. */
  lemma FreeTimeLabels(busy: seq<Interval>, given: int)
    ensures forall w :: w in FreeTime.FreeTime(busy, given) ==>
      var l := LabelOf(w, given);
      l.mark == SameDay && !l.spans && 0 <= l.hours < 24
  {
    FreeTime.FreeTimeInDay(busy, given);
    forall w | w in FreeTime.FreeTime(busy, given)
      ensures LabelOf(w, given).mark == SameDay && !LabelOf(w, given).spans
      ensures 0 <= LabelOf(w, given).hours < 24
    {
      LabelFacts(w, given);
      var d := w.stop - w.start;
      assert 0 < d < Day;
    }
  }

  /** An important-timing window whose clock tokens read as instants of
      the date is listed without a mark and never as spanning a day. */
  lemma WindowLabels(text: string, date: int, parse: (string, int) -> int)
    requires SameDayClock(parse, date)
    ensures var r := ParseWindow(text, date, parse);
      r.Some? ==> LabelOf(r.value, date).mark == SameDay && !LabelOf(r.value, date).spans
  {
    ParseWindowFacts(text, date, parse);
    var r := ParseWindow(text, date, parse);
    if r.Some? {
      LabelFacts(r.value, date);
    }
  }
}
