/** The range gate of the appointments calendar (src/features/calendar/NotesCalendar.tsx).
    An instant is a number of milliseconds on the local clock; a calendar
    day is the number of whole days since local midnight of the epoch. */
module Calendar {
  import opened Wrappers

  const MsPerDay: int := 86_400_000

  /** The calendar day an instant falls on. */
  function DayOf(t: int): int {
    t / MsPerDay
  }

  /** `startOfDay(d)`: local midnight of the day `t` falls on, that is the
      latest whole-day instant at or before `t`. */
  function StartOfDay(t: int): (r: int)
    ensures r % MsPerDay == 0
    ensures r <= t < r + MsPerDay
    ensures r == DayOf(t) * MsPerDay
  {
    (t / MsPerDay) * MsPerDay
  }

  /** `isInRange(d)` for the bounds `fromDate` and `toDate`: compares the
      midnights of the three instants, so it admits every instant from the
      midnight of the first day to the end of the last. */
  predicate IsInRange(fromDate: int, toDate: int, d: int): (b: bool)
    ensures b <==> StartOfDay(fromDate) <= d < StartOfDay(toDate) + MsPerDay
  {
    var x := StartOfDay(d);
    x >= StartOfDay(fromDate) && x <= StartOfDay(toDate)
  }

  /** The gate decides at day granularity, inclusive at both ends. */
  lemma InRangeByDay(fromDate: int, toDate: int, d: int)
    ensures IsInRange(fromDate, toDate, d) <==> DayOf(fromDate) <= DayOf(d) <= DayOf(toDate)
  {
  }

  /** Two instants of the same calendar day are both admitted or both refused. */
  lemma SameDaySameVerdict(fromDate: int, toDate: int, a: int, b: int)
    requires DayOf(a) == DayOf(b)
    ensures IsInRange(fromDate, toDate, a) == IsInRange(fromDate, toDate, b)
  {
  }

  /** A bound that carries a time of day still admits every instant of its
      own day, from midnight to the last millisecond. */
  lemma BoundsAdmitWholeDay(fromDate: int, toDate: int, t: int)
    requires DayOf(fromDate) <= DayOf(toDate)
    requires DayOf(t) == DayOf(fromDate) || DayOf(t) == DayOf(toDate)
    ensures IsInRange(fromDate, toDate, t)
  {
    InRangeByDay(fromDate, toDate, t);
  }

  /** A day matcher of the calendar widget: `{ before: b }` matches the days
      strictly before the day of `b`, `{ after: b }` those strictly after it. */
  datatype DayMatcher = Before(bound: int) | After(bound: int)

  predicate Matches(m: DayMatcher, d: int) {
    match m
    case Before(b) => DayOf(d) < DayOf(b)
    case After(b) => DayOf(d) > DayOf(b)
  }

  /** The `hidden` list, which is also the `disabled` list: days before the
      truncated `from` and days after the truncated `to`. */
  function RangeMatchers(fromDate: int, toDate: int): (ms: seq<DayMatcher>)
    ensures |ms| == 2
  {
    [Before(StartOfDay(fromDate)), After(StartOfDay(toDate))]
  }

  /** Some matcher of `ms` matches the day of `d`. */
  predicate Excluded(ms: seq<DayMatcher>, d: int) {
    exists i :: 0 <= i < |ms| && Matches(ms[i], d)
  }

  /** The hidden (and disabled) days are exactly the complement of the gate. */
  lemma HiddenIsOutOfRange(fromDate: int, toDate: int, d: int)
    ensures Excluded(RangeMatchers(fromDate, toDate), d) <==> !IsInRange(fromDate, toDate, d)
  {
    var ms := RangeMatchers(fromDate, toDate);
    assert DayOf(StartOfDay(fromDate)) == DayOf(fromDate);
    assert DayOf(StartOfDay(toDate)) == DayOf(toDate);
    InRangeByDay(fromDate, toDate, d);
    assert Matches(ms[0], d) <==> DayOf(d) < DayOf(fromDate);
    assert Matches(ms[1], d) <==> DayOf(d) > DayOf(toDate);
  }

  /** The widget's `onSelect` handler: what reaches the parent's `onSelect`
      for a picked (or cleared, `None`) date. A selection is forwarded
      unchanged exactly when a date is defined and inside the range. */
  function Forwarded(picked: Option<int>, fromDate: int, toDate: int): (r: Option<int>)
    ensures r.Some? <==> picked.Some? && DayOf(fromDate) <= DayOf(picked.value) <= DayOf(toDate)
    ensures r.Some? ==> r == picked
  {
    if picked.Some? && IsInRange(fromDate, toDate, picked.value) then picked else None
  }

  /** Nothing ever forwarded is a hidden or disabled day. */
  lemma ForwardedIsNeverHidden(picked: Option<int>, fromDate: int, toDate: int)
    requires Forwarded(picked, fromDate, toDate).Some?
    ensures !Excluded(RangeMatchers(fromDate, toDate), picked.value)
  {
    HiddenIsOutOfRange(fromDate, toDate, picked.value);
  }
}
