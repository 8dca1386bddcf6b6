/** Calendar days as integer day numbers. Time of day, time zones and
    `startOfDay` normalisation disappear: every date the views handle is
    already a whole day. */
module Days {

  /** Day 0 is 1970-01-01, a Thursday; negative numbers are earlier days. */
  type Day = int

  /** The weekday ordinal of Sunday in the calendar's numbering. */
  const Sunday: int := 1

  /** Day number of 2025-06-29, the earliest day the weekly view lists. */
  const Cutoff: Day := 20268

  /** The weekday ordinal the calendar reports for d: Sunday = 1 ... Saturday = 7. */
  function Weekday(d: Day): (w: int)
    ensures 1 <= w <= 7
  {
    (d + 4) % 7 + 1
  }

  /** The remainder modulo 7 is determined by any quotient/remainder split. */
  lemma ModSeven(x: int, q: int, r: int)
    requires x == 7 * q + r && 0 <= r < 7
    ensures x % 7 == r
  {
    var q' := x / 7;
    var r' := x % 7;
    assert 7 * (q - q') == r' - r;
  }

  /** Weekdays cycle: the day after d has the next ordinal, wrapping Saturday to Sunday. */
  lemma WeekdayOfNextDay(d: Day)
    ensures Weekday(d + 1) == Weekday(d) % 7 + 1
  {
    var x := d + 4;
    ModSeven(x, x / 7, x % 7);
    if x % 7 < 6 {
      ModSeven(x + 1, x / 7, x % 7 + 1);
    } else {
      ModSeven(x + 1, x / 7 + 1, 0);
    }
  }

  /** The cut-off day of the weekly view is itself a Sunday. */
  lemma CutoffIsSunday()
    ensures Weekday(Cutoff) == Sunday
  {
  }

  /** Two days less than a week apart that fall on the same weekday are the same day. */
  lemma SameWeekdayWithinAWeek(a: Day, b: Day)
    requires a <= b < a + 7
    requires Weekday(a) == Weekday(b)
    ensures a == b
  {
  }

  /** The first day of the calendar week containing d, for a calendar whose
      weeks begin on the weekday ordinal firstWeekday. */
  function WeekStart(d: Day, firstWeekday: int): (s: Day)
    requires 1 <= firstWeekday <= 7
    ensures s <= d < s + 7
    ensures Weekday(s) == firstWeekday
  {
    d - (Weekday(d) - firstWeekday + 7) % 7
  }

  /** e lies in the week that starts at WeekStart(d) exactly when both days
      have the same week start: weeks partition the days. */
  lemma SameWeekIffSameStart(d: Day, e: Day, firstWeekday: int)
    requires 1 <= firstWeekday <= 7
    ensures WeekStart(e, firstWeekday) == WeekStart(d, firstWeekday)
            <==> WeekStart(d, firstWeekday) <= e < WeekStart(d, firstWeekday) + 7
  {
    var s := WeekStart(d, firstWeekday);
    var t := WeekStart(e, firstWeekday);
    if s <= e < s + 7 {
      if s <= t {
        SameWeekdayWithinAWeek(s, t);
      } else {
        SameWeekdayWithinAWeek(t, s);
      }
    }
  }
}
