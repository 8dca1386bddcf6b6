/** The weekly view: the days of the current Sunday-started week shown so
    far, their average score and the completion badge of each task. */
module WeeklyTasks {
  import opened Seqs
  import opened Days
  import opened Records
  import opened TaskStorage

  /** The Sunday that starts the week containing `today`. */
  function LastSunday(today: Day): (sunday: Day)
    ensures Weekday(sunday) == Sunday
    ensures sunday <= today < sunday + 7
  {
    var sunday := today - Weekday(today) + 1;
    var x := today + 4;
    ModSeven(sunday + 4, x / 7, 0);
    sunday
  }

  /** It is the week start of a calendar whose weeks begin on Sunday. */
  lemma LastSundayIsWeekStart(today: Day)
    ensures LastSunday(today) == WeekStart(today, Sunday)
  {
    var a := LastSunday(today);
    var b := WeekStart(today, Sunday);
    if a <= b {
      SameWeekdayWithinAWeek(a, b);
    } else {
      SameWeekdayWithinAWeek(b, a);
    }
  }

  /** The days from .. end - 1 that are not after today and not before the
      cut-off, in ascending order. */
  function WindowFrom(from: Day, end: Day, today: Day): (w: seq<Day>)
    requires from <= end
    ensures |w| <= end - from
    ensures forall d :: d in w <==> from <= d < end && d <= today && d >= Cutoff
    ensures forall i, j | 0 <= i < j < |w| :: w[i] < w[j]
    decreases end - from
  {
    if from == end then []
    else
      var rest := WindowFrom(from + 1, end, today);
      assert forall j | 0 <= j < |rest| :: from < rest[j] by {
        forall j | 0 <= j < |rest| ensures from < rest[j] {
          assert rest[j] in rest;
        }
      }
      (if from <= today && from >= Cutoff then [from] else []) + rest
  }

  /** The days the weekly view lists: those of the current Sunday-started
      week up to today and from the cut-off on, newest first. */
  function WeekWindow(today: Day): (w: seq<Day>)
    ensures |w| <= 7
    ensures forall d :: d in w <==> LastSunday(today) <= d <= today && d >= Cutoff
    ensures StrictlyDescending(w)
    ensures today >= Cutoff ==> |w| > 0 && w[0] == today
  {
    var sunday := LastSunday(today);
    var ascending := WindowFrom(sunday, sunday + 7, today);
    var w := Reverse(ascending);
    ReverseOfAscending(ascending);
    assert today >= Cutoff ==> |w| > 0 && w[0] == today by {
      if today >= Cutoff {
        MaximumComesFirst(w, today);
      }
    }
    w
  }

  /** In a strictly descending list, a member no smaller than every member
      comes first. */
  lemma MaximumComesFirst(w: seq<Day>, top: Day)
    requires StrictlyDescending(w)
    requires top in w && forall d | d in w :: d <= top
    ensures |w| > 0 && w[0] == top
  {
    var i :| 0 <= i < |w| && w[i] == top;
    assert w[0] in w;
  }

  /** The average score of the listed days, a day without a record counting
      as 0; 0 for an empty list. */
  function WeeklyAverageScore(s: Store, window: seq<Day>): (avg: nat)
    ensures avg <= 100
    ensures |window| == 0 ==> avg == 0
    ensures FloorMean(avg, Sum(DayScores(s, window)), |window|)
  {
    ScoresBounded(s, window);
    AverageOf(Sum(DayScores(s, window)), |window|)
  }

  /** The whole part of `total / n` for a total of at most 100 per item;
      0 for no items. */
  function AverageOf(total: nat, n: nat): (avg: nat)
    requires total <= 100 * n
    ensures avg <= 100
    ensures n == 0 ==> avg == 0
    ensures FloorMean(avg, total, n)
  {
    if n == 0 then 0
    else
      FloorDivision(total, n, 100);
      total / n
  }

  /** The listed days' scores add up to at most 100 per day. */
  lemma ScoresBounded(s: Store, window: seq<Day>)
    ensures Sum(DayScores(s, window)) <= 100 * |window|
  {
    SumBounded(DayScores(s, window), 100);
  }

  /** A listed day without a record adds 0 to the total the average divides,
      yet still counts in the divisor. */
  lemma MissingDayAddsNothing(s: Store, window: seq<Day>, day: Day)
    requires GetRecord(s, day).None?
    ensures Sum(DayScores(s, window + [day])) == Sum(DayScores(s, window))
  {
    var longer := DayScores(s, window + [day]);
    assert longer[..|longer| - 1] == DayScores(s, window);
  }

  /** A week in which no listed day has a record averages 0. */
  lemma NoRecordsAverageZero(s: Store, window: seq<Day>)
    requires forall i | 0 <= i < |window| :: GetRecord(s, window[i]).None?
    ensures WeeklyAverageScore(s, window) == 0
  {
    SumOfZeros(DayScores(s, window));
  }

  /** A week in which every listed day scored 100 averages 100. */
  lemma FullMarksAverageFull(s: Store, window: seq<Day>)
    requires |window| > 0
    requires forall i | 0 <= i < |window| :: DayScore(s, window[i]) == 100
    ensures WeeklyAverageScore(s, window) == 100
  {
    SumOfConstant(DayScores(s, window), 100);
    ExactDivision(100, |window|);
  }

  /** A task's badge on a day shows completed only when that day has a record
      that marks the task `true`; under the store's invariant that is any
      record of the day. */
  function IsCompleted(s: Store, day: Day, task: string): (done: bool)
    ensures done ==> GetRecord(s, day).Some?
    ensures OnePerDay(s.records) ==>
      (done <==> exists i | 0 <= i < |s.records| ::
                   s.records[i].date == day && task in s.records[i].tasks && s.records[i].tasks[task])
  {
    match GetRecord(s, day)
    case None => false
    case Some(r) =>
      assert OnePerDay(s.records) ==> forall i | 0 <= i < |s.records| && s.records[i].date == day :: s.records[i] == r by {
        if OnePerDay(s.records) {
          forall i | 0 <= i < |s.records| && s.records[i].date == day ensures s.records[i] == r {
            FindRecordInOnePerDay(s.records, day, s.records[i]);
          }
        }
      }
      task in r.tasks && r.tasks[task]
  }

  /** After a save, the day's badges show exactly the saved values; a task
      missing from the saved map shows not completed. */
  lemma BadgeAfterSave(s: Store, day: Day, tasks: map<string, bool>, task: string)
    ensures IsCompleted(SaveRecord(s, day, tasks), day, task) <==> task in tasks && tasks[task]
  {
  }
}
