/** The history view: stored records grouped by calendar week, each week's
    rounded average over all seven days, the tasks most often left
    uncompleted that week, and the colour of a score. */
module History {
  import opened Seqs
  import opened Days
  import opened Records
  import opened TaskStorage
  import opened WeeklyTasks

  /** The seven days of the week that starts on `start`, in order. */
  function WeekDates(start: Day): (dates: seq<Day>)
    ensures |dates| == 7
    ensures forall d :: d in dates <==> start <= d < start + 7
    ensures forall i, j | 0 <= i < j < 7 :: dates[i] < dates[j]
  {
    var dates := seq(7, i requires 0 <= i < 7 => start + i);
    assert forall d | start <= d < start + 7 :: d in dates by {
      forall d | start <= d < start + 7 ensures d in dates {
        assert dates[d - start] == d;
      }
    }
    dates
  }

  /** n / d rounded to the nearest whole number, halves rounding up (for the
      non-negative totals here that is also "away from zero"). */
  function RoundedDiv(n: nat, d: nat): (q: nat)
    requires d > 0
    ensures 2 * (q * d) <= 2 * n + d
    ensures 2 * n < 2 * (q * d) + d
  {
    var q := (2 * n + d) / (2 * d);
    var r := (2 * n + d) % (2 * d);
    assert 2 * n + d == q * (2 * d) + r && 0 <= r < 2 * d;
    assert q * (2 * d) == 2 * (q * d);
    q
  }

  /** Rounding an average of terms bounded by `bound` stays within the bound. */
  lemma RoundedDivBounded(n: nat, d: nat, bound: nat)
    requires d > 0 && n <= bound * d
    ensures RoundedDiv(n, d) <= bound
  {
    var q := RoundedDiv(n, d);
    assert 2 * (q * d) < 2 * ((bound + 1) * d);
    MulCancel(q, bound + 1, d);
  }

  /** The week's average: the sum of the scores of all seven days (a day
      without a record counts 0) divided by seven, rounded. */
  function WeekAverage(s: Store, start: Day): (avg: nat)
    ensures avg <= 100
    ensures 2 * (avg * 7) <= 2 * Sum(DayScores(s, WeekDates(start))) + 7
    ensures 2 * Sum(DayScores(s, WeekDates(start))) < 2 * (avg * 7) + 7
  {
    var scores := DayScores(s, WeekDates(start));
    SumBounded(scores, 100);
    RoundedDivBounded(Sum(scores), 7, 100);
    RoundedDiv(Sum(scores), 7)
  }

  /** Three fully completed days in an otherwise empty week average 43:
      the missing days pull the average down, and 42.86 rounds up. */
  lemma ThreeFullDaysAverage(s: Store, start: Day)
    requires DayScores(s, WeekDates(start)) == [100, 100, 100, 0, 0, 0, 0]
    ensures WeekAverage(s, start) == 43
  {
    WeekOfThreeFullDays(DayScores(s, WeekDates(start)));
  }

  /** The seven scores 100, 100, 100, 0, 0, 0, 0 add up to 300. */
  lemma WeekOfThreeFullDays(scores: seq<nat>)
    requires scores == [100, 100, 100, 0, 0, 0, 0]
    ensures Sum(scores) == 300
    ensures RoundedDiv(Sum(scores), 7) == 43
  {
    assert Sum(scores[..0]) == 0;
    assert scores[..1][..0] == scores[..0];
    assert Sum(scores[..1]) == 100;
    assert scores[..2][..1] == scores[..1];
    assert Sum(scores[..2]) == 200;
    assert scores[..3][..2] == scores[..2];
    assert Sum(scores[..3]) == 300;
    assert scores[..4][..3] == scores[..3];
    assert Sum(scores[..4]) == 300;
    assert scores[..5][..4] == scores[..4];
    assert Sum(scores[..5]) == 300;
    assert scores[..6][..5] == scores[..5];
    assert Sum(scores[..6]) == 300;
    assert scores[..7][..6] == scores[..6];
    assert Sum(scores[..7]) == 300;
    assert scores[..7] == scores;
    assert Sum(scores) == 300;
  }

  /** The task names recorded on one day; none when the day has no record. */
  function DayTaskNames(s: Store, day: Day): set<string> {
    match GetRecord(s, day)
    case None => {}
    case Some(r) => r.tasks.Keys
  }

  /** The task names recorded on each listed day, in order. */
  function DayNameSets(s: Store, dates: seq<Day>): (sets: seq<set<string>>)
    ensures |sets| == |dates|
    ensures forall i | 0 <= i < |dates| :: sets[i] == DayTaskNames(s, dates[i])
  {
    seq(|dates|, i requires 0 <= i < |dates| => DayTaskNames(s, dates[i]))
  }

  /** The candidate tasks of a week: the names recorded on its days
      (WeekTaskNamesSpec states which). */
  function WeekTaskNames(s: Store, dates: seq<Day>): set<string> {
    Union(DayNameSets(s, dates))
  }

  /** A name is a candidate exactly when some listed day recorded it. */
  lemma WeekTaskNamesSpec(s: Store, dates: seq<Day>)
    ensures forall k :: k in WeekTaskNames(s, dates) <==> exists i | 0 <= i < |dates| :: k in DayTaskNames(s, dates[i])
  {
    var sets := DayNameSets(s, dates);
    UnionSpec(sets);
    forall k | k in WeekTaskNames(s, dates) ensures exists i | 0 <= i < |dates| :: k in DayTaskNames(s, dates[i]) {
      var i :| 0 <= i < |sets| && k in sets[i];
    }
  }

  /** Whether `task` was completed on each listed day, in order. */
  function CompletionsOn(s: Store, dates: seq<Day>, task: string): (done: seq<bool>)
    ensures |done| == |dates|
    ensures forall i | 0 <= i < |dates| :: done[i] == IsCompleted(s, dates[i], task)
  {
    seq(|dates|, i requires 0 <= i < |dates| => IsCompleted(s, dates[i], task))
  }

  /** The number of listed days on which `task` was not completed; a day
      without a record counts as not completed. */
  function UncompletedCount(s: Store, dates: seq<Day>, task: string): (n: nat)
    ensures n <= |dates|
    ensures n == 0 <==> forall i | 0 <= i < |dates| :: IsCompleted(s, dates[i], task)
    ensures n == |dates| <==> forall i | 0 <= i < |dates| :: !IsCompleted(s, dates[i], task)
  {
    CountFalse(CompletionsOn(s, dates, task))
  }

  /** The positions of the days on which `task` was not completed. */
  function UncompletedDays(s: Store, dates: seq<Day>, task: string): set<nat> {
    set i: nat | i < |dates| && !IsCompleted(s, dates[i], task)
  }

  /** The count agrees with the size of the set of uncompleted days. */
  lemma UncompletedCountIsSetSize(s: Store, dates: seq<Day>, task: string)
    ensures UncompletedCount(s, dates, task) == |UncompletedDays(s, dates, task)|
  {
    var done := CompletionsOn(s, dates, task);
    CountFalseIsSetSize(done);
    assert UncompletedDays(s, dates, task) == FalsePositions(done);
  }

  /** A task's uncompleted-day count in the week. */
  datatype TaskCount = TaskCount(task: string, count: nat)

  function CountOf(t: TaskCount): int {
    t.count
  }

  /** The tasks of `order` paired with their counts, in the order given. */
  function CountsInOrder(s: Store, dates: seq<Day>, order: seq<string>): (counts: seq<TaskCount>)
    ensures |counts| == |order|
    ensures forall i | 0 <= i < |order| :: counts[i] == TaskCount(order[i], UncompletedCount(s, dates, order[i]))
  {
    seq(|order|, i requires 0 <= i < |order| => CountFor(s, dates, order[i]))
  }

  /** One task paired with its uncompleted-day count. */
  function CountFor(s: Store, dates: seq<Day>, task: string): TaskCount {
    TaskCount(task, UncompletedCount(s, dates, task))
  }

  /** Whether the pairs carry their true counts for these days. */
  predicate Counted(s: Store, dates: seq<Day>, ts: seq<TaskCount>) {
    forall i | 0 <= i < |ts| :: ts[i].count == UncompletedCount(s, dates, ts[i].task)
  }

  /** Any reordering of counted pairs is counted, and distinct pairs of a
      counted sequence name distinct tasks. */
  lemma CountedPermutation(s: Store, dates: seq<Day>, a: seq<TaskCount>, b: seq<TaskCount>)
    requires Counted(s, dates, a) && NoDuplicates(a)
    requires multiset(b) == multiset(a)
    ensures Counted(s, dates, b)
    ensures forall i, j | 0 <= i < j < |b| :: b[i].task != b[j].task
  {
    PermutationKeepsDistinct(a, b);
    forall i | 0 <= i < |b| ensures b[i].count == UncompletedCount(s, dates, b[i].task) {
      assert b[i] in multiset(a);
    }
    forall i, j | 0 <= i < j < |b| ensures b[i].task != b[j].task {
      assert b[i] != b[j];
    }
  }

  /** An element of a reordering comes from some position of the original. */
  lemma FromSomePosition(a: seq<TaskCount>, b: seq<TaskCount>, i: nat)
    requires multiset(b) == multiset(a) && i < |b|
    ensures b[i] in a
  {
    assert b[i] in multiset(a);
  }

  /** A pair left out of the first n of a sorted reordering counts no more
      than any of those n. */
  lemma LeftOutCountsNoMore(a: seq<TaskCount>, sorted: seq<TaskCount>, n: nat, p: nat)
    requires SortedDesc(sorted, CountOf) && multiset(sorted) == multiset(a)
    requires n <= |sorted| && p < |a|
    requires a[p] !in sorted[..n]
    ensures forall i | 0 <= i < n :: a[p].count <= sorted[i].count
  {
    assert a[p] in multiset(sorted);
    var q :| 0 <= q < |sorted| && sorted[q] == a[p];
    forall i | 0 <= i < n ensures a[p].count <= sorted[i].count {
      assert CountOf(sorted[i]) >= CountOf(sorted[q]);
    }
  }

  /** The n pairs with the largest counts, largest first: none of the pairs
      left out counts more than any pair kept. */
  function TopN(counts: seq<TaskCount>, n: nat): (top: seq<TaskCount>)
    requires n <= |counts|
    ensures |top| == n
    ensures SortedDesc(top, CountOf)
    ensures forall i | 0 <= i < n :: top[i] in counts
    ensures forall p | 0 <= p < |counts| && counts[p] !in top :: forall i | 0 <= i < n :: counts[p].count <= top[i].count
    ensures NoDuplicates(counts) ==> NoDuplicates(top)
  {
    TopPrefixFacts(counts, SortDesc(counts, CountOf), n);
    SortDesc(counts, CountOf)[..n]
  }

  /** The facts TopN promises, for the first n entries of any reordering of
      the pairs sorted by count. */
  lemma TopPrefixFacts(counts: seq<TaskCount>, sorted: seq<TaskCount>, n: nat)
    requires n <= |counts| && |sorted| == |counts|
    requires multiset(sorted) == multiset(counts) && SortedDesc(sorted, CountOf)
    ensures SortedDesc(sorted[..n], CountOf)
    ensures forall i | 0 <= i < n :: sorted[..n][i] in counts
    ensures forall p | 0 <= p < |counts| && counts[p] !in sorted[..n] ::
              forall i | 0 <= i < n :: counts[p].count <= sorted[..n][i].count
    ensures NoDuplicates(counts) ==> NoDuplicates(sorted[..n])
  {
    var top := sorted[..n];
    assert forall i | 0 <= i < n :: top[i] == sorted[i];
    forall i | 0 <= i < n ensures top[i] in counts {
      FromSomePosition(counts, sorted, i);
    }
    forall p | 0 <= p < |counts| && counts[p] !in top
      ensures forall i | 0 <= i < n :: counts[p].count <= top[i].count
    {
      LeftOutCountsNoMore(counts, sorted, n, p);
    }
    if NoDuplicates(counts) {
      PermutationKeepsDistinct(counts, sorted);
    }
  }

  /** How many tasks the history view lists per week. */
  const TopCount: nat := 3

  function TopLength(order: seq<string>): nat {
    if |order| < TopCount then |order| else TopCount
  }

  /** The kept pairs carry true counts of distinct tasks taken from `order`. */
  lemma TopIsCounted(s: Store, dates: seq<Day>, order: seq<string>, top: seq<TaskCount>)
    requires NoDuplicates(order)
    requires top == TopN(CountsInOrder(s, dates, order), TopLength(order))
    ensures forall i | 0 <= i < |top| :: top[i].task in order
    ensures Counted(s, dates, top)
    ensures forall i, j | 0 <= i < j < |top| :: top[i].task != top[j].task
  {
    var counts := CountsInOrder(s, dates, order);
    forall i | 0 <= i < |top| ensures top[i].task in order && top[i].count == UncompletedCount(s, dates, top[i].task) {
      var p :| 0 <= p < |counts| && counts[p] == top[i];
      assert order[p] in order;
    }
    assert NoDuplicates(counts);
    forall i, j | 0 <= i < j < |top| ensures top[i].task != top[j].task {
      assert top[i] != top[j];
    }
  }

  /** A task of `order` that was not kept has no more uncompleted days than
      any kept task. */
  lemma TopKeepsLargest(s: Store, dates: seq<Day>, order: seq<string>, top: seq<TaskCount>, k: string)
    requires top == TopN(CountsInOrder(s, dates, order), TopLength(order))
    requires k in order && forall i | 0 <= i < |top| :: top[i].task != k
    ensures forall i | 0 <= i < |top| :: UncompletedCount(s, dates, k) <= top[i].count
  {
    var counts := CountsInOrder(s, dates, order);
    var p :| 0 <= p < |order| && order[p] == k;
    assert counts[p] !in top;
  }

  /** The (at most) three tasks with the most uncompleted days, most first.
      `order` is the order in which the candidate tasks are enumerated; it
      decides only among tasks with equal counts. */
  function TopUncompleted(s: Store, dates: seq<Day>, order: seq<string>): (top: seq<TaskCount>)
    requires NoDuplicates(order)
    requires forall k :: k in order <==> k in WeekTaskNames(s, dates)
    ensures |top| == if |order| < 3 then |order| else 3
    ensures forall i | 0 <= i < |top| :: top[i].task in WeekTaskNames(s, dates)
    ensures Counted(s, dates, top)
    ensures forall i, j | 0 <= i < j < |top| :: top[i].task != top[j].task
    ensures SortedDesc(top, CountOf)
    ensures forall k | k in WeekTaskNames(s, dates) && (forall i | 0 <= i < |top| :: top[i].task != k) ::
              forall i | 0 <= i < |top| :: UncompletedCount(s, dates, k) <= top[i].count
  {
    var top := TopN(CountsInOrder(s, dates, order), TopLength(order));
    TopIsCounted(s, dates, order, top);
    TopKeepsAllLargest(s, dates, order, top);
    top
  }

  /** No task of `order` left out has more uncompleted days than a kept one. */
  lemma TopKeepsAllLargest(s: Store, dates: seq<Day>, order: seq<string>, top: seq<TaskCount>)
    requires top == TopN(CountsInOrder(s, dates, order), TopLength(order))
    ensures forall k | k in order && (forall i | 0 <= i < |top| :: top[i].task != k) ::
              forall i | 0 <= i < |top| :: UncompletedCount(s, dates, k) <= top[i].count
  {
    forall k | k in order && (forall i | 0 <= i < |top| :: top[i].task != k)
      ensures forall i | 0 <= i < |top| :: UncompletedCount(s, dates, k) <= top[i].count
    {
      TopKeepsLargest(s, dates, order, top, k);
    }
  }

  /** One week of the history list. */
  datatype WeekSummary = WeekSummary(weekStart: Day, averageScore: nat, dailyScores: seq<Record>)

  /** The records whose day falls in the week starting at `start`, in list
      order: each such record as often as the list holds it, and no other. */
  function RecordsInWeek(rs: seq<Record>, start: Day, firstWeekday: int): (week: seq<Record>)
    requires 1 <= firstWeekday <= 7
    ensures forall r :: r in week <==> r in rs && WeekStart(r.date, firstWeekday) == start
    ensures forall r :: multiset(week)[r] == if WeekStart(r.date, firstWeekday) == start then multiset(rs)[r] else 0
  {
    if |rs| == 0 then []
    else
      var rest := rs[..|rs| - 1];
      var last := rs[|rs| - 1];
      assert rs == rest + [last];
      RecordsInWeek(rest, start, firstWeekday)
        + (if WeekStart(last.date, firstWeekday) == start then [last] else [])
  }

  /** The week start of every record, in list order. */
  function WeekStarts(rs: seq<Record>, firstWeekday: int): (starts: seq<Day>)
    requires 1 <= firstWeekday <= 7
    ensures |starts| == |rs|
    ensures forall i | 0 <= i < |rs| :: starts[i] == WeekStart(rs[i].date, firstWeekday)
  {
    seq(|rs|, i requires 0 <= i < |rs| => WeekStart(rs[i].date, firstWeekday))
  }

  /** Minus the date: sorting largest key first by it puts the earliest day first. */
  function NegDate(r: Record): int {
    -r.date
  }

  /** What a summary promises about the week starting at its `weekStart`:
      the rounded seven-day average, and exactly the stored records of that
      week, each as often as stored, earliest first. */
  ghost predicate SummarizesWeek(s: Store, firstWeekday: int, w: WeekSummary)
    requires 1 <= firstWeekday <= 7
  {
    && w.averageScore == WeekAverage(s, w.weekStart)
    && (forall r :: r in w.dailyScores <==> r in s.records && WeekStart(r.date, firstWeekday) == w.weekStart)
    && multiset(w.dailyScores) == multiset(RecordsInWeek(s.records, w.weekStart, firstWeekday))
    && (forall i, j | 0 <= i < j < |w.dailyScores| :: w.dailyScores[i].date <= w.dailyScores[j].date)
  }

  /** Sorting by minus the date keeps the records and puts the earliest first. */
  lemma EarliestFirst(rs: seq<Record>)
    ensures forall r :: r in SortDesc(rs, NegDate) <==> r in rs
    ensures forall i, j | 0 <= i < j < |rs| :: SortDesc(rs, NegDate)[i].date <= SortDesc(rs, NegDate)[j].date
  {
    var sorted := SortDesc(rs, NegDate);
    forall r ensures r in sorted <==> r in rs {
      assert r in sorted <==> r in multiset(sorted);
    }
    forall i, j | 0 <= i < j < |rs| ensures sorted[i].date <= sorted[j].date {
      assert NegDate(sorted[i]) >= NegDate(sorted[j]);
    }
  }

  /** One summary for the week starting at `start`. */
  function Summarize(s: Store, start: Day, firstWeekday: int): (w: WeekSummary)
    requires 1 <= firstWeekday <= 7
    ensures w.weekStart == start
    ensures SummarizesWeek(s, firstWeekday, w)
  {
    var week := RecordsInWeek(s.records, start, firstWeekday);
    var daily := SortDesc(week, NegDate);
    EarliestFirst(week);
    WeekSummary(start, WeekAverage(s, start), daily)
  }

  /** The distinct week starts of the records, latest first. */
  function DistinctWeekStarts(s: Store, firstWeekday: int): (starts: seq<Day>)
    requires 1 <= firstWeekday <= 7
    ensures StrictlyDescending(starts)
    ensures forall x :: x in starts <==> exists j | 0 <= j < |s.records| :: x == WeekStart(s.records[j].date, firstWeekday)
  {
    var all := WeekStarts(s.records, firstWeekday);
    SortedUnique(all);
    var starts := SortDesc(Unique(all), Identity);
    forall x ensures x in all <==> exists j | 0 <= j < |s.records| :: x == WeekStart(s.records[j].date, firstWeekday) {
      if x in all {
        var j :| 0 <= j < |all| && all[j] == x;
      }
      if exists j | 0 <= j < |s.records| :: x == WeekStart(s.records[j].date, firstWeekday) {
        var j :| 0 <= j < |s.records| && x == WeekStart(s.records[j].date, firstWeekday);
        assert all[j] == x;
      }
    }
    starts
  }

  /** Each listed start is a week start of the calendar, and its week holds
      at least the record it came from. */
  lemma ListedWeekIsNonEmpty(s: Store, firstWeekday: int, start: Day)
    requires 1 <= firstWeekday <= 7
    requires start in DistinctWeekStarts(s, firstWeekday)
    ensures Weekday(start) == firstWeekday
    ensures |Summarize(s, start, firstWeekday).dailyScores| > 0
  {
    var j :| 0 <= j < |s.records| && start == WeekStart(s.records[j].date, firstWeekday);
    assert s.records[j] in Summarize(s, start, firstWeekday).dailyScores;
  }

  /** One summary per listed week start, in the same order. */
  function SummariesOf(s: Store, starts: seq<Day>, firstWeekday: int): (weeks: seq<WeekSummary>)
    requires 1 <= firstWeekday <= 7
    ensures |weeks| == |starts|
    ensures forall i | 0 <= i < |starts| :: weeks[i] == Summarize(s, starts[i], firstWeekday)
  {
    seq(|starts|, i requires 0 <= i < |starts| => Summarize(s, starts[i], firstWeekday))
  }

  /** The summaries of the distinct week starts are well formed and non-empty. */
  lemma SummariesWellFormed(s: Store, firstWeekday: int)
    requires 1 <= firstWeekday <= 7
    ensures var weeks := SummariesOf(s, DistinctWeekStarts(s, firstWeekday), firstWeekday);
            forall i | 0 <= i < |weeks| ::
              && Weekday(weeks[i].weekStart) == firstWeekday
              && |weeks[i].dailyScores| > 0
              && SummarizesWeek(s, firstWeekday, weeks[i])
  {
    var starts := DistinctWeekStarts(s, firstWeekday);
    var weeks := SummariesOf(s, starts, firstWeekday);
    forall i | 0 <= i < |weeks|
      ensures Weekday(weeks[i].weekStart) == firstWeekday && |weeks[i].dailyScores| > 0
      ensures SummarizesWeek(s, firstWeekday, weeks[i])
    {
      ListedWeekIsNonEmpty(s, firstWeekday, starts[i]);
    }
  }

  /** Every record's week has a summary. */
  lemma SummariesCoverRecords(s: Store, firstWeekday: int)
    requires 1 <= firstWeekday <= 7
    ensures var weeks := SummariesOf(s, DistinctWeekStarts(s, firstWeekday), firstWeekday);
            forall j | 0 <= j < |s.records| :: exists i | 0 <= i < |weeks| ::
              weeks[i].weekStart == WeekStart(s.records[j].date, firstWeekday)
  {
    var starts := DistinctWeekStarts(s, firstWeekday);
    var weeks := SummariesOf(s, starts, firstWeekday);
    forall j | 0 <= j < |s.records|
      ensures exists i | 0 <= i < |weeks| :: weeks[i].weekStart == WeekStart(s.records[j].date, firstWeekday)
    {
      var x := WeekStart(s.records[j].date, firstWeekday);
      assert x in starts;
      var i :| 0 <= i < |starts| && starts[i] == x;
      assert weeks[i].weekStart == x;
    }
  }

  /** The history list: one summary per calendar week that has a record,
      latest week first. Weeks start on the calendar's `firstWeekday`. */
  function WeeklyData(s: Store, firstWeekday: int): (weeks: seq<WeekSummary>)
    requires 1 <= firstWeekday <= 7
    ensures forall i, j | 0 <= i < j < |weeks| :: weeks[i].weekStart > weeks[j].weekStart
    ensures forall i | 0 <= i < |weeks| :: Weekday(weeks[i].weekStart) == firstWeekday
    ensures forall i | 0 <= i < |weeks| :: |weeks[i].dailyScores| > 0
    ensures forall i | 0 <= i < |weeks| :: SummarizesWeek(s, firstWeekday, weeks[i])
    ensures forall j | 0 <= j < |s.records| :: exists i | 0 <= i < |weeks| ::
              weeks[i].weekStart == WeekStart(s.records[j].date, firstWeekday)
  {
    SummariesWellFormed(s, firstWeekday);
    SummariesCoverRecords(s, firstWeekday);
    SummariesOf(s, DistinctWeekStarts(s, firstWeekday), firstWeekday)
  }

  /** Every record of the store appears in exactly one week of the list. */
  lemma EachRecordInOneWeek(s: Store, firstWeekday: int, j: nat)
    requires 1 <= firstWeekday <= 7
    requires j < |s.records|
    ensures exists i | 0 <= i < |WeeklyData(s, firstWeekday)| :: s.records[j] in WeeklyData(s, firstWeekday)[i].dailyScores
    ensures forall a, b | 0 <= a < b < |WeeklyData(s, firstWeekday)| ::
              !(s.records[j] in WeeklyData(s, firstWeekday)[a].dailyScores && s.records[j] in WeeklyData(s, firstWeekday)[b].dailyScores)
  {
    InExactlyOneWeek(s, firstWeekday, WeeklyData(s, firstWeekday), s.records[j]);
  }

  /** A stored record whose week has a summary, in a list of summaries with
      distinct starts, is in exactly one of them. */
  lemma InExactlyOneWeek(s: Store, firstWeekday: int, weeks: seq<WeekSummary>, r: Record)
    requires 1 <= firstWeekday <= 7
    requires forall i | 0 <= i < |weeks| :: SummarizesWeek(s, firstWeekday, weeks[i])
    requires forall a, b | 0 <= a < b < |weeks| :: weeks[a].weekStart > weeks[b].weekStart
    requires r in s.records
    requires exists i | 0 <= i < |weeks| :: weeks[i].weekStart == WeekStart(r.date, firstWeekday)
    ensures exists i | 0 <= i < |weeks| :: r in weeks[i].dailyScores
    ensures forall a, b | 0 <= a < b < |weeks| :: !(r in weeks[a].dailyScores && r in weeks[b].dailyScores)
  {
    var i :| 0 <= i < |weeks| && weeks[i].weekStart == WeekStart(r.date, firstWeekday);
    assert SummarizesWeek(s, firstWeekday, weeks[i]);
    forall a, b | 0 <= a < b < |weeks| && r in weeks[a].dailyScores
      ensures r !in weeks[b].dailyScores
    {
      NotInTwoWeeks(s, firstWeekday, weeks[a], weeks[b], r);
    }
  }

  /** Summaries of two different weeks share no record. */
  lemma NotInTwoWeeks(s: Store, firstWeekday: int, w1: WeekSummary, w2: WeekSummary, r: Record)
    requires 1 <= firstWeekday <= 7
    requires SummarizesWeek(s, firstWeekday, w1) && SummarizesWeek(s, firstWeekday, w2)
    requires w1.weekStart != w2.weekStart
    ensures !(r in w1.dailyScores && r in w2.dailyScores)
  {
  }

  /** The colour a score is shown in. */
  datatype Color = Green | Orange | Red

  function ScoreColor(score: int): (c: Color)
    ensures c == Green <==> 80 <= score <= 100
    ensures c == Orange <==> 60 <= score < 80
    ensures c == Red <==> score < 60 || score > 100
  {
    if 80 <= score <= 100 then Green
    else if 60 <= score < 80 then Orange
    else Red
  }

  /** A day on which every one of its tasks was completed shows green; a day
      on which none was shows red. */
  lemma DayColor(r: Record)
    ensures |r.tasks| > 0 && AllCompleted(r.tasks) ==> ScoreColor(Score(r.tasks)) == Green
    ensures (forall k | k in r.tasks :: !r.tasks[k]) ==> ScoreColor(Score(r.tasks)) == Red
  {
  }

  /** Any recorded score shows in one of the two low colours exactly when it
      is below 80: the "over 100" branch never fires for a stored score. */
  lemma RecordedScoreColor(tasks: map<string, bool>)
    ensures ScoreColor(Score(tasks)) != Green <==> Score(tasks) < 80
  {
  }
}
