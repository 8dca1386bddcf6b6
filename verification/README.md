# SchedulerApp core in Dafny

This project models the daily-checklist app SchedulerApp. The model covers its
day-keyed completion records and the pure logic of the three views that read them:

- **Records** (`records.dfy`): one day's record is a day number plus a map
  from task name to completed. The module defines the completed count, the total
  count and the truncated percentage score.
- **Task storage** (`storage.dfy`): the user name and the record list.
  - The list keeps the invariant "at most one record per calendar day".
  - Saving upserts by day: it drops every record of that day, then appends.
  - The other operations are the day-level lookup, loading (newest first; a
    blob that does not decode gives an empty list) and clearing (which keeps
    the user name).
- **The running app** (`session.dfy`): the two storage objects, the daily
  view, ticking a card, submitting, refreshing and restarting.
- **Today's view** (`daily.dfy`):
  - Cleaning the raw task list: trim, drop blanks, drop later repeats.
  - The same-day skip rule.
  - The card states: keyed by exactly the cleaned list. A persisted value
    wins over the value on screen, which wins over `false`.
  - The progress summary and submitting today's states.
- **This week's view** (`weekly.dfy`):
  - The window of days: from the current week's Sunday, up to today and not
    before the cut-off 2025-06-29, newest first.
  - The average score, where a day without a record counts 0.
  - The completion badge.
- **History view** (`history.dfy`):
  - Records grouped by calendar week.
  - Each week's rounded seven-day average.
  - The three tasks most often left uncompleted.
  - The score colour bands.
- **Shared pieces**: `days.dfy` has day numbers, weekdays and week starts.
  `seqs.dfy` has first-occurrence de-duplication, sums, counting, reversal
  and a stable insertion sort.

## Modelling choices

- **Dates.** A date is an integer day number. Day 0 is 1970-01-01, a Thursday.
  - `Weekday` uses the calendar's numbering, Sunday = 1 … Saturday = 7.
  - The cut-off 2025-06-29 is day 20268, a Sunday.
  - The history groups by the calendar's week, whose first day is the
    calendar's `firstWeekday`. That is a parameter of `WeeklyData`.
  - The weekly view always starts its week on Sunday.
- **Integers.** Scores and counts are unbounded integers. The score is
  `completed * 100 / total`, truncated, and 0 without tasks.
- **History average.** It is the seven-day sum divided by 7, rounded to the
  nearest whole number with halves rounding up. A sum of whole numbers over 7
  is never exactly halfway between two whole numbers and is at least 1/14
  away from it. So `.rounded()` on the floating-point quotient gives the same
  value as this integer model.
- **Enumeration order.** Swift dictionaries have no defined order, and the
  top-3 list's tie-breaking depends on it. `TopUncompleted` therefore takes
  the enumeration order of the candidate tasks as a parameter.
  - The order must list the candidates exactly once; any order meeting that
    is a legal run of the source.
  - Sorting is a stable insertion sort. Every property is stated so that it
    holds whatever the order.
- **Raw task list.** Today's raw list comes from
  `storage.tasks(for:userName:)`, which is not part of this model, so it is a
  parameter. So are the badge's task names, which come from
  `WeeklyTasksConfig.tasks`, also not part of this model.
- **Two storage objects.** The app creates its own `TaskStorageManager`
  (`SchedulerApp.swift:12`) and hands it to the views; submits are saved
  there. The daily view's refresh reads today's record from the separate
  `TaskStorageManager.shared` instance, which loads the persisted records once
  and is never saved to. `DailyTasks.Refresh` therefore takes the store to
  overlay from as a parameter, and `session.dfy` (module `AppSession`) models
  both objects; see "## Findings".

## Model

| member | source | states |
|---|---|---|
| `Records.TotalCount` | Scheduler/data/DailyTaskRecord.swift:21-23 | the total is the number of completed tasks plus the number of uncompleted ones, and 0 exactly for an empty task map |
| `Records.CompletedCount` | Scheduler/data/DailyTaskRecord.swift:17-19 | the count is exactly the number of tasks marked done; with the number marked not done it adds up to the total; it equals the total exactly when every task is done and is 0 exactly when none is |
| `Records.Percent` | Scheduler/data/DailyTaskRecord.swift:25-27 | the percentage is the whole part of completed/total × 100 (p·total ≤ 100·completed < (p+1)·total), lies in 0..100, is 0 without tasks and is 100 exactly when all are completed |
| `Records.Score` | Scheduler/data/DailyTaskRecord.swift:25-27 | a record's score is in 0..100, is 0 for no tasks or nothing done, is 100 exactly when there is a task and all are completed, and otherwise is the whole part of 100 × (tasks done) / (tasks): score × tasks ≤ 100 × done < (score + 1) × tasks |
| `Records.ScoreTruncates` | Scheduler/data/DailyTaskRecord.swift:26 | two of three tasks done scores 66: the percentage truncates rather than rounds |
| `TaskStorage.FindRecord` | Scheduler/data/TaskStorageManager.swift:62-67 | a lookup returns the first stored record that falls on the requested day (no earlier record is on that day), and finds nothing exactly when no record falls on it |
| `TaskStorage.FindRecordInOnePerDay` | Scheduler/data/TaskStorageManager.swift:62-67 | under the one-record-per-day invariant, the lookup returns a record exactly when that record is stored and falls on the day |
| `TaskStorage.WithoutDayMembers` | Scheduler/data/TaskStorageManager.swift:46-48 | `removeAll` for a day keeps exactly the records of the other days |
| `TaskStorage.FindRecordWithoutDay` | Scheduler/data/TaskStorageManager.swift:46-48 | removing one day's records leaves every other day's lookup unchanged |
| `TaskStorage.WithoutDayKeepsOnePerDay` | Scheduler/data/TaskStorageManager.swift:46-48 | the removal keeps the one-record-per-day invariant |
| `TaskStorage.WithoutDayTwice` | Scheduler/data/TaskStorageManager.swift:46-48 | removing a day's records a second time removes nothing more |
| `TaskStorage.WithoutDayAppend` | Scheduler/data/TaskStorageManager.swift:46-48 | the removal distributes over concatenation of record lists |
| `TaskStorage.GetRecord` | Scheduler/data/TaskStorageManager.swift:62-67 | the store's lookup returns the first stored record of the requested day, nothing exactly when no record falls on it, and under the invariant the one record that does |
| `TaskStorage.SaveRecord` | Scheduler/data/TaskStorageManager.swift:41-52 | after saving, the day's lookup yields exactly the saved task map, every other day's lookup is unchanged, the user name is kept and the invariant is preserved |
| `TaskStorage.LastSaveWins` | Scheduler/data/TaskStorageManager.swift:41-52 | a second save for the same day replaces the first completely; nothing of the earlier map is merged in |
| `TaskStorage.SaveRecordIsIdempotent` | Scheduler/data/TaskStorageManager.swift:41-52 | saving the same day and map twice leaves the same store as saving once |
| `TaskStorage.SavesOnDifferentDaysCommute` | Scheduler/data/TaskStorageManager.swift:41-52 | saves for two different days answer every lookup the same in either order |
| `TaskStorage.HasUserName` | Scheduler/data/TaskStorageManager.swift:25-28 | a user name is present exactly when it is not empty |
| `TaskStorage.SetUserName` | Scheduler/data/TaskStorageManager.swift:31-33 | afterwards `getUserName` returns the new name, presence follows its emptiness, and the records are untouched |
| `TaskStorage.ClearAllData` | Scheduler/data/TaskStorageManager.swift:77-82 | after clearing no day has a record, and the user name is left as it was |
| `TaskStorage.LoadRecords` | Scheduler/data/TaskStorageManager.swift:70-74 | loading yields the decoded records reordered newest first; an undecodable blob yields no records |
| `TaskStorage.Open` | Scheduler/data/TaskStorageManager.swift:20-22 | a new storage object holds the given user name and a newest-first reordering of the persisted records (none if the blob does not decode), and keeps the invariant they had |
| `TaskStorage.SavedDayIsAlone` | Scheduler/data/TaskStorageManager.swift:41-52 | after a save, the saved record is the only one on its day, whatever the list held before |
| `TaskStorage.SavedDaySurvivesReopen` | Scheduler/data/TaskStorageManager.swift:41-74 | a day just saved is found with exactly the saved tasks after a restart, even if the list broke the invariant before |
| `TaskStorage.ReopenPreservesLookups` | Scheduler/data/TaskStorageManager.swift:55-74 | reopening from what was written back keeps the invariant and answers every day's lookup as before |
| `TaskStorage.ClearedStoreReopensEmpty` | Scheduler/data/TaskStorageManager.swift:77-82 | a restart after clearing finds no records |
| `TaskStorage.DayScore` | Scheduler/stat/WeeklyTaskView.swift:15-17 | a day's score is its record's score, or 0 when the day has no record; always at most 100 |
| `TaskStorage.DayScores` | Scheduler/stat/HistoryView.swift:24-26 | one score per listed day, in order, missing days as 0 |
| `Days.Weekday` | Scheduler/stat/WeeklyTaskView.swift:68 | the calendar's weekday ordinal lies in 1..7 |
| `Days.WeekdayOfNextDay` | Scheduler/stat/WeeklyTaskView.swift:68 | weekdays cycle: the next day has the next ordinal, Saturday wrapping to Sunday |
| `Days.SameWeekdayWithinAWeek` | Scheduler/stat/WeeklyTaskView.swift:68 | two days under a week apart with the same weekday are the same day |
| `Days.WeekStart` | Scheduler/stat/HistoryView.swift:10-15 | a day's week starts on the calendar's first weekday, at most six days before it |
| `Days.SameWeekIffSameStart` | Scheduler/stat/HistoryView.swift:10-12 | two days share a week exactly when the second lies in the seven days from the first's week start: weeks partition the days |
| `Days.CutoffIsSunday` | Scheduler/stat/WeeklyTaskView.swift:65 | the cut-off day 2025-06-29 is a Sunday |
| `DailyTasks.LeadingWhitespaceSpec` | Scheduler/day/DailyTaskView.swift:143 | the counted prefix is all whitespace and the character after it is not |
| `DailyTasks.TrailingWhitespaceSpec` | Scheduler/day/DailyTaskView.swift:143 | the counted suffix is all whitespace and the character before it is not |
| `DailyTasks.TrimSpec` | Scheduler/day/DailyTaskView.swift:143 | the trim is the slice between a whitespace-only head and tail, neither starting nor ending with whitespace, and it is empty exactly when the string is all whitespace |
| `DailyTasks.TrimIsIdempotent` | Scheduler/day/DailyTaskView.swift:143 | trimming a trimmed string changes nothing |
| `DailyTasks.TrimmedNonBlankSpec` | Scheduler/day/DailyTaskView.swift:142-144 | the kept entries are trimmed and non-blank, and they are exactly the non-blank trims of the raw entries |
| `DailyTasks.KeptIndices` | Scheduler/day/DailyTaskView.swift:142-144 | the positions of the raw entries that are not blank once trimmed, strictly increasing, each such position listed |
| `DailyTasks.TrimmedNonBlankFollowsRaw` | Scheduler/day/DailyTaskView.swift:142-144 | the kept entries keep the raw list's order: the k-th kept entry is the trim of the k-th raw entry that is not blank once trimmed |
| `DailyTasks.CleanItems` | Scheduler/day/DailyTaskView.swift:139-150 | the cleaned list has no duplicates and no blank or untrimmed entry; a string is in it exactly when it is the non-blank trim of some raw entry |
| `DailyTasks.CleanItemsKeepFirstOccurrenceOrder` | Scheduler/day/DailyTaskView.swift:140-147 | entries keep the order of their first occurrences among the trimmed entries |
| `DailyTasks.CleanItemsLoop` | Scheduler/day/DailyTaskView.swift:139-150 | the one-pass loop with a `seen` set computes exactly the cleaned list |
| `DailyTasks.CleanListIsFixed` | Scheduler/day/DailyTaskView.swift:139-150 | a list of distinct, already trimmed, non-blank entries is its own cleaned list |
| `DailyTasks.InitialStates` | Scheduler/day/DailyTaskView.swift:168-172 | the first state map is keyed by exactly the items, each holding its on-screen value or `false` |
| `DailyTasks.ReconcileStates` | Scheduler/day/DailyTaskView.swift:168-181 | the card states are keyed by exactly today's items; a persisted value wins, then the on-screen value, then `false`; persisted keys not listed are ignored |
| `DailyTasks.ReconcileIsDetermined` | Scheduler/day/DailyTaskView.swift:168-181 | any map keyed by the items and following that precedence is the reconciled map |
| `DailyTasks.ReconcileWithCompleteRecord` | Scheduler/day/DailyTaskView.swift:175-181 | a persisted record covering exactly the items is shown as stored, whatever is on screen |
| `DailyTasks.SkipsRefresh` | Scheduler/day/DailyTaskView.swift:152-162 | a skip needs the same day and existing cards; a consistent view that skips already has its cards keyed by the new, non-empty list; a reordering or repetition of the same items on the same day is always skipped |
| `DailyTasks.NewTaskForcesRebuild` | Scheduler/day/DailyTaskView.swift:156-158 | a task that was not shown forces a rebuild, even on the same day |
| `DailyTasks.Refresh` | Scheduler/day/DailyTaskView.swift:133-188 | a skipped refresh returns the view unchanged; otherwise the view shows the cleaned list and its cards are the reconciliation of that list, the on-screen states and the overlaid store's record for today; either way it is dated today and keeps the states keyed by the items |
| `DailyTasks.RefreshRebuildsStates` | Scheduler/day/DailyTaskView.swift:164-181 | a refresh that is not skipped keys the cards by the cleaned items with the persisted / on-screen / `false` precedence |
| `DailyTasks.RefreshIsIdempotent` | Scheduler/day/DailyTaskView.swift:152-162 | a second refresh with the same inputs on the same day changes nothing |
| `DailyTasks.ScoreInfo` | Scheduler/day/DailyTaskView.swift:30-35 | completed is the number of ticked cards and total the number of cards, score 0 without cards, score in 0..100, 100 exactly when all cards are done, and the score truncates completed/total × 100 |
| `DailyTasks.SaveTodayTasks` | Scheduler/day/DailyTaskView.swift:191-195 | submitting stores the cards' states under today and leaves every other day as it was |
| `DailyTasks.SavedScoreMatchesProgress` | Scheduler/day/DailyTaskView.swift:30-35 | the score shown before submitting is the score the stored day then has |
| `DailyTasks.SavedStatesComeBack` | Scheduler/day/DailyTaskView.swift:133-195 | after submitting and restarting from what was written back, a fresh view refreshed with the same raw list shows exactly the submitted states |
| `DailyTasks.OverlayScenario` | Scheduler/day/DailyTaskView.swift:174-181 | a record saved for an older list shows its values for tasks still listed, and a newly listed task starts `false` |
| `AppSession.Launch` | Scheduler/SchedulerApp.swift:12 | at start-up both storage objects hold the same loaded records: none when the persisted data cannot be decoded, otherwise exactly the persisted records (same multiset); every record found comes from the persisted list, and the view is not yet refreshed |
| `AppSession.Relaunch` | Scheduler/data/TaskStorageManager.swift:20-22 | a restart reloads, into both objects, a reordering of the records the app's object wrote back, and keeps the user name |
| `AppSession.SetCard` | Scheduler/day/DailyTaskView.swift:50-53 | ticking a card sets that card alone; the items and both storage objects are untouched |
| `AppSession.Submit` | Scheduler/day/DailyTaskView.swift:191-195 | a submit stores the cards under today in the app's object, leaves its other days alone, and never reaches the shared object |
| `AppSession.RefreshAsWritten` | Scheduler/day/DailyTaskView.swift:174-181 | the refresh as written leaves the view as it is when the skip rule applies, and otherwise shows the cleaned list with cards rebuilt against the shared object's record for today; it changes neither storage object |
| `AppSession.SubmitIgnoredAsWritten` | Scheduler/day/DailyTaskView.swift:174-181 | as written, if the shared object had no record for today, a rebuild shows on-screen values or `false`, whatever was submitted since |
| `AppSession.StaleOverlayScenario` | Scheduler/day/DailyTaskView.swift:133-195 | tick Run, submit, untick, then add Sleep to the list: the stored record says Run is done but the app as written shows it not done, while the intended refresh shows it done |
| `AppSession.RefreshIntended` | Scheduler/day/DailyTaskView.swift:174-181 | the intended refresh follows the same skip rule, and otherwise shows the cleaned list with cards rebuilt against the record of the object that receives the saves; it changes neither storage object |
| `AppSession.SubmittedValuesWin` | Scheduler/day/DailyTaskView.swift:174-181 | with the intended refresh, every submitted card that is still listed shows its submitted value after any later rebuild that day, whatever is on screen |
| `AppSession.RelaunchShowsSubmitted` | Scheduler/day/DailyTaskView.swift:174-181 | as written, the submitted states do come back after a restart, because both objects then reload the written-back record |
| `WeeklyTasks.LastSunday` | Scheduler/stat/WeeklyTaskView.swift:67-69 | the day found is a Sunday at most six days before today |
| `WeeklyTasks.LastSundayIsWeekStart` | Scheduler/stat/WeeklyTaskView.swift:67-69 | it is the week start of a calendar whose weeks begin on Sunday |
| `WeeklyTasks.WindowFrom` | Scheduler/stat/WeeklyTaskView.swift:75-78 | the offsets kept are exactly the days in range, not after today and not before the cut-off, ascending |
| `WeeklyTasks.WeekWindow` | Scheduler/stat/WeeklyTaskView.swift:62-83 | at most seven days, exactly those of the current Sunday-started week up to today and from the cut-off on, strictly newest first, with today first once the cut-off has passed |
| `WeeklyTasks.WeeklyAverageScore` | Scheduler/stat/WeeklyTaskView.swift:14-22 | the average is at most 100, 0 for an empty window, and otherwise the whole part of the listed days' score total divided by their number |
| `WeeklyTasks.MissingDayAddsNothing` | Scheduler/stat/WeeklyTaskView.swift:15-17 | a day without a record adds 0 to the total while still counting in the divisor |
| `WeeklyTasks.NoRecordsAverageZero` | Scheduler/stat/WeeklyTaskView.swift:14-22 | a window without any record averages 0 |
| `WeeklyTasks.FullMarksAverageFull` | Scheduler/stat/WeeklyTaskView.swift:14-22 | a window in which every day scored 100 averages 100 |
| `WeeklyTasks.IsCompleted` | Scheduler/stat/WeeklyTaskView.swift:149-151 | a badge shows completed only when the day has a record, and (under the invariant) exactly when a stored record of that day marks the task `true` |
| `WeeklyTasks.BadgeAfterSave` | Scheduler/stat/WeeklyTaskView.swift:149-151 | after a save, the day's badge shows completed exactly when the saved map marks the task `true` |
| `History.WeekDates` | Scheduler/stat/HistoryView.swift:19-21 | the seven consecutive days from the week start, ascending |
| `History.RoundedDiv` | Scheduler/stat/HistoryView.swift:28 | the quotient is the nearest whole number to n/d (within one half) |
| `History.WeekAverage` | Scheduler/stat/HistoryView.swift:19-28 | the week's average is the seven-day score total over 7, rounded, missing days as 0, and lies in 0..100 |
| `History.ThreeFullDaysAverage` | Scheduler/stat/HistoryView.swift:24-28 | three perfect days in an otherwise empty week average 43: missing days pull the average down |
| `History.WeekTaskNamesSpec` | Scheduler/stat/HistoryView.swift:45-48 | the candidate tasks are exactly the names recorded on some day of the week |
| `History.UncompletedCount` | Scheduler/stat/HistoryView.swift:52-57 | a task's count is at most the number of days; 0 exactly when done every day; full exactly when never done, a day without a record counting as not done |
| `History.UncompletedCountIsSetSize` | Scheduler/stat/HistoryView.swift:53-57 | the count is the number of listed days on which the task was not completed |
| `History.CountedPermutation` | Scheduler/stat/HistoryView.swift:61 | reordering the counted pairs keeps every count true and the tasks distinct |
| `History.TopN` | Scheduler/stat/HistoryView.swift:61-63 | the n pairs kept are sorted by count, taken from the input, and no pair left out counts more than any kept |
| `History.TopUncompleted` | Scheduler/stat/HistoryView.swift:43-64 | at most three distinct candidate tasks with their true counts, largest count first, and no candidate left out has more uncompleted days than any task listed |
| `History.RecordsInWeek` | Scheduler/stat/HistoryView.swift:10-12 | a week's group holds exactly the stored records whose day falls in that week, each as many times as the store holds it |
| `History.Summarize` | Scheduler/stat/HistoryView.swift:14-38 | a week's summary carries its start, the rounded seven-day average, and its week's records with their multiplicities, earliest first |
| `History.DistinctWeekStarts` | Scheduler/stat/HistoryView.swift:10-15 | the week starts listed are exactly those of some stored record, each once, latest first |
| `History.WeeklyData` | Scheduler/stat/HistoryView.swift:8-40 | one summary per week that has a record, latest week first, each starting on the calendar's first weekday, none empty, each summarising its week |
| `History.EachRecordInOneWeek` | Scheduler/stat/HistoryView.swift:10-16 | every stored record appears in exactly one week of the history list |
| `History.ScoreColor` | Scheduler/stat/HistoryView.swift:124-130 | 80..100 is green, 60..79 orange, everything else red |
| `History.DayColor` | Scheduler/stat/HistoryView.swift:124-130 | a day with all of its tasks done shows green and a day with none done shows red |
| `History.RecordedScoreColor` | Scheduler/stat/HistoryView.swift:124-130 | a stored score shows a non-green colour exactly when it is below 80 |
| `Seqs.Unique` | Scheduler/stat/HistoryView.swift:67-70 | the result has no duplicates and holds exactly the elements of the input |
| `Seqs.UniqueKeepsFirstOccurrenceOrder` | Scheduler/stat/HistoryView.swift:67-70 | kept elements appear in the order of their first occurrences |
| `Seqs.UniqueOfDistinct` | Scheduler/stat/HistoryView.swift:67-70 | a sequence without duplicates passes unchanged |
| `Seqs.UniqueIsIdempotent` | Scheduler/stat/HistoryView.swift:67-70 | de-duplicating twice is the same as once |
| `Seqs.SortDesc` | Scheduler/data/TaskStorageManager.swift:72 | the sort returns a reordering of its input with keys non-increasing |

## Left out

- SwiftUI layout, navigation, alerts, the chart and the progress bar are not
  modelled, because they are presentation only.
- `@AppStorage`, UserDefaults and JSON are not modelled. Persistence is the
  record list itself, and a blob that does not decode is `None`. Encoding
  cannot fail in the model, so the silent keep-old-data branch of
  `saveAllRecords` is not modelled.
- Records have no `UUID`. Two records are equal when their day and task map
  are, so `TaskStorage.LastSaveWins` and `TaskStorage.SaveRecordIsIdempotent`
  compare stores by content.
- `Calendar`, time zones, `startOfDay` and date formatting are not modelled.
  Every date is already a whole day number.
  - The `nil` branches of `date(byAdding:)` and `date(from:)` are not modelled;
    the Gregorian calendar never takes them.
  - The weekday names and `formattedDate` are not modelled.
- `Records.Percent`, `Records.Score`: the source computes `Int(Double(completed) / Double(total) * 100)`.
  The model uses the exact truncated integer percentage, because floating
  point is not modelled. For 29 of 50 tasks the floating-point path gives 57
  where the exact value is 58. Totals below 50 never show a difference.
- `DailyTasks.ScoreInfo`: uses the same integer percentage as `Records.Score`,
  for the same reason.
- `WeeklyTasks.WeeklyAverageScore`: the source divides as `Double` and shows
  one decimal (`%.1f`). The model returns the whole part of the quotient. Its
  contract pins the exact quotient between `avg` and `avg + 1`, but not the
  tenths digit, because floating point and formatting are not modelled.
- `History.WeeklyData`: a summary has no top-3 field. The top-3 list of a week
  is `History.TopUncompleted` on that week's `History.WeekDates`. It needs the
  dictionary's enumeration order as an input, and the source does not fix
  that order.
- `DispatchQueue.main.async` is not modelled: a refresh updates the items,
  the states and the refresh day in one step. The source sets the items at
  once but the states and the refresh day later.
- Foreground notifications, `onChange` of the remote tasks, `print` and
  `@Published` propagation are not modelled; they only decide when a refresh
  runs.
- Today's raw task list (`storage.tasks(for:userName:)`), the remote fetch and
  `WeeklyTasksConfig.tasks` are not part of this model. They are inputs.
- The random test-data generator and the unused `thisWeek1` copy of the week
  window are not modelled.
- Swift `String` is not modelled at the level of grapheme clusters. A string
  is a sequence of code points. "Whitespace and newlines" is the Unicode set
  Foundation uses, written as code-point ranges.
- Swift's `String` equality and hashing use canonical equivalence, so "é" and
  "e" followed by U+0301 are one task name in the `Set` and `Dictionary` of
  `DailyTaskView.swift:140-145`, `156-158` and `171-178`. The model compares
  code-point sequences and keeps such names apart.
- Tie order is not modelled. Swift's `sorted` does not promise stability and
  dictionary order is unspecified, so the order of records with the same date
  and of tasks with equal counts is not fixed by the source. The model sorts
  stably, and its contracts do not depend on that choice.
- The comment at `HistoryView.swift:18` says weeks start on Monday. The code
  uses the calendar's own first weekday, so the model does too, as a
  parameter.

## Findings

| source | as written | input that shows it | evidently intended | confidence | as-written member | corrected member |
|---|---|---|---|---|---|---|
| Scheduler/day/DailyTaskView.swift:175 | the refresh overlays today's record from `TaskStorageManager.shared`, but submits are saved in the app's own `TaskStorageManager()` (`SchedulerApp.swift:12`, used at `DailyTaskView.swift:193`); the shared instance loads once and is never saved to, so it never sees a submit made since launch | first launch with nothing stored; list ["Run"]; tick Run and submit; untick Run; the list becomes ["Run", "Sleep"] on the same day. The stored record says Run is done, the rebuilt card shows it not done | the comment at line 174 says the stored record wins, so the overlay reads the object that receives the saves and Run shows done | medium, not executed | `AppSession.StaleOverlayScenario` | `AppSession.SubmittedValuesWin` |
