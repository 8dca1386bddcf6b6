/** The task storage: the user name and the list of completion records, at
    most one per calendar day. Persistence is an in-memory copy of the list;
    a blob that fails to decode is `None`. */
module TaskStorage {
  import opened Seqs
  import opened Days
  import opened Records

  datatype Store = Store(userName: string, records: seq<Record>)

  /** The store's invariant: no two records fall on the same day. */
  predicate OnePerDay(rs: seq<Record>) {
    forall i, j | 0 <= i < j < |rs| :: rs[i].date != rs[j].date
  }

  lemma OnePerDayIsDistinct(rs: seq<Record>)
    requires OnePerDay(rs)
    ensures NoDuplicates(rs)
  {
  }

  /** `x` is in the list, and no record before it falls on `day`. */
  predicate FirstOnDay(rs: seq<Record>, day: Day, x: Record) {
    exists i | 0 <= i < |rs| :: rs[i] == x && forall j | 0 <= j < i :: rs[j].date != day
  }

  /** Day-level lookup: the first record in the list that falls on `day`. */
  function FindRecord(rs: seq<Record>, day: Day): (r: Option<Record>)
    ensures r.Some? ==> r.value in rs && r.value.date == day
    ensures r.Some? ==> FirstOnDay(rs, day, r.value)
    ensures r.None? <==> forall i | 0 <= i < |rs| :: rs[i].date != day
  {
    if |rs| == 0 then None
    else if rs[0].date == day then Some(rs[0])
    else
      assert forall i | 1 <= i < |rs| :: rs[i] == rs[1..][i - 1];
      var r := FindRecord(rs[1..], day);
      assert r.Some? ==> FirstOnDay(rs, day, r.value) by {
        if r.Some? {
          FirstOnDayPastHead(rs, day, r.value);
        }
      }
      r
  }

  /** A first record of the day after a head on another day is a first
      record of the whole list. */
  lemma FirstOnDayPastHead(rs: seq<Record>, day: Day, x: Record)
    requires |rs| > 0 && rs[0].date != day
    requires FirstOnDay(rs[1..], day, x)
    ensures FirstOnDay(rs, day, x)
  {
    var i :| 0 <= i < |rs[1..]| && rs[1..][i] == x && forall j | 0 <= j < i :: rs[1..][j].date != day;
    assert rs[i + 1] == x;
    forall j | 0 <= j < i + 1 ensures rs[j].date != day {
      if j > 0 {
        assert rs[j] == rs[1..][j - 1];
      }
    }
  }

  /** Under the invariant, the lookup finds a record exactly when that record
      is in the store and falls on the requested day. */
  lemma FindRecordInOnePerDay(rs: seq<Record>, day: Day, x: Record)
    requires OnePerDay(rs)
    ensures FindRecord(rs, day) == Some(x) <==> x in rs && x.date == day
  {
    var f := FindRecord(rs, day);
    if x in rs && x.date == day {
      var i :| 0 <= i < |rs| && rs[i] == x;
      var y := f.value;
      var j :| 0 <= j < |rs| && rs[j] == y;
      assert i == j;
    }
  }

  /** Looking a day up in a list extended at the back. */
  lemma FindRecordAppend(rs: seq<Record>, x: Record, day: Day)
    ensures FindRecord(rs + [x], day) ==
      if FindRecord(rs, day).Some? then FindRecord(rs, day)
      else if x.date == day then Some(x)
      else None
  {
    if |rs| > 0 {
      assert (rs + [x])[1..] == rs[1..] + [x];
      FindRecordAppend(rs[1..], x, day);
    }
  }

  /** `removeAll` of every record on `day`, keeping the order of the rest. */
  function WithoutDay(rs: seq<Record>, day: Day): (r: seq<Record>)
    ensures |r| <= |rs|
  {
    if |rs| == 0 then []
    else (if rs[0].date == day then [] else [rs[0]]) + WithoutDay(rs[1..], day)
  }

  /** What the removal keeps: exactly the records on other days. */
  lemma {:induction false} WithoutDayMembers(rs: seq<Record>, day: Day)
    ensures forall x :: x in WithoutDay(rs, day) <==> x in rs && x.date != day
  {
    if |rs| > 0 {
      WithoutDayMembers(rs[1..], day);
      assert rs == [rs[0]] + rs[1..];
    }
  }

  /** Removing one day's records answers every other day's lookup as before. */
  lemma {:induction false} FindRecordWithoutDay(rs: seq<Record>, day: Day, other: Day)
    requires other != day
    ensures FindRecord(WithoutDay(rs, day), other) == FindRecord(rs, other)
  {
    if |rs| > 0 {
      var tail := WithoutDay(rs[1..], day);
      FindRecordWithoutDay(rs[1..], day, other);
      if rs[0].date == day {
        assert WithoutDay(rs, day) == tail;
      } else {
        assert WithoutDay(rs, day) == [rs[0]] + tail;
        assert ([rs[0]] + tail)[1..] == tail;
      }
    }
  }

  /** Removing a day's records twice removes nothing more. */
  lemma {:induction false} WithoutDayTwice(rs: seq<Record>, day: Day)
    ensures WithoutDay(WithoutDay(rs, day), day) == WithoutDay(rs, day)
  {
    if |rs| > 0 {
      var tail := WithoutDay(rs[1..], day);
      WithoutDayTwice(rs[1..], day);
      if rs[0].date == day {
        assert WithoutDay(rs, day) == tail;
      } else {
        assert WithoutDay(rs, day) == [rs[0]] + tail;
        assert ([rs[0]] + tail)[1..] == tail;
        assert WithoutDay([rs[0]] + tail, day) == [rs[0]] + WithoutDay(tail, day);
      }
    }
  }

  /** Removal distributes over concatenation. */
  lemma {:induction false} WithoutDayAppend(rs: seq<Record>, extra: seq<Record>, day: Day)
    ensures WithoutDay(rs + extra, day) == WithoutDay(rs, day) + WithoutDay(extra, day)
  {
    if |rs| > 0 {
      var tail := rs[1..];
      var head := if rs[0].date == day then [] else [rs[0]];
      assert (rs + extra)[0] == rs[0];
      assert (rs + extra)[1..] == tail + extra;
      WithoutDayAppend(tail, extra, day);
      assert WithoutDay(rs + extra, day) == head + WithoutDay(tail + extra, day);
      assert WithoutDay(rs, day) == head + WithoutDay(tail, day);
    } else {
      assert rs + extra == extra;
    }
  }

  /** Removal keeps the invariant. */
  lemma {:induction false} WithoutDayKeepsOnePerDay(rs: seq<Record>, day: Day)
    requires OnePerDay(rs)
    ensures OnePerDay(WithoutDay(rs, day))
  {
    if |rs| > 0 {
      assert OnePerDay(rs[1..]);
      WithoutDayKeepsOnePerDay(rs[1..], day);
      var tail := WithoutDay(rs[1..], day);
      WithoutDayMembers(rs[1..], day);
      forall x | x in tail ensures x.date != rs[0].date {
        assert x in rs[1..];
      }
    }
  }

  function GetUserName(s: Store): string {
    s.userName
  }

  /** A user name has been entered exactly when it is not the empty string. */
  function HasUserName(s: Store): (b: bool)
    ensures b <==> |GetUserName(s)| > 0
  {
    s.userName != ""
  }

  /** Replaces the user name and nothing else. */
  function SetUserName(s: Store, name: string): (r: Store)
    ensures GetUserName(r) == name
    ensures HasUserName(r) <==> name != ""
    ensures r.records == s.records
  {
    s.(userName := name)
  }

  /** Day-level lookup in the store: the first stored record of that day,
      none exactly when no record falls on it, and under the invariant the
      one record that does. */
  function GetRecord(s: Store, day: Day): (r: Option<Record>)
    ensures r.Some? ==> r.value in s.records && r.value.date == day
    ensures r.Some? ==> FirstOnDay(s.records, day, r.value)
    ensures r.None? <==> forall i | 0 <= i < |s.records| :: s.records[i].date != day
    ensures OnePerDay(s.records) ==> forall x | x in s.records && x.date == day :: r == Some(x)
  {
    assert OnePerDay(s.records) ==> forall x | x in s.records && x.date == day :: FindRecord(s.records, day) == Some(x) by {
      if OnePerDay(s.records) {
        forall x | x in s.records && x.date == day ensures FindRecord(s.records, day) == Some(x) {
          FindRecordInOnePerDay(s.records, day, x);
        }
      }
    }
    FindRecord(s.records, day)
  }

  /** Upsert keyed by calendar day: drop every record on `day`, then append
      the new one. The lookup for `day` then yields exactly the saved tasks,
      and every other day answers as before. */
  function SaveRecord(s: Store, day: Day, tasks: map<string, bool>): (r: Store)
    ensures r.userName == s.userName
    ensures GetRecord(r, day) == Some(Record(day, tasks))
    ensures forall d | d != day :: GetRecord(r, d) == GetRecord(s, d)
    ensures OnePerDay(s.records) ==> OnePerDay(r.records)
  {
    var r := Store(s.userName, WithoutDay(s.records, day) + [Record(day, tasks)]);
    SavedDayIsFound(s.records, day, tasks);
    assert forall d | d != day :: GetRecord(r, d) == GetRecord(s, d) by {
      forall d | d != day ensures GetRecord(r, d) == GetRecord(s, d) {
        OtherDayIsUnchanged(s.records, day, tasks, d);
      }
    }
    assert OnePerDay(s.records) ==> OnePerDay(r.records) by {
      if OnePerDay(s.records) {
        SaveKeepsOnePerDay(s.records, day, tasks);
      }
    }
    r
  }

  /** The removal and the append keep the invariant. */
  lemma SaveKeepsOnePerDay(rs: seq<Record>, day: Day, tasks: map<string, bool>)
    requires OnePerDay(rs)
    ensures OnePerDay(WithoutDay(rs, day) + [Record(day, tasks)])
  {
    var kept := WithoutDay(rs, day);
    WithoutDayKeepsOnePerDay(rs, day);
    WithoutDayMembers(rs, day);
    forall i | 0 <= i < |kept| ensures kept[i].date != day {
      assert kept[i] in kept;
    }
  }

  /** After the removal and the append, the day's lookup finds the new record. */
  lemma SavedDayIsFound(rs: seq<Record>, day: Day, tasks: map<string, bool>)
    ensures FindRecord(WithoutDay(rs, day) + [Record(day, tasks)], day) == Some(Record(day, tasks))
  {
    var kept := WithoutDay(rs, day);
    WithoutDayMembers(rs, day);
    assert FindRecord(kept, day).None?;
    FindRecordAppend(kept, Record(day, tasks), day);
  }

  /** After the removal and the append, another day's lookup is as before. */
  lemma OtherDayIsUnchanged(rs: seq<Record>, day: Day, tasks: map<string, bool>, d: Day)
    requires d != day
    ensures FindRecord(WithoutDay(rs, day) + [Record(day, tasks)], d) == FindRecord(rs, d)
  {
    FindRecordAppend(WithoutDay(rs, day), Record(day, tasks), d);
    FindRecordWithoutDay(rs, day, d);
  }

  /** A second save for the same day replaces the first completely: no merge
      of the old task map survives. */
  lemma LastSaveWins(s: Store, day: Day, first: map<string, bool>, second: map<string, bool>)
    ensures SaveRecord(SaveRecord(s, day, first), day, second) == SaveRecord(s, day, second)
  {
    RemovalUndoesSave(s.records, day, first);
  }

  /** Removing a day's records after saving it leaves the list as the
      first removal did. */
  lemma RemovalUndoesSave(rs: seq<Record>, day: Day, tasks: map<string, bool>)
    ensures WithoutDay(WithoutDay(rs, day) + [Record(day, tasks)], day) == WithoutDay(rs, day)
  {
    var kept := WithoutDay(rs, day);
    WithoutDayAppend(kept, [Record(day, tasks)], day);
    WithoutDayTwice(rs, day);
    assert WithoutDay([Record(day, tasks)], day) == [];
  }

  /** Saving the same tasks twice is the same as saving them once. */
  lemma SaveRecordIsIdempotent(s: Store, day: Day, tasks: map<string, bool>)
    ensures SaveRecord(SaveRecord(s, day, tasks), day, tasks) == SaveRecord(s, day, tasks)
  {
    LastSaveWins(s, day, tasks, tasks);
  }

  /** Saves for two different days can be made in either order with the same
      answer for every lookup. */
  lemma SavesOnDifferentDaysCommute(s: Store, d1: Day, t1: map<string, bool>, d2: Day, t2: map<string, bool>)
    requires d1 != d2
    ensures forall d :: GetRecord(SaveRecord(SaveRecord(s, d1, t1), d2, t2), d) ==
                        GetRecord(SaveRecord(SaveRecord(s, d2, t2), d1, t1), d)
  {
  }

  /** Empties the records; the user name stays as it was. */
  function ClearAllData(s: Store): (r: Store)
    ensures GetUserName(r) == GetUserName(s)
    ensures forall d :: GetRecord(r, d).None?
  {
    Store(s.userName, [])
  }

  function DateOf(r: Record): int {
    r.date
  }

  /** The records as loaded at start-up: newest first; a blob that does not
      decode yields no records rather than an error. */
  function LoadRecords(stored: Option<seq<Record>>): (rs: seq<Record>)
    ensures stored.None? ==> rs == []
    ensures stored.Some? ==> multiset(rs) == multiset(stored.value)
    ensures SortedDesc(rs, DateOf)
  {
    match stored
    case None => []
    case Some(decoded) => SortDesc(decoded, DateOf)
  }

  /** The store as constructed: the persisted user name and the loaded
      records, newest first, a reordering of what was persisted. */
  function Open(userName: string, stored: Option<seq<Record>>): (s: Store)
    ensures GetUserName(s) == userName
    ensures stored.None? ==> s.records == []
    ensures stored.Some? ==> multiset(s.records) == multiset(stored.value)
    ensures SortedDesc(s.records, DateOf)
    ensures stored.Some? && OnePerDay(stored.value) ==> OnePerDay(s.records)
  {
    var loaded := LoadRecords(stored);
    assert stored.Some? && OnePerDay(stored.value) ==> OnePerDay(loaded) by {
      if stored.Some? && OnePerDay(stored.value) {
        PermutationKeepsOnePerDay(stored.value, loaded);
      }
    }
    Store(userName, loaded)
  }

  /** What each mutation writes back: the full record list (encoding the
      in-memory list cannot fail in this model). */
  function Persisted(s: Store): Option<seq<Record>> {
    Some(s.records)
  }

  /** Reordering the records keeps the invariant. */
  lemma PermutationKeepsOnePerDay(a: seq<Record>, b: seq<Record>)
    requires OnePerDay(a)
    requires multiset(b) == multiset(a)
    ensures OnePerDay(b)
  {
    OnePerDayIsDistinct(a);
    PermutationKeepsDistinct(a, b);
    forall i, j | 0 <= i < j < |b| ensures b[i].date != b[j].date {
      assert b[i] in multiset(a) && b[j] in multiset(a);
      var p :| 0 <= p < |a| && a[p] == b[i];
      var q :| 0 <= q < |a| && a[q] == b[j];
      assert p != q;
    }
  }

  /** Reopening from what was persisted answers every lookup as before, and
      keeps the invariant. */
  lemma ReopenPreservesLookups(s: Store, day: Day)
    requires OnePerDay(s.records)
    ensures OnePerDay(Open(s.userName, Persisted(s)).records)
    ensures GetRecord(Open(s.userName, Persisted(s)), day) == GetRecord(s, day)
  {
    var loaded := LoadRecords(Persisted(s));
    PermutationKeepsOnePerDay(s.records, loaded);
    var before := FindRecord(s.records, day);
    var after := FindRecord(loaded, day);
    if before.Some? {
      assert before.value in multiset(loaded);
      FindRecordInOnePerDay(loaded, day, before.value);
    } else {
      forall i | 0 <= i < |loaded| ensures loaded[i].date != day {
        assert loaded[i] in multiset(s.records);
      }
    }
  }

  /** The records saved for one day: after a save, the day's own record is
      the only one on that day, whatever the list held before. */
  lemma SavedDayIsAlone(s: Store, day: Day, tasks: map<string, bool>)
    ensures forall x | x in SaveRecord(s, day, tasks).records && x.date == day :: x == Record(day, tasks)
  {
    WithoutDayMembers(s.records, day);
  }

  /** A day just saved is found again after a restart, even if the list did
      not keep the invariant before the save. */
  lemma SavedDaySurvivesReopen(s: Store, day: Day, tasks: map<string, bool>)
    ensures GetRecord(Open(s.userName, Persisted(SaveRecord(s, day, tasks))), day) == Some(Record(day, tasks))
  {
    var saved := SaveRecord(s, day, tasks).records;
    var loaded := Open(s.userName, Persisted(SaveRecord(s, day, tasks))).records;
    SavedDayIsAlone(s, day, tasks);
    assert Record(day, tasks) in multiset(loaded) by {
      assert saved[|saved| - 1] == Record(day, tasks);
    }
    var found := FindRecord(loaded, day);
    assert found.value in multiset(saved);
  }

  /** After clearing, a restart finds no records either. */
  lemma ClearedStoreReopensEmpty(s: Store)
    ensures Open(s.userName, Persisted(ClearAllData(s))).records == []
  {
  }

  /** A day's score as the views show it: the record's score, or 0 when the
      day has no record. */
  function DayScore(s: Store, day: Day): (score: nat)
    ensures score <= 100
    ensures GetRecord(s, day).None? ==> score == 0
    ensures GetRecord(s, day).Some? ==> score == Score(GetRecord(s, day).value.tasks)
  {
    match GetRecord(s, day)
    case None => 0
    case Some(r) => Score(r.tasks)
  }

  /** The score of each listed day, missing days as 0. */
  function DayScores(s: Store, days: seq<Day>): (scores: seq<nat>)
    ensures |scores| == |days|
    ensures forall i | 0 <= i < |days| :: scores[i] == DayScore(s, days[i])
  {
    seq(|days|, i requires 0 <= i < |days| => DayScore(s, days[i]))
  }
}
