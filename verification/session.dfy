/** The running app as today's view sees it. The app creates one storage
    object and hands it to its views; every submit is saved there. The daily
    view's refresh, however, reads today's record from the process-wide
    shared storage object, a second instance that loads the persisted
    records when first used and is never saved to. Both are modelled, with
    the refresh as written (overlay from the shared object) and as intended
    (overlay from the object that receives the saves). */
module AppSession {
  import opened Seqs
  import opened Days
  import opened Records
  import opened TaskStorage
  import opened DailyTasks

  /** The app's own storage object, the shared one, and the daily view. */
  datatype Session = Session(storage: Store, shared: Store, view: DayView)

  /** Start-up: both storage objects load the same persisted records (the
      shared one is first used by the daily view's first refresh, before any
      submit), and the view has not been refreshed yet. */
  function Launch(userName: string, stored: Option<seq<Record>>): (a: Session)
    ensures a.storage == a.shared
    ensures GetUserName(a.storage) == userName
    ensures a.view == Fresh
    ensures stored.None? ==> a.storage.records == []
    ensures stored.Some? ==> multiset(a.storage.records) == multiset(stored.value)
    ensures forall d :: GetRecord(a.storage, d).Some? ==> stored.Some? && GetRecord(a.storage, d).value in stored.value
  {
    var s := Open(userName, stored);
    assert forall x | x in s.records :: stored.Some? && x in stored.value by {
      forall x | x in s.records ensures stored.Some? && x in stored.value {
        assert x in multiset(s.records);
      }
    }
    Session(s, s, Fresh)
  }

  /** A restart: both objects reload what the app's storage object wrote
      back. */
  function Relaunch(a: Session): (r: Session)
    ensures r.storage == r.shared
    ensures r.view == Fresh
    ensures GetUserName(r.storage) == GetUserName(a.storage)
    ensures multiset(r.storage.records) == multiset(a.storage.records)
  {
    Launch(a.storage.userName, Persisted(a.storage))
  }

  /** The refresh as written: today's record is read from the shared object.
      A skipped refresh leaves the view as it is; otherwise the cards are
      rebuilt for the cleaned list. Neither storage object changes. */
  function RefreshAsWritten(a: Session, today: Day, raw: seq<string>): (r: Session)
    ensures r.storage == a.storage && r.shared == a.shared
    ensures r.view.lastRefresh == Some(today)
    ensures SkipsRefresh(a.view, today, CleanItems(raw)) ==> r.view == a.view
    ensures !SkipsRefresh(a.view, today, CleanItems(raw)) ==>
      && r.view.items == CleanItems(raw)
      && r.view.cardStates == ReconcileStates(CleanItems(raw), a.view.cardStates, GetRecord(a.shared, today))
  {
    a.(view := Refresh(a.view, today, raw, a.shared))
  }

  /** The refresh as intended: today's record is read from the object that
      receives the saves. The skip rule is the same as written. Neither
      storage object changes. */
  function RefreshIntended(a: Session, today: Day, raw: seq<string>): (r: Session)
    ensures r.storage == a.storage && r.shared == a.shared
    ensures r.view.lastRefresh == Some(today)
    ensures SkipsRefresh(a.view, today, CleanItems(raw)) ==> r.view == a.view
    ensures !SkipsRefresh(a.view, today, CleanItems(raw)) ==>
      && r.view.items == CleanItems(raw)
      && r.view.cardStates == ReconcileStates(CleanItems(raw), a.view.cardStates, GetRecord(a.storage, today))
  {
    a.(view := Refresh(a.view, today, raw, a.storage))
  }

  /** Ticking or unticking one card: that card takes the new value, every
      other card and both storage objects are untouched. */
  function SetCard(a: Session, task: string, done: bool): (r: Session)
    ensures task in r.view.cardStates && r.view.cardStates[task] == done
    ensures forall k | k != task :: (k in r.view.cardStates <==> k in a.view.cardStates)
    ensures forall k | k != task && k in a.view.cardStates :: r.view.cardStates[k] == a.view.cardStates[k]
    ensures r.view.items == a.view.items && r.storage == a.storage && r.shared == a.shared
  {
    a.(view := a.view.(cardStates := a.view.cardStates[task := done]))
  }

  /** Submitting saves the cards into the app's storage object; the shared
      object never sees the save, and the view stays as it is. */
  function Submit(a: Session, today: Day): (r: Session)
    ensures GetRecord(r.storage, today) == Some(Record(today, a.view.cardStates))
    ensures forall d | d != today :: GetRecord(r.storage, d) == GetRecord(a.storage, d)
    ensures r.shared == a.shared
    ensures r.view == a.view
  {
    a.(storage := SaveTodayTasks(a.storage, today, a.view))
  }

  /** As written, when the shared object holds no record for today, a
      rebuild ignores whatever has been submitted since: each card keeps its
      on-screen value, or `false` for a new task. */
  lemma SubmitIgnoredAsWritten(a: Session, today: Day, raw: seq<string>, k: string)
    requires GetRecord(a.shared, today).None?
    requires !SkipsRefresh(a.view, today, CleanItems(raw))
    requires k in CleanItems(raw)
    ensures RefreshAsWritten(a, today, raw).view.cardStates[k] ==
      if k in a.view.cardStates then a.view.cardStates[k] else false
  {
  }

  /** A concrete run of the app as written. First launch on `day` with
      nothing stored; the list is ["Run"]; tick Run and submit; untick Run;
      the list becomes ["Run", "Sleep"]. The stored record says Run was
      done, yet the rebuilt card shows it not done. The intended refresh
      shows it done. */
  lemma StaleOverlayScenario(name: string, day: Day, first: seq<string>, second: seq<string>)
    requires first == ["Run"]
    requires second == ["Run", "Sleep"]
    ensures
      var a1 := RefreshAsWritten(Launch(name, None), day, first);
      var a4 := SetCard(Submit(SetCard(a1, "Run", true), day), "Run", false);
      && GetRecord(a4.storage, day) == Some(Record(day, map["Run" := true]))
      && (var shown := RefreshAsWritten(a4, day, second).view.cardStates;
          "Run" in shown && !shown["Run"])
      && (var intended := RefreshIntended(a4, day, second).view.cardStates;
          "Run" in intended && intended["Run"])
  {
    var a1 := RefreshAsWritten(Launch(name, None), day, first);
    var a2 := SetCard(a1, "Run", true);
    ScenarioAfterFirstRefresh(name, day, first, a1);
    var a4 := SetCard(Submit(a2, day), "Run", false);
    ScenarioAfterEdits(day, first, second, a2, a4);
  }

  /** After the first refresh and ticking Run, the cards hold just Run, done,
      and the shared object holds no record. */
  lemma ScenarioAfterFirstRefresh(name: string, day: Day, first: seq<string>, a1: Session)
    requires first == ["Run"]
    requires a1 == RefreshAsWritten(Launch(name, None), day, first)
    ensures a1.view.items == first && a1.view.lastRefresh == Some(day)
    ensures a1.shared.records == []
    ensures SetCard(a1, "Run", true).view.cardStates == map["Run" := true]
  {
    PlainWordsAreClean(first);
    assert !SkipsRefresh(Fresh, day, first);
    OnlyRunCard(a1.view.cardStates, first);
  }

  /** Ticking Run when Run is the only card. */
  lemma OnlyRunCard(cards: map<string, bool>, items: seq<string>)
    requires items == ["Run"]
    requires cards.Keys == set x | x in items
    ensures cards["Run" := true] == map["Run" := true]
  {
    assert cards.Keys == {"Run"};
  }

  /** After submitting and unticking, the list ["Run", "Sleep"] forces a
      rebuild; as written it shows the on-screen `false`, as intended the
      submitted `true`. */
  lemma ScenarioAfterEdits(day: Day, first: seq<string>, second: seq<string>, a2: Session, a4: Session)
    requires first == ["Run"]
    requires second == ["Run", "Sleep"]
    requires a2.view.items == first && a2.view.lastRefresh == Some(day)
    requires a2.shared.records == []
    requires a2.view.cardStates == map["Run" := true]
    requires a4 == SetCard(Submit(a2, day), "Run", false)
    ensures GetRecord(a4.storage, day) == Some(Record(day, map["Run" := true]))
    ensures var shown := RefreshAsWritten(a4, day, second).view.cardStates;
      "Run" in shown && !shown["Run"]
    ensures var intended := RefreshIntended(a4, day, second).view.cardStates;
      "Run" in intended && intended["Run"]
  {
    SleepForcesRebuild(a4.view, day, second);
    SubmitIgnoredAsWritten(a4, day, second, "Run");
    SubmittedValuesWin(a2, day, a4.view, second, "Run");
  }

  /** Adding Sleep to a view that shows just Run forces a rebuild. */
  lemma SleepForcesRebuild(v: DayView, day: Day, second: seq<string>)
    requires second == ["Run", "Sleep"]
    requires v.items == ["Run"]
    ensures CleanItems(second) == second && "Run" in second
    ensures !SkipsRefresh(v, day, second)
  {
    PlainWordsAreClean(second);
    NewTaskForcesRebuild(v, day, second, "Sleep");
    assert second[0] == "Run";
  }

  /** The intended refresh, for every input: once the cards have been
      submitted, a later rebuild on the same day shows each submitted card
      as submitted, whatever is on screen by then. */
  lemma SubmittedValuesWin(a: Session, today: Day, onScreen: DayView, raw: seq<string>, k: string)
    requires !SkipsRefresh(onScreen, today, CleanItems(raw))
    requires k in CleanItems(raw) && k in a.view.cardStates
    ensures RefreshIntended(Submit(a, today).(view := onScreen), today, raw).view.cardStates[k] == a.view.cardStates[k]
  {
    RefreshRebuildsStates(onScreen, today, raw, Submit(a, today).storage, k);
  }

  /** As written, the submitted states do come back after a restart: both
      objects then reload the record that was written back. */
  lemma RelaunchShowsSubmitted(a: Session, today: Day, raw: seq<string>)
    requires Consistent(a.view)
    requires a.view.items == CleanItems(raw)
    ensures RefreshAsWritten(Relaunch(Submit(a, today)), today, raw).view.cardStates == a.view.cardStates
  {
    SavedStatesComeBack(a.storage, today, a.view, raw);
  }
}
