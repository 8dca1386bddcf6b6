/** Today's checklist: cleaning the raw task list, reconciling the on-screen
    completion states with the persisted record, the progress summary and the
    save of today's states. The raw list comes from a task source outside this
    model and is a parameter. */
module DailyTasks {
  import opened Seqs
  import opened Days
  import opened Records
  import opened TaskStorage

  /** Foundation's whitespace-and-newline set as ranges of code points: tab,
      the line breaks U+000A..U+000D and U+0085, and the Unicode separators
      (categories Zs, Zl and Zp). */
  const WhitespaceRanges: seq<(int, int)> := [
    (0x09, 0x0D), (0x20, 0x20), (0x85, 0x85), (0xA0, 0xA0), (0x1680, 0x1680),
    (0x2000, 0x200A), (0x2028, 0x2029), (0x202F, 0x202F), (0x205F, 0x205F),
    (0x3000, 0x3000)
  ]

  predicate InRanges(n: int, ranges: seq<(int, int)>) {
    && |ranges| > 0
    && (ranges[0].0 <= n <= ranges[0].1 || InRanges(n, ranges[1..]))
  }

  predicate IsWhitespace(c: char) {
    InRanges(c as int, WhitespaceRanges)
  }

  /** A code point outside every range is in none of them. */
  lemma {:induction false} OutsideAllRanges(n: int, ranges: seq<(int, int)>)
    requires forall i | 0 <= i < |ranges| :: !(ranges[i].0 <= n <= ranges[i].1)
    ensures !InRanges(n, ranges)
  {
    if |ranges| > 0 {
      OutsideAllRanges(n, ranges[1..]);
    }
  }

  /** ASCII letters are not whitespace. */
  lemma LetterIsNotWhitespace(c: char)
    requires 'A' <= c <= 'Z' || 'a' <= c <= 'z'
    ensures !IsWhitespace(c)
  {
    OutsideAllRanges(c as int, WhitespaceRanges);
  }

  predicate AllWhitespace(s: string) {
    forall i | 0 <= i < |s| :: IsWhitespace(s[i])
  }

  /** r is s with its whitespace removed at both ends, starting at position
      `lead`: a slice of s flanked only by whitespace that neither starts nor
      ends with whitespace. */
  predicate IsTrimAt(r: string, s: string, lead: nat) {
    && lead + |r| <= |s|
    && r == s[lead..lead + |r|]
    && (forall i | 0 <= i < lead :: IsWhitespace(s[i]))
    && (forall i | lead + |r| <= i < |s| :: IsWhitespace(s[i]))
    && (|r| > 0 ==> !IsWhitespace(r[0]) && !IsWhitespace(r[|r| - 1]))
  }

  /** The number of whitespace characters s starts with. */
  function LeadingWhitespace(s: string): (n: nat)
    ensures n <= |s|
  {
    if |s| == 0 || !IsWhitespace(s[0]) then 0
    else 1 + LeadingWhitespace(s[1..])
  }

  /** The counted prefix is all whitespace and the character after it is not. */
  lemma {:induction false} LeadingWhitespaceSpec(s: string)
    ensures forall i | 0 <= i < LeadingWhitespace(s) :: IsWhitespace(s[i])
    ensures LeadingWhitespace(s) < |s| ==> !IsWhitespace(s[LeadingWhitespace(s)])
  {
    if |s| > 0 && IsWhitespace(s[0]) {
      var tail := s[1..];
      LeadingWhitespaceSpec(tail);
      assert forall i | 1 <= i < |s| :: s[i] == tail[i - 1];
    }
  }

  /** The number of whitespace characters s ends with. */
  function TrailingWhitespace(s: string): (n: nat)
    ensures n <= |s|
  {
    if |s| == 0 || !IsWhitespace(s[|s| - 1]) then 0
    else 1 + TrailingWhitespace(s[..|s| - 1])
  }

  /** The counted suffix is all whitespace and the character before it is not. */
  lemma {:induction false} TrailingWhitespaceSpec(s: string)
    ensures forall i | |s| - TrailingWhitespace(s) <= i < |s| :: IsWhitespace(s[i])
    ensures TrailingWhitespace(s) < |s| ==> !IsWhitespace(s[|s| - TrailingWhitespace(s) - 1])
  {
    if |s| > 0 && IsWhitespace(s[|s| - 1]) {
      var init := s[..|s| - 1];
      TrailingWhitespaceSpec(init);
      assert forall i | 0 <= i < |init| :: s[i] == init[i];
    }
  }

  /** The slice between a whitespace-only head and a whitespace-only tail,
      when it neither starts nor ends with whitespace, is the trim. */
  lemma TrimSlice(s: string, lead: nat, end: nat)
    requires lead < end <= |s|
    requires forall i | 0 <= i < lead :: IsWhitespace(s[i])
    requires forall i | end <= i < |s| :: IsWhitespace(s[i])
    requires !IsWhitespace(s[lead]) && !IsWhitespace(s[end - 1])
    ensures IsTrimAt(s[lead..end], s, lead)
    ensures !AllWhitespace(s)
  {
    var r := s[lead..end];
    assert lead + |r| == end;
    assert r[0] == s[lead] && r[|r| - 1] == s[end - 1];
  }

  /** When the whitespace head and tail meet, the string is all whitespace
      and the trim is empty. */
  lemma TrimEmpty(s: string, lead: nat, end: nat)
    requires end <= lead <= |s|
    requires forall i | 0 <= i < lead :: IsWhitespace(s[i])
    requires forall i | end <= i < |s| :: IsWhitespace(s[i])
    ensures IsTrimAt([], s, lead)
    ensures AllWhitespace(s)
  {
  }

  /** `trimmingCharacters(in: .whitespacesAndNewlines)`: what lies between
      the leading and the trailing whitespace (TrimSpec states what it is). */
  function Trim(s: string): string {
    var lead := LeadingWhitespace(s);
    var end := |s| - TrailingWhitespace(s);
    if end <= lead then [] else s[lead..end]
  }

  /** The trim drops exactly the whitespace at both ends, and is empty
      exactly when the string is all whitespace. */
  lemma TrimSpec(s: string)
    ensures IsTrimAt(Trim(s), s, LeadingWhitespace(s))
    ensures Trim(s) == [] <==> AllWhitespace(s)
  {
    var lead := LeadingWhitespace(s);
    var end := |s| - TrailingWhitespace(s);
    LeadingWhitespaceSpec(s);
    TrailingWhitespaceSpec(s);
    if end <= lead {
      TrimEmpty(s, lead, end);
    } else {
      TrimSlice(s, lead, end);
    }
  }

  /** Trimming an already trimmed string changes nothing. */
  lemma TrimIsIdempotent(s: string)
    ensures Trim(Trim(s)) == Trim(s)
  {
    var t := Trim(s);
    TrimSpec(s);
    if |t| > 0 {
      TrimOfTrimmed(t);
    }
  }

  /** Non-empty, and neither starts nor ends with whitespace. */
  predicate HasTrimmedEnds(s: string) {
    |s| > 0 && !IsWhitespace(s[0]) && !IsWhitespace(s[|s| - 1])
  }

  /** A string without whitespace at either end is its own trim. */
  lemma TrimOfTrimmed(s: string)
    requires HasTrimmedEnds(s)
    ensures Trim(s) == s
  {
    assert LeadingWhitespace(s) == 0;
    assert TrailingWhitespace(s) == 0;
  }

  /** Some entry of raw trims to x exactly when some entry before the last
      does, or the last one does. */
  lemma TrimsToStep(raw: seq<string>, init: seq<string>, x: string)
    requires |raw| > 0 && init == raw[..|raw| - 1]
    ensures (exists i | 0 <= i < |raw| :: Trim(raw[i]) == x) <==>
            (exists i | 0 <= i < |init| :: Trim(init[i]) == x) || Trim(raw[|raw| - 1]) == x
  {
    ImageStep(raw, init, Trim, x);
  }

  lemma ImageStep(s: seq<string>, init: seq<string>, f: string -> string, y: string)
    requires |s| > 0 && init == s[..|s| - 1]
    ensures (exists i | 0 <= i < |s| :: f(s[i]) == y) <==>
            (exists i | 0 <= i < |init| :: f(init[i]) == y) || f(s[|s| - 1]) == y
  {
    var last := |s| - 1;
    if exists i | 0 <= i < |s| :: f(s[i]) == y {
      var i :| 0 <= i < |s| && f(s[i]) == y;
      if i < last {
        assert init[i] == s[i];
      }
    }
    if exists i | 0 <= i < |init| :: f(init[i]) == y {
      var i :| 0 <= i < |init| && f(init[i]) == y;
      assert s[i] == init[i];
    }
  }

  /** The raw entries trimmed, in order, with those that trim to nothing
      dropped (TrimmedNonBlankSpec states what it holds). */
  function TrimmedNonBlank(raw: seq<string>): seq<string> {
    if |raw| == 0 then []
    else
      var v := Trim(raw[|raw| - 1]);
      var t := TrimmedNonBlank(raw[..|raw| - 1]);
      if v == [] then t else t + [v]
  }

  /** Every entry kept is non-blank and already trimmed, and the kept entries
      are exactly the non-blank trims of the raw entries. */
  lemma {:induction false} TrimmedNonBlankSpec(raw: seq<string>)
    ensures forall i | 0 <= i < |TrimmedNonBlank(raw)| ::
              TrimmedNonBlank(raw)[i] != [] && Trim(TrimmedNonBlank(raw)[i]) == TrimmedNonBlank(raw)[i]
    ensures forall x :: x in TrimmedNonBlank(raw) <==> x != [] && exists i | 0 <= i < |raw| :: Trim(raw[i]) == x
  {
    if |raw| > 0 {
      var init := raw[..|raw| - 1];
      var v := Trim(raw[|raw| - 1]);
      var t := TrimmedNonBlank(init);
      TrimmedNonBlankSpec(init);
      TrimIsIdempotent(raw[|raw| - 1]);
      forall x ensures x in TrimmedNonBlank(raw) <==> x in t || (v != [] && x == v) {
        if v != [] {
          assert TrimmedNonBlank(raw) == t + [v];
        }
      }
      forall x ensures x in TrimmedNonBlank(raw) <==> x != [] && exists i | 0 <= i < |raw| :: Trim(raw[i]) == x {
        TrimsToStep(raw, init, x);
      }
    }
  }

  /** The positions of the raw entries that do not trim to nothing, in
      increasing order: every listed position is such an entry, and every
      such entry is listed. */
  function KeptIndices(raw: seq<string>): (idx: seq<nat>)
    ensures forall k | 0 <= k < |idx| :: idx[k] < |raw| && Trim(raw[idx[k]]) != []
    ensures forall k, l | 0 <= k < l < |idx| :: idx[k] < idx[l]
    ensures forall j | 0 <= j < |raw| && Trim(raw[j]) != [] :: j in idx
  {
    if |raw| == 0 then []
    else
      var idx := KeptIndices(raw[..|raw| - 1]);
      if Trim(raw[|raw| - 1]) == [] then idx else idx + [|raw| - 1]
  }

  /** The kept entries follow the raw list's order: the k-th kept entry is
      the trim of the k-th raw entry that is not blank once trimmed. */
  lemma {:induction false} TrimmedNonBlankFollowsRaw(raw: seq<string>)
    ensures |TrimmedNonBlank(raw)| == |KeptIndices(raw)|
    ensures forall k | 0 <= k < |KeptIndices(raw)| ::
              TrimmedNonBlank(raw)[k] == Trim(raw[KeptIndices(raw)[k]])
  {
    if |raw| > 0 {
      var init := raw[..|raw| - 1];
      TrimmedNonBlankFollowsRaw(init);
      assert forall i | 0 <= i < |init| :: init[i] == raw[i];
    }
  }

  /** Today's task list as shown: every raw entry trimmed, blanks dropped,
      later repeats dropped. No entry is blank or carries surrounding
      whitespace, every entry is the trim of a raw entry, every non-blank trim
      of a raw entry is present, and none is listed twice. */
  function CleanItems(raw: seq<string>): (items: seq<string>)
    ensures NoDuplicates(items)
    ensures forall i | 0 <= i < |items| :: items[i] != [] && Trim(items[i]) == items[i]
    ensures forall x :: x in items <==> x != [] && exists i | 0 <= i < |raw| :: Trim(raw[i]) == x
  {
    var t := TrimmedNonBlank(raw);
    var items := Unique(t);
    TrimmedNonBlankSpec(raw);
    assert forall x :: x in items <==> x in t by {
      forall x ensures x in items <==> x in t {
        if x in t {
          var i :| 0 <= i < |t| && t[i] == x;
        }
        if x in items {
          var i :| 0 <= i < |items| && items[i] == x;
        }
      }
    }
    items
  }

  /** The cleaned list keeps the order in which entries first occur. */
  lemma CleanItemsKeepFirstOccurrenceOrder(raw: seq<string>, i: nat, j: nat)
    requires i < j < |CleanItems(raw)|
    ensures FirstIndex(TrimmedNonBlank(raw), CleanItems(raw)[i])
          < FirstIndex(TrimmedNonBlank(raw), CleanItems(raw)[j])
  {
    UniqueKeepsFirstOccurrenceOrder(TrimmedNonBlank(raw), i, j);
  }

  /** The cleaning loop as written: a `seen` set and an output list, one pass
      over the raw entries. */
  method CleanItemsLoop(raw: seq<string>) returns (result: seq<string>)
    ensures result == CleanItems(raw)
  {
    var seen: set<string> := {};
    result := [];
    for k := 0 to |raw|
      invariant result == Unique(TrimmedNonBlank(raw[..k]))
      invariant forall x :: x in seen <==> x in result
    {
      var v := Trim(raw[k]);
      assert raw[..k + 1][..k] == raw[..k];
      assert forall x :: x in TrimmedNonBlank(raw[..k]) <==> x in result;
      if v != [] && v !in seen {
        seen := seen + {v};
        result := result + [v];
      }
    }
    assert raw[..|raw|] == raw;
  }

  /** The states built from today's items in list order: the value currently
      on screen, or `false` for an item not on screen. */
  function InitialStates(items: seq<string>, onScreen: map<string, bool>): (states: map<string, bool>)
    ensures states.Keys == set x | x in items
    ensures forall k | k in states :: states[k] == (if k in onScreen then onScreen[k] else false)
  {
    if |items| == 0 then map[]
    else
      var k := items[|items| - 1];
      var init := items[..|items| - 1];
      assert items == init + [k];
      InitialStates(init, onScreen)[k := if k in onScreen then onScreen[k] else false]
  }

  /** The persisted values written over the keys already present; persisted
      keys that are not present are ignored. */
  function Overlay(states: map<string, bool>, saved: Option<Record>): map<string, bool> {
    match saved
    case None => states
    case Some(rec) => map k | k in states :: if k in rec.tasks then rec.tasks[k] else states[k]
  }

  /** The completion state of today's items: keyed by exactly those items;
      a persisted value wins, then the value on screen, then `false`. */
  function ReconcileStates(items: seq<string>, onScreen: map<string, bool>, saved: Option<Record>): (states: map<string, bool>)
    ensures states.Keys == set x | x in items
    ensures forall k | k in states ::
      states[k] == if saved.Some? && k in saved.value.tasks then saved.value.tasks[k]
                   else if k in onScreen then onScreen[k]
                   else false
  {
    Overlay(InitialStates(items, onScreen), saved)
  }

  /** The reconciled states are the map with the same keys and the values
      the reconciliation rule picks. */
  lemma ReconcileIsDetermined(items: seq<string>, onScreen: map<string, bool>, saved: Option<Record>, expected: map<string, bool>)
    requires expected.Keys == set x | x in items
    requires forall k | k in expected ::
      expected[k] == if saved.Some? && k in saved.value.tasks then saved.value.tasks[k]
                     else if k in onScreen then onScreen[k]
                     else false
    ensures ReconcileStates(items, onScreen, saved) == expected
  {
    var states := ReconcileStates(items, onScreen, saved);
    assert states.Keys == expected.Keys;
  }
  /** A persisted record that covers exactly the listed items is shown as it
      was stored, whatever is on screen. */
  lemma ReconcileWithCompleteRecord(items: seq<string>, onScreen: map<string, bool>, saved: Record)
    requires saved.tasks.Keys == set x | x in items
    ensures ReconcileStates(items, onScreen, Some(saved)) == saved.tasks
  {
    ReconcileIsDetermined(items, onScreen, Some(saved), saved.tasks);
  }

  /** What the daily view holds: the day of the last refresh, the items shown
      and the completion state of each card. */
  datatype DayView = DayView(lastRefresh: Option<Day>, items: seq<string>, cardStates: map<string, bool>)

  /** The view before its first refresh. */
  const Fresh: DayView := DayView(None, [], map[])

  /** The cards' states are keyed by exactly the items shown. */
  predicate Consistent(v: DayView) {
    v.cardStates.Keys == set x | x in v.items
  }

  /** A refresh on the same day, with states already present and the same set
      of items, leaves the view alone. Such a skip is harmless for a
      consistent view: its cards are already keyed by the new list, which is
      not empty. Reordering or repeating entries alone never forces a
      rebuild on the day of the last refresh. */
  function SkipsRefresh(v: DayView, today: Day, cleaned: seq<string>): (skip: bool)
    ensures skip ==> v.lastRefresh == Some(today) && |v.cardStates| > 0
    ensures skip && Consistent(v) ==> v.cardStates.Keys == (set x | x in cleaned) && |cleaned| > 0
    ensures v.lastRefresh == Some(today) && |v.cardStates| > 0 && multiset(v.items) == multiset(cleaned) ==> skip
  {
    assert multiset(v.items) == multiset(cleaned) ==> (set x | x in v.items) == (set x | x in cleaned) by {
      if multiset(v.items) == multiset(cleaned) {
        assert forall x :: x in v.items <==> x in multiset(cleaned);
      }
    }
    assert |v.cardStates| > 0 && Consistent(v) && (set x | x in v.items) == (set x | x in cleaned) ==> |cleaned| > 0 by {
      if |v.cardStates| > 0 && Consistent(v) && (set x | x in v.items) == (set x | x in cleaned) {
        var k :| k in v.cardStates;
        assert k in cleaned;
      }
    }
    && v.lastRefresh == Some(today)
    && |v.cardStates| > 0
    && (set x | x in v.items) == (set x | x in cleaned)
  }

  /** A task that was not shown forces a rebuild, even on the same day. */
  lemma NewTaskForcesRebuild(v: DayView, today: Day, cleaned: seq<string>, t: string)
    requires t in cleaned && t !in v.items
    ensures !SkipsRefresh(v, today, cleaned)
  {
    var shown := set x | x in v.items;
    var listed := set x | x in cleaned;
    assert t in listed && t !in shown;
  }

  /** A refresh of the daily view for `today`, given the raw task list and
      the store whose record for today is overlaid. A skipped refresh returns
      the view unchanged; otherwise the view shows the cleaned list and its
      cards are rebuilt by the reconciliation rule. Either way the view is
      dated today, shows the cleaned items as a set and keeps the states
      keyed by the items. */
  function Refresh(v: DayView, today: Day, raw: seq<string>, s: Store): (r: DayView)
    ensures r.lastRefresh == Some(today)
    ensures (set x | x in r.items) == (set x | x in CleanItems(raw))
    ensures SkipsRefresh(v, today, CleanItems(raw)) ==> r == v
    ensures !SkipsRefresh(v, today, CleanItems(raw)) ==>
      && r.items == CleanItems(raw)
      && r.cardStates == ReconcileStates(CleanItems(raw), v.cardStates, GetRecord(s, today))
    ensures Consistent(v) ==> Consistent(r)
  {
    var cleaned := CleanItems(raw);
    if SkipsRefresh(v, today, cleaned) then v
    else DayView(Some(today), cleaned, ReconcileStates(cleaned, v.cardStates, GetRecord(s, today)))
  }

  /** When the refresh is not skipped every card follows the precedence
      persisted value, then on-screen value, then `false`. */
  lemma RefreshRebuildsStates(v: DayView, today: Day, raw: seq<string>, s: Store, k: string)
    requires !SkipsRefresh(v, today, CleanItems(raw))
    ensures k in Refresh(v, today, raw, s).cardStates <==> k in CleanItems(raw)
    ensures k in CleanItems(raw) ==>
      var saved := GetRecord(s, today);
      Refresh(v, today, raw, s).cardStates[k] ==
        if saved.Some? && k in saved.value.tasks then saved.value.tasks[k]
        else if k in v.cardStates then v.cardStates[k]
        else false
  {
  }

  /** Refreshing twice in a row with the same inputs is the same as once. */
  lemma RefreshIsIdempotent(v: DayView, today: Day, raw: seq<string>, s: Store)
    ensures Refresh(Refresh(v, today, raw, s), today, raw, s) == Refresh(v, today, raw, s)
  {
    var r := Refresh(v, today, raw, s);
    var cleaned := CleanItems(raw);
    if !SkipsRefresh(v, today, cleaned) && |r.cardStates| == 0 {
      assert forall x | x in cleaned :: x in r.cardStates;
      assert cleaned == [];
      assert ReconcileStates([], r.cardStates, GetRecord(s, today)) == map[];
    }
  }

  /** The summary shown under the cards: total, completed and score. */
  datatype Progress = Progress(total: nat, completed: nat, score: nat)

  /** The progress of the cards: the score is the truncated percentage of
      completed cards, at most 100, 0 without cards, and 100 exactly when
      there are cards and all are completed. */
  function ScoreInfo(states: map<string, bool>): (p: Progress)
    ensures p.total == |states|
    ensures p.completed == |CompletedTasks(states)|
    ensures p.completed <= p.total
    ensures p.total == 0 ==> p.score == 0
    ensures p.score <= 100
    ensures p.score == 100 <==> p.total > 0 && AllCompleted(states)
    ensures p.total > 0 ==> p.score * p.total <= p.completed * 100 < (p.score + 1) * p.total
  {
    Progress(TotalCount(states), CompletedCount(states), Score(states))
  }

  /** Submitting stores the cards' current states as today's record; every
      other day is untouched. */
  function SaveTodayTasks(s: Store, today: Day, v: DayView): (r: Store)
    ensures GetRecord(r, today) == Some(Record(today, v.cardStates))
    ensures forall d | d != today :: GetRecord(r, d) == GetRecord(s, d)
    ensures OnePerDay(s.records) ==> OnePerDay(r.records)
  {
    SaveRecord(s, today, v.cardStates)
  }

  /** The score shown before submitting is the score the stored day gets. */
  lemma SavedScoreMatchesProgress(s: Store, today: Day, v: DayView)
    ensures DayScore(SaveTodayTasks(s, today, v), today) == ScoreInfo(v.cardStates).score
  {
  }

  /** Round trip across a restart: after submitting a consistent view and
      reopening the store from what was written back, a fresh view refreshed
      with the same raw list shows exactly the submitted states. */
  lemma SavedStatesComeBack(s: Store, today: Day, v: DayView, raw: seq<string>)
    requires Consistent(v)
    requires v.items == CleanItems(raw)
    ensures Refresh(Fresh, today, raw, Open(s.userName, Persisted(SaveTodayTasks(s, today, v)))).cardStates == v.cardStates
  {
    SavedDaySurvivesReopen(s, today, v.cardStates);
    ReconcileWithCompleteRecord(v.items, map[], Record(today, v.cardStates));
  }

  /** Entries that are non-empty and start and end with a non-whitespace
      character pass the trimming step unchanged. */
  lemma {:induction false} TrimmedNonBlankOfTrimmed(raw: seq<string>)
    requires forall i | 0 <= i < |raw| :: HasTrimmedEnds(raw[i])
    ensures TrimmedNonBlank(raw) == raw
  {
    if |raw| > 0 {
      var init := raw[..|raw| - 1];
      var last := raw[|raw| - 1];
      assert forall i | 0 <= i < |init| :: init[i] == raw[i];
      TrimmedNonBlankOfTrimmed(init);
      TrimOfTrimmed(last);
      assert TrimmedNonBlank(raw) == TrimmedNonBlank(init) + [last];
    }
  }

  /** A list of distinct entries that are already trimmed is its own cleaned
      list. */
  lemma CleanListIsFixed(raw: seq<string>)
    requires forall i | 0 <= i < |raw| :: HasTrimmedEnds(raw[i])
    requires NoDuplicates(raw)
    ensures CleanItems(raw) == raw
  {
    TrimmedNonBlankOfTrimmed(raw);
    UniqueOfDistinct(raw);
  }

  /** A list of distinct entries drawn from the words "Run", "Read" and
      "Sleep" is left as it is. */
  lemma PlainWordsAreClean(raw: seq<string>)
    requires forall i | 0 <= i < |raw| :: raw[i] == "Run" || raw[i] == "Read" || raw[i] == "Sleep"
    requires NoDuplicates(raw)
    ensures CleanItems(raw) == raw
  {
    LetterIsNotWhitespace('R');
    LetterIsNotWhitespace('S');
    LetterIsNotWhitespace('n');
    LetterIsNotWhitespace('d');
    LetterIsNotWhitespace('p');
    CleanListIsFixed(raw);
  }

  /** The three-word list is left as it is. */
  lemma ScenarioListIsClean(raw: seq<string>)
    requires raw == ["Run", "Read", "Sleep"]
    ensures CleanItems(raw) == raw
  {
    PlainWordsAreClean(raw);
  }

  /** A persisted record from an earlier list is shown against today's list:
      its values win where the task is still listed, a new task starts
      `false`, and nothing else appears. */
  lemma OverlayScenario(s: Store, day: Day, saved: map<string, bool>, raw: seq<string>)
    requires saved == map["Run" := true, "Read" := false]
    requires raw == ["Run", "Read", "Sleep"]
    ensures Refresh(Fresh, day, raw, SaveRecord(s, day, saved)).cardStates
              == map["Run" := true, "Read" := false, "Sleep" := false]
  {
    ScenarioRefreshReconciles(s, day, saved, raw);
    ScenarioStates(day, saved, raw);
  }

  /** With the three-word list, a fresh view reconciles against the record
      just saved. */
  lemma ScenarioRefreshReconciles(s: Store, day: Day, saved: map<string, bool>, raw: seq<string>)
    requires raw == ["Run", "Read", "Sleep"]
    ensures Refresh(Fresh, day, raw, SaveRecord(s, day, saved)).cardStates
              == ReconcileStates(raw, map[], Some(Record(day, saved)))
  {
    ScenarioListIsClean(raw);
    assert GetRecord(SaveRecord(s, day, saved), day) == Some(Record(day, saved));
    assert !SkipsRefresh(Fresh, day, raw);
  }

  /** The reconciliation of the three-word list against the saved pair. */
  lemma ScenarioStates(day: Day, saved: map<string, bool>, raw: seq<string>)
    requires saved == map["Run" := true, "Read" := false]
    requires raw == ["Run", "Read", "Sleep"]
    ensures ReconcileStates(raw, map[], Some(Record(day, saved)))
              == map["Run" := true, "Read" := false, "Sleep" := false]
  {
    var expected := map["Run" := true, "Read" := false, "Sleep" := false];
    assert expected.Keys == set x | x in raw by {
      assert raw[0] == "Run" && raw[1] == "Read" && raw[2] == "Sleep";
      assert forall x :: x in raw <==> x == "Run" || x == "Read" || x == "Sleep";
    }
    assert "Sleep" !in saved;
    ReconcileIsDetermined(raw, map[], Some(Record(day, saved)), expected);
  }
}
