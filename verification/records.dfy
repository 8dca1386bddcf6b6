/** One day's completion record and the counts and score derived from a map
    of task name to completed. */
module Records {
  import opened Seqs
  import opened Days

  /** The completion state of one calendar day. */
  datatype Record = Record(date: Day, tasks: map<string, bool>)

  /** The names whose entry is `true`. */
  function CompletedTasks(tasks: map<string, bool>): set<string> {
    set k | k in tasks && tasks[k]
  }

  predicate AllCompleted(tasks: map<string, bool>) {
    forall k | k in tasks :: tasks[k]
  }

  /** A subset is no larger than its superset, and only as large when equal. */
  lemma {:induction false} SubsetCardinality<T>(a: set<T>, b: set<T>)
    requires a <= b
    ensures |a| <= |b|
    ensures |a| == |b| ==> a == b
    decreases |b|
  {
    if b != {} {
      var x :| x in b;
      SubsetCardinality(a - {x}, b - {x});
      if x in a {
        assert a == (a - {x}) + {x};
        assert b == (b - {x}) + {x};
      } else {
        assert a - {x} == a;
      }
    }
  }

  /** The number of entries: the completed ones plus the uncompleted ones,
      and 0 exactly for the empty map. */
  function TotalCount(tasks: map<string, bool>): (n: nat)
    ensures n == |CompletedTasks(tasks)| + |set k | k in tasks && !tasks[k]|
    ensures n == 0 <==> tasks == map[]
  {
    var done := CompletedTasks(tasks);
    var open := set k | k in tasks && !tasks[k];
    assert tasks.Keys == done + open;
    assert done * open == {};
    assert tasks != map[] ==> |tasks| > 0 by {
      if tasks != map[] {
        var k :| k in tasks;
        assert k in tasks.Keys;
      }
    }
    |tasks|
  }

  /** The number of `true` entries: together with the `false` entries it
      makes up the total, it is never more than the number of entries, and
      equal to it exactly when every task is completed. */
  function CompletedCount(tasks: map<string, bool>): (n: nat)
    ensures n == |CompletedTasks(tasks)|
    ensures n + |set k | k in tasks && !tasks[k]| == TotalCount(tasks)
    ensures n <= TotalCount(tasks)
    ensures n == TotalCount(tasks) <==> AllCompleted(tasks)
    ensures n == 0 <==> forall k | k in tasks :: !tasks[k]
  {
    var done := CompletedTasks(tasks);
    SubsetCardinality(done, tasks.Keys);
    assert AllCompleted(tasks) ==> done == tasks.Keys;
    assert (forall k | k in tasks :: !tasks[k]) <==> done == {} by {
      if forall k | k in tasks :: !tasks[k] {
        assert forall k :: k !in done;
      }
      if done == {} {
        forall k | k in tasks ensures !tasks[k] {
          assert k !in done;
        }
      }
    }
    |done|
  }

  /** The whole-number percentage completed/total, truncated toward zero, and 0
      for an empty list. */
  function Percent(completed: nat, total: nat): (p: nat)
    requires completed <= total
    ensures p <= 100
    ensures total == 0 ==> p == 0
    ensures total > 0 ==> p * total <= completed * 100 < (p + 1) * total
    ensures p == 100 <==> total > 0 && completed == total
  {
    if total > 0 then
      var p := completed * 100 / total;
      FloorDivision(completed * 100, total, 100);
      assert completed == total ==> p == 100 by {
        if completed == total {
          ExactDivision(100, total);
        }
      }
      assert completed < total ==> p < 100 by {
        if completed < total {
          assert p * total < 100 * total;
          MulCancel(p, 100, total);
        }
      }
      p
    else 0
  }

  /** A day's score: 0 for no tasks, 100 exactly when there is a task and all
      are completed, otherwise the whole part of the completed tasks times 100
      over the number of tasks. */
  function Score(tasks: map<string, bool>): (s: nat)
    ensures s <= 100
    ensures TotalCount(tasks) == 0 ==> s == 0
    ensures s == 100 <==> TotalCount(tasks) > 0 && AllCompleted(tasks)
    ensures (forall k | k in tasks :: !tasks[k]) ==> s == 0
    ensures |tasks| > 0 ==> s * |tasks| <= |CompletedTasks(tasks)| * 100 < (s + 1) * |tasks|
  {
    Percent(CompletedCount(tasks), TotalCount(tasks))
  }

  /** The percentage truncates rather than rounds: two of three gives 66, not 67. */
  lemma ScoreTruncates()
    ensures Score(map["Run" := true, "Read" := true, "Sleep" := false]) == 66
  {
    var tasks := map["Run" := true, "Read" := true, "Sleep" := false];
    assert CompletedTasks(tasks) == {"Run", "Read"};
    assert tasks.Keys == {"Run", "Read", "Sleep"};
  }
}
