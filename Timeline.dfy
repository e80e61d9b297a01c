/** The day's task list as App.tsx keeps it: insertion with re-sorting,
    update, delete and completion toggling by id, and the cascading
    reschedule behind the "+15 min" button. */
module Timeline {
  import opened Text
  import opened Clock
  import opened Types

  // ---------------------------------------------------------------------
  // Ordering by start time

  /** Ascending by `startTime` under `localeCompare`. */
  predicate SortedByStart(s: seq<Task>) {
    forall i, j :: 0 <= i < j < |s| ==> StrLe(s[i].startTime, s[j].startTime)
  }

  /** Places `t` after every task of `s` that starts no later than it, and
      before the first one that starts later: where a stable sort puts an
      element appended at the end. */
  function InsertByStart(s: seq<Task>, t: Task): (r: seq<Task>)
    ensures |r| == |s| + 1
    ensures multiset(r) == multiset(s) + multiset{t}
  {
    if s == [] then [t]
    else if !StrLe(s[0].startTime, t.startTime) then [t] + s
    else
      assert s == [s[0]] + s[1..];
      [s[0]] + InsertByStart(s[1..], t)
  }

  /** How many tasks at the front of `s` start no later than `t`. */
  function NoLaterPrefix(s: seq<Task>, t: Task): (p: nat)
    ensures p <= |s|
    ensures forall i :: 0 <= i < p ==> StrLe(s[i].startTime, t.startTime)
    ensures p < |s| ==> !StrLe(s[p].startTime, t.startTime)
  {
    if s == [] || !StrLe(s[0].startTime, t.startTime) then 0
    else 1 + NoLaterPrefix(s[1..], t)
  }

  /** Insertion cuts the list after its leading run of tasks that start no
      later than `t`. */
  lemma {:induction false} InsertByStartSplit(s: seq<Task>, t: Task)
    ensures InsertByStart(s, t) == s[..NoLaterPrefix(s, t)] + [t] + s[NoLaterPrefix(s, t)..]
  {
    if s == [] {
    } else if !StrLe(s[0].startTime, t.startTime) {
      assert s[..0] + [t] + s[0..] == [t] + s;
    } else {
      var tail := s[1..];
      var p := NoLaterPrefix(tail, t);
      var rest := InsertByStart(tail, t);
      assert NoLaterPrefix(s, t) == p + 1;
      assert InsertByStart(s, t) == [s[0]] + rest;
      InsertByStartSplit(tail, t);
      assert rest == tail[..p] + [t] + tail[p..];
      SplitCons(s, t, p);
    }
  }

  lemma SplitCons<T>(s: seq<T>, x: T, p: nat)
    requires p < |s|
    ensures [s[0]] + (s[1..][..p] + [x] + s[1..][p..]) == s[..p + 1] + [x] + s[p + 1..]
  {
    assert s[..p + 1] == [s[0]] + s[1..][..p];
    assert s[p + 1..] == s[1..][p..];
  }

  /** In a sorted list the new task lands after exactly the tasks that
      start no later than it: every task before it does, none after it
      does. */
  lemma InsertAfterNoLater(s: seq<Task>, t: Task)
    requires SortedByStart(s)
    ensures var p := NoLaterPrefix(s, t);
      && InsertByStart(s, t) == s[..p] + [t] + s[p..]
      && (forall i :: 0 <= i < p ==> StrLe(s[i].startTime, t.startTime))
      && (forall i :: p <= i < |s| ==> !StrLe(s[i].startTime, t.startTime))
  {
    InsertByStartSplit(s, t);
    var p := NoLaterPrefix(s, t);
    forall i | p <= i < |s|
      ensures !StrLe(s[i].startTime, t.startTime)
    {
      if i > p && StrLe(s[i].startTime, t.startTime) {
        StrLeTrans(s[p].startTime, s[i].startTime, t.startTime);
      }
    }
  }

  /** Putting in front of a sorted list a task that starts no later than any
      of its tasks gives a sorted list. */
  lemma ConsSorted(x: Task, rest: seq<Task>)
    requires SortedByStart(rest)
    requires forall y :: y in rest ==> StrLe(x.startTime, y.startTime)
    ensures SortedByStart([x] + rest)
  {
    var q := [x] + rest;
    forall i, j | 0 <= i < j < |q|
      ensures StrLe(q[i].startTime, q[j].startTime)
    {
      assert q[j] == rest[j - 1];
      if i == 0 {
        assert rest[j - 1] in rest;
      } else {
        assert q[i] == rest[i - 1];
      }
    }
  }

  lemma {:induction false} InsertByStartSorted(s: seq<Task>, t: Task)
    requires SortedByStart(s)
    ensures SortedByStart(InsertByStart(s, t))
  {
    if s == [] {
    } else if !StrLe(s[0].startTime, t.startTime) {
      StrLeTotal(s[0].startTime, t.startTime);
      forall y | y in s
        ensures StrLe(t.startTime, y.startTime)
      {
        var j :| 0 <= j < |s| && s[j] == y;
        if j > 0 {
          assert StrLe(s[0].startTime, s[j].startTime);
          StrLeTrans(t.startTime, s[0].startTime, s[j].startTime);
        }
      }
      ConsSorted(t, s);
    } else {
      var rest := InsertByStart(s[1..], t);
      InsertByStartSorted(s[1..], t);
      forall y | y in rest
        ensures StrLe(s[0].startTime, y.startTime)
      {
        assert y in multiset(rest);
        if y != t {
          assert y in multiset(s[1..]);
          var j :| 0 <= j < |s[1..]| && s[1..][j] == y;
          assert s[j + 1] == y;
        }
      }
      ConsSorted(s[0], rest);
    }
  }

  /** A task that starts no earlier than every task of `s` goes at the end. */
  lemma {:induction false} InsertByStartAtEnd(s: seq<Task>, t: Task)
    requires forall i :: 0 <= i < |s| ==> StrLe(s[i].startTime, t.startTime)
    ensures InsertByStart(s, t) == s + [t]
  {
    if s != [] {
      InsertByStartAtEnd(s[1..], t);
      assert s == [s[0]] + s[1..];
    }
  }

  /** `tasks.sort((a, b) => a.startTime.localeCompare(b.startTime))`, as the
      stable insertion sort its result coincides with. */
  function SortByStart(s: seq<Task>): (r: seq<Task>)
    ensures SortedByStart(r)
    ensures multiset(r) == multiset(s)
  {
    if s == [] then []
    else
      var prefix := SortByStart(s[..|s| - 1]);
      InsertByStartSorted(prefix, s[|s| - 1]);
      assert s == s[..|s| - 1] + [s[|s| - 1]];
      InsertByStart(prefix, s[|s| - 1])
  }

  /** Sorting an already sorted list leaves it as it is. */
  lemma {:induction false} SortByStartSorted(s: seq<Task>)
    requires SortedByStart(s)
    ensures SortByStart(s) == s
  {
    if s != [] {
      var p := s[..|s| - 1];
      assert SortedByStart(p);
      SortByStartSorted(p);
      InsertByStartAtEnd(p, s[|s| - 1]);
      assert s == p + [s[|s| - 1]];
    }
  }

  // ---------------------------------------------------------------------
  // Insert, update, delete, toggle

  /** `addTask`: append, then re-sort the whole list by start time. */
  function AddTask(tasks: seq<Task>, task: Task): (r: seq<Task>)
    ensures |r| == |tasks| + 1
    ensures SortedByStart(r)
    ensures multiset(r) == multiset(tasks) + multiset{task}
  {
    SortByStart(tasks + [task])
  }

  /** On a list that is already sorted, adding a task keeps every old task in
      place relative to the others and slots the new one in after every task
      that starts no later than it. */
  lemma AddTaskToSorted(tasks: seq<Task>, task: Task)
    requires SortedByStart(tasks)
    ensures AddTask(tasks, task) == InsertByStart(tasks, task)
  {
    var s := tasks + [task];
    assert s[..|s| - 1] == tasks;
    SortByStartSorted(tasks);
  }

  /** `tasks.findIndex(t => t.id === id)`, with -1 as `None`. */
  function FindIndex(tasks: seq<Task>, id: string): (r: Option<nat>)
    ensures r.Some? ==> r.value < |tasks| && tasks[r.value].id == id
    ensures r.Some? ==> forall j :: 0 <= j < r.value ==> tasks[j].id != id
    ensures r.None? ==> forall j :: 0 <= j < |tasks| ==> tasks[j].id != id
  {
    if tasks == [] then None
    else if tasks[0].id == id then Some(0)
    else
      match FindIndex(tasks[1..], id)
      case None => None
      case Some(k) => Some(k + 1)
  }

  /** `updateTask`: every task carrying the updated task's id is replaced by it. */
  function UpdateTask(tasks: seq<Task>, updated: Task): (r: seq<Task>)
    ensures |r| == |tasks|
    ensures forall i :: 0 <= i < |tasks| && tasks[i].id == updated.id ==> r[i] == updated
    ensures forall i :: 0 <= i < |tasks| && tasks[i].id != updated.id ==> r[i] == tasks[i]
  {
    if tasks == [] then []
    else [if tasks[0].id == updated.id then updated else tasks[0]] + UpdateTask(tasks[1..], updated)
  }

  lemma UpdateTaskAbsent(tasks: seq<Task>, updated: Task)
    requires forall i :: 0 <= i < |tasks| ==> tasks[i].id != updated.id
    ensures UpdateTask(tasks, updated) == tasks
  {
  }

  /** An update that keeps the start time keeps the timeline sorted; otherwise
      re-sorting is the caller's business, as in the source. */
  lemma UpdateTaskKeepsSorted(tasks: seq<Task>, updated: Task)
    requires SortedByStart(tasks)
    requires forall i :: 0 <= i < |tasks| && tasks[i].id == updated.id ==> tasks[i].startTime == updated.startTime
    ensures SortedByStart(UpdateTask(tasks, updated))
  {
  }

  /** `deleteTask`: keep exactly the tasks whose id differs. */
  function DeleteTask(tasks: seq<Task>, id: string): (r: seq<Task>)
    ensures |r| <= |tasks|
    ensures forall t :: t in r <==> t in tasks && t.id != id
  {
    if tasks == [] then []
    else if tasks[0].id != id then [tasks[0]] + DeleteTask(tasks[1..], id)
    else DeleteTask(tasks[1..], id)
  }

  lemma {:induction false} DeleteTaskAbsent(tasks: seq<Task>, id: string)
    requires forall i :: 0 <= i < |tasks| ==> tasks[i].id != id
    ensures DeleteTask(tasks, id) == tasks
  {
    if tasks != [] {
      DeleteTaskAbsent(tasks[1..], id);
    }
  }

  /** Deleting works piecewise, so the surviving tasks keep their relative order. */
  lemma {:induction false} DeleteTaskAppend(a: seq<Task>, b: seq<Task>, id: string)
    ensures DeleteTask(a + b, id) == DeleteTask(a, id) + DeleteTask(b, id)
  {
    if a != [] {
      assert (a + b)[0] == a[0] && (a + b)[1..] == a[1..] + b;
      DeleteTaskAppend(a[1..], b, id);
      if a[0].id != id {
        assert DeleteTask(a + b, id) == [a[0]] + DeleteTask(a[1..] + b, id);
        assert DeleteTask(a, id) == [a[0]] + DeleteTask(a[1..], id);
      }
    } else {
      assert a + b == b;
    }
  }

  lemma {:induction false} DeleteTaskKeepsSorted(tasks: seq<Task>, id: string)
    requires SortedByStart(tasks)
    ensures SortedByStart(DeleteTask(tasks, id))
  {
    if tasks != [] {
      assert SortedByStart(tasks[1..]);
      DeleteTaskKeepsSorted(tasks[1..], id);
      var rest := DeleteTask(tasks[1..], id);
      if tasks[0].id != id {
        forall y | y in rest
          ensures StrLe(tasks[0].startTime, y.startTime)
        {
          var j :| 0 <= j < |tasks[1..]| && tasks[1..][j] == y;
          assert tasks[j + 1] == y;
        }
        ConsSorted(tasks[0], rest);
      }
    }
  }

  /** `toggleTaskCompletion`: flip `completed` on the tasks with the id. */
  function ToggleTaskCompletion(tasks: seq<Task>, id: string): (r: seq<Task>)
    ensures |r| == |tasks|
    ensures forall i :: 0 <= i < |tasks| && tasks[i].id == id ==>
      r[i] == tasks[i].(completed := !tasks[i].completed)
    ensures forall i :: 0 <= i < |tasks| && tasks[i].id != id ==> r[i] == tasks[i]
  {
    if tasks == [] then []
    else
      [if tasks[0].id == id then tasks[0].(completed := !tasks[0].completed) else tasks[0]]
      + ToggleTaskCompletion(tasks[1..], id)
  }

  lemma ToggleTwice(tasks: seq<Task>, id: string)
    ensures ToggleTaskCompletion(ToggleTaskCompletion(tasks, id), id) == tasks
  {
  }

  // ---------------------------------------------------------------------
  // Cascading reschedule

  /** The only caller passes +15; the source itself does not stop a negative
      amount from making the duration zero or less, so that is required here. */
  predicate RescheduleAllowed(tasks: seq<Task>, taskId: string, extraMinutes: int) {
    match FindIndex(tasks, taskId)
    case None => true
    case Some(k) => tasks[k].duration + extraMinutes > 0
  }

  /** `cur` is `orig` moved to start, on the clock, when `prev` ends: its
      start time is the well-formed time whose minute of the day is the end of
      `prev` modulo a day, and nothing else about it changes. */
  predicate PackedAfter(prev: Task, cur: Task, orig: Task) {
    && IsHHmm(prev.startTime) && IsHHmm(cur.startTime)
    && Minutes(cur.startTime) == (Minutes(prev.startTime) + prev.duration) % MinutesPerDay
    && cur == orig.(startTime := cur.startTime)
  }

  /** Element `j` of the rewritten prefix `p` is packed after element `j - 1`. */
  predicate PackedAt(p: seq<Task>, tasks: seq<Task>, j: nat)
    requires 0 < j < |p| <= |tasks|
  {
    PackedAfter(p[j - 1], p[j], tasks[j])
  }

  /** `p` is the first `|p|` tasks of what the reschedule makes of `tasks`
      when the target sits at index `k`: the tasks before it are untouched,
      its duration grows by `extraMinutes`, and every later task, in list
      order, is moved to start where the one before it (as already rewritten)
      ends. */
  predicate CascadedPrefix(tasks: seq<Task>, k: nat, extraMinutes: int, p: seq<Task>)
    requires k < |p| <= |tasks|
  {
    && (forall j :: 0 <= j < k ==> p[j] == tasks[j])
    && p[k] == tasks[k].(duration := tasks[k].duration + extraMinutes)
    && (forall j :: k < j < |p| ==> PackedAt(p, tasks, j))
  }

  /** The whole rescheduled list. */
  predicate RescheduledAt(tasks: seq<Task>, k: nat, extraMinutes: int, r: seq<Task>)
    requires k < |tasks|
  {
    |r| == |tasks| && CascadedPrefix(tasks, k, extraMinutes, r)
  }

  /** A cascade prefix extended by a task packed after its last element is
      again a cascade prefix. */
  lemma CascadedPrefixSnoc(tasks: seq<Task>, k: nat, extra: int, p: seq<Task>, moved: Task)
    requires k < |p| < |tasks| && CascadedPrefix(tasks, k, extra, p)
    requires PackedAfter(p[|p| - 1], moved, tasks[|p|])
    ensures CascadedPrefix(tasks, k, extra, p + [moved])
  {
    var q := p + [moved];
    forall j | k < j < |p|
      ensures PackedAt(q, tasks, j)
    {
      assert PackedAt(p, tasks, j);
      assert q[j - 1] == p[j - 1] && q[j] == p[j];
    }
    assert PackedAt(q, tasks, |p|);
    assert forall j :: 0 <= j <= k ==> q[j] == p[j];
  }

  /** Before the loop: lengthening the target alone is a cascade prefix. */
  lemma CascadeStart(tasks: seq<Task>, k: nat, extra: int)
    requires k < |tasks|
    ensures var s := tasks[k := tasks[k].(duration := tasks[k].duration + extra)];
      CascadedPrefix(tasks, k, extra, s[..k + 1]) && s[k + 1..] == tasks[k + 1..]
  {
  }

  /** One turn of the reschedule loop: with the first `i` elements of `s`
      already rewritten and the rest still the original tasks, moving element
      `i` to where element `i - 1` ends extends the cascade by one element. */
  lemma CascadeStep(tasks: seq<Task>, k: nat, extra: int, s: seq<Task>, i: nat)
    requires AllValid(tasks) && k < |tasks| && tasks[k].duration + extra > 0
    requires k < i < |s| == |tasks|
    requires CascadedPrefix(tasks, k, extra, s[..i]) && s[i..] == tasks[i..]
    ensures ValidTask(s[i - 1])
    ensures var s' := s[i := s[i].(startTime := ClockAfter(s[i - 1].startTime, s[i - 1].duration))];
      CascadedPrefix(tasks, k, extra, s'[..i + 1]) && s'[i + 1..] == tasks[i + 1..]
  {
    var p := s[..i];
    assert p[i - 1] == s[i - 1] && s[i] == tasks[i];
    CascadedPrefixLastValid(tasks, k, extra, p);
    var moved := s[i].(startTime := ClockAfter(s[i - 1].startTime, s[i - 1].duration));
    MovedPacked(s[i - 1], s[i]);
    CascadedPrefixSnoc(tasks, k, extra, p, moved);
    var s' := s[i := moved];
    assert s'[..i + 1] == p + [moved];
    assert s'[i + 1..] == s[i + 1..];
  }

  /** The last task of a cascade prefix is again well-formed. */
  lemma CascadedPrefixLastValid(tasks: seq<Task>, k: nat, extra: int, p: seq<Task>)
    requires k < |p| <= |tasks| && CascadedPrefix(tasks, k, extra, p)
    requires AllValid(tasks) && tasks[k].duration + extra > 0
    ensures ValidTask(p[|p| - 1])
  {
    var i := |p| - 1;
    assert ValidTask(tasks[i]);
    if i > k {
      assert PackedAt(p, tasks, i);
    }
  }

  /** Moving a task to start where a well-formed task ends packs it after that task. */
  lemma MovedPacked(prev: Task, cur: Task)
    requires ValidTask(prev)
    ensures PackedAfter(prev, cur.(startTime := ClockAfter(prev.startTime, prev.duration)), cur)
  {
  }

  /** `r` is what `handleReschedule(taskId, extraMinutes)` makes of `tasks`:
      the list itself when no task has the id, otherwise the cascade from the
      first task that has it. */
  predicate IsRescheduled(tasks: seq<Task>, taskId: string, extraMinutes: int, r: seq<Task>) {
    match FindIndex(tasks, taskId)
    case None => r == tasks
    case Some(k) => RescheduledAt(tasks, k, extraMinutes, r)
  }

  /** `handleReschedule`: copy the list, lengthen the target in place, then
      rewrite each later element from the one before it. */
  method Reschedule(tasks: seq<Task>, taskId: string, extraMinutes: int) returns (r: seq<Task>)
    requires AllValid(tasks)
    requires RescheduleAllowed(tasks, taskId, extraMinutes)
    ensures IsRescheduled(tasks, taskId, extraMinutes, r)
  {
    var found := FindIndex(tasks, taskId);
    if found.None? {
      return tasks;
    }
    var k := found.value;
    var newTasks := tasks;
    CascadeStart(tasks, k, extraMinutes);
    newTasks := newTasks[k := newTasks[k].(duration := newTasks[k].duration + extraMinutes)];
    for i := k + 1 to |newTasks|
      invariant |newTasks| == |tasks|
      invariant CascadedPrefix(tasks, k, extraMinutes, newTasks[..i])
      invariant newTasks[i..] == tasks[i..]
    {
      var prevTask, currentTask := newTasks[i - 1], newTasks[i];
      CascadeStep(tasks, k, extraMinutes, newTasks, i);
      newTasks := newTasks[i := currentTask.(startTime := ClockAfter(prevTask.startTime, prevTask.duration))];
    }
    assert newTasks == newTasks[..|newTasks|];
    return newTasks;
  }

  lemma {:induction false} RescheduledAgree(tasks: seq<Task>, k: nat, extra: int, r1: seq<Task>, r2: seq<Task>, j: nat)
    requires k < |tasks| && j < |tasks|
    requires RescheduledAt(tasks, k, extra, r1) && RescheduledAt(tasks, k, extra, r2)
    ensures r1[j] == r2[j]
  {
    if j > k {
      RescheduledAgree(tasks, k, extra, r1, r2, j - 1);
      assert PackedAt(r1, tasks, j) && PackedAt(r2, tasks, j);
      MinutesInjective(r1[j].startTime, r2[j].startTime);
    }
  }

  /** The reschedule result is determined by its inputs. */
  lemma RescheduledUnique(tasks: seq<Task>, taskId: string, extra: int, r1: seq<Task>, r2: seq<Task>)
    requires IsRescheduled(tasks, taskId, extra, r1) && IsRescheduled(tasks, taskId, extra, r2)
    ensures r1 == r2
  {
    match FindIndex(tasks, taskId)
    case None =>
    case Some(k) =>
      forall j | 0 <= j < |tasks|
        ensures r1[j] == r2[j]
      {
        RescheduledAgree(tasks, k, extra, r1, r2, j);
      }
  }

  /** What a reschedule changes and what it leaves alone: same length and ids
      in the same order; only start times move, and only after the target;
      only the target's duration changes, by exactly `extra`; every result
      task is again well-formed. */
  lemma RescheduledFrame(tasks: seq<Task>, k: nat, extra: int, r: seq<Task>)
    requires k < |tasks| && AllValid(tasks) && tasks[k].duration + extra > 0
    requires RescheduledAt(tasks, k, extra, r)
    ensures |r| == |tasks| && AllValid(r)
    ensures forall j :: 0 <= j < |r| ==> r[j].id == tasks[j].id
    ensures forall j :: 0 <= j < |r| ==>
      r[j] == tasks[j].(startTime := r[j].startTime, duration := r[j].duration)
    ensures r[k].duration == tasks[k].duration + extra
    ensures forall j :: 0 <= j < |r| && j != k ==> r[j].duration == tasks[j].duration
    ensures forall j :: 0 <= j <= k ==> r[j].startTime == tasks[j].startTime
  {
    forall j | k < j < |r|
      ensures r[j] == tasks[j].(startTime := r[j].startTime) && IsHHmm(r[j].startTime)
    {
      assert PackedAt(r, tasks, j);
    }
  }

  /** The cascade in minutes: each task after the target starts where its
      predecessor ends, wrapped into the day. */
  lemma RescheduledCascade(tasks: seq<Task>, k: nat, extra: int, r: seq<Task>, j: nat)
    requires k < j < |tasks| && RescheduledAt(tasks, k, extra, r)
    ensures IsHHmm(r[j - 1].startTime) && IsHHmm(r[j].startTime)
    ensures Minutes(r[j].startTime) == (Minutes(r[j - 1].startTime) + r[j - 1].duration) % MinutesPerDay
  {
    assert PackedAt(r, tasks, j);
  }

  /** Shifting a start time by `extra` and then adding a duration is, modulo
      a day, the same as adding both at once. */
  lemma ShiftStep(start: int, d: int, extra: int, a: int, m: int)
    requires a == (start + extra) % MinutesPerDay
    requires m == (a + d) % MinutesPerDay
    ensures m == (start + d + extra) % MinutesPerDay
  {
    var x := start + extra;
    var q := x / MinutesPerDay;
    assert x == MinutesPerDay * q + a;
    assert x + d == MinutesPerDay * q + (a + d);
  }

  /** When the tasks after the target were already back to back (and none of
      them ran past midnight), stretching the target by `extra` minutes pushes
      each of them later by exactly `extra` minutes, modulo a day. */
  lemma {:induction false} RescheduledShiftsPackedTail(tasks: seq<Task>, k: nat, extra: int, r: seq<Task>, j: nat)
    requires k < j < |tasks| && AllValid(tasks) && RescheduledAt(tasks, k, extra, r)
    requires forall i :: k < i < |tasks| ==>
      Minutes(tasks[i].startTime) == Minutes(tasks[i - 1].startTime) + tasks[i - 1].duration
    ensures IsHHmm(r[j].startTime)
    ensures Minutes(r[j].startTime) == (Minutes(tasks[j].startTime) + extra) % MinutesPerDay
  {
    RescheduledCascade(tasks, k, extra, r, j);
    assert ValidTask(tasks[j - 1]) && ValidTask(tasks[j]);
    var prevStart := Minutes(tasks[j - 1].startTime);
    var d := tasks[j - 1].duration;
    var a := Minutes(r[j - 1].startTime);
    var m := Minutes(r[j].startTime);
    assert Minutes(tasks[j].startTime) == prevStart + d;
    if j - 1 > k {
      RescheduledShiftsPackedTail(tasks, k, extra, r, j - 1);
      assert r[j - 1].duration == d by {
        assert PackedAt(r, tasks, j - 1);
      }
      ShiftStep(prevStart, d, extra, a, m);
    } else {
      assert a == prevStart && r[j - 1].duration == d + extra;
    }
  }

  /** Example: 08:00 for 30 minutes and 09:00 for 20; "+15" on the first
      gives 08:00 for 45 minutes, then 08:45 for 20, so the gap closes and
      the second task moves earlier. */
  lemma RescheduleExample(r: seq<Task>)
    requires IsRescheduled(
      [Task("a", "Read", "08:00", 30, Study, Medium, false, [], false, None),
       Task("b", "Run", "09:00", 20, Health, Low, false, [], false, None)], "a", 15, r)
    ensures r ==
      [Task("a", "Read", "08:00", 45, Study, Medium, false, [], false, None),
       Task("b", "Run", "08:45", 20, Health, Low, false, [], false, None)]
  {
    var tasks :=
      [Task("a", "Read", "08:00", 30, Study, Medium, false, [], false, None),
       Task("b", "Run", "09:00", 20, Health, Low, false, [], false, None)];
    assert FindIndex(tasks, "a") == Some(0);
    assert RescheduledAt(tasks, 0, 15, r);
    assert PackedAt(r, tasks, 1);
    assert Minutes("08:00") == 480 && IsHHmm("08:45") && Minutes("08:45") == 525;
    MinutesInjective(r[1].startTime, "08:45");
  }
}
