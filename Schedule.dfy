/** The read-only helpers of components/Schedule.tsx: the "start - end"
    label of a task, the conflict flag between adjacent tasks, and the
    checkpoint percentage. */
module Schedule {
  import opened Text
  import opened Clock
  import opened Types
  import opened Timeline
  import opened Goals

  /** `formatTime(time, duration)`: `"<time> - <end>"`, where the end is the
      time of day `duration` minutes after `time`. */
  function FormatTime(time: string, duration: int): (shown: string)
    requires IsHHmm(time) && Minutes(time) + duration >= 0
    ensures |shown| == 13 && shown[..5] == time && shown[5..8] == " - "
    ensures IsHHmm(shown[8..])
    ensures Minutes(shown[8..]) == (Minutes(time) + duration) % MinutesPerDay
  {
    var shown := time + " - " + ClockAfter(time, duration);
    assert shown[8..] == ClockAfter(time, duration);
    shown
  }

  /** The end time a label shows. */
  function LabelEnd(shown: string): string
    requires |shown| >= 8
  {
    shown[8..]
  }

  /** The conflict flag of the task at `index`: neither it nor its
      predecessor allows overlap, and it starts before the predecessor's end,
      counted in minutes from midnight of the predecessor's day (no wrap). */
  function HasConflict(tasks: seq<Task>, index: nat): (flag: bool)
    requires index < |tasks|
    requires index > 0 ==> IsHHmm(tasks[index - 1].startTime) && IsHHmm(tasks[index].startTime)
    ensures flag ==> index > 0 && !tasks[index].overlapAllowed && !tasks[index - 1].overlapAllowed
    ensures (&& index > 0 && !tasks[index].overlapAllowed && !tasks[index - 1].overlapAllowed
             && tasks[index - 1].duration > 0 && tasks[index].startTime == tasks[index - 1].startTime)
      ==> flag
  {
    && index > 0
    && !tasks[index].overlapAllowed
    && !tasks[index - 1].overlapAllowed
    && Minutes(tasks[index].startTime) < Minutes(tasks[index - 1].startTime) + tasks[index - 1].duration
  }

  /** The flag is never raised on the first task, nor on a pair where either
      task allows overlap. */
  lemma NoConflictWhenAllowed(tasks: seq<Task>, index: nat)
    requires index < |tasks| && AllValid(tasks)
    requires index == 0 || tasks[index].overlapAllowed || tasks[index - 1].overlapAllowed
    ensures !HasConflict(tasks, index)
  {
  }

  /** On a timeline sorted by start time, the flag is raised exactly when the
      two adjacent tasks, as intervals of minutes within the day, intersect. */
  lemma ConflictIffOverlap(tasks: seq<Task>, index: nat)
    requires 0 < index < |tasks| && AllValid(tasks) && SortedByStart(tasks)
    requires !tasks[index].overlapAllowed && !tasks[index - 1].overlapAllowed
    ensures var p, c := tasks[index - 1], tasks[index];
      var ps, cs := Minutes(p.startTime), Minutes(c.startTime);
      HasConflict(tasks, index) <==> (cs < ps + p.duration && ps < cs + c.duration)
  {
    var p, c := tasks[index - 1], tasks[index];
    assert ValidTask(p) && ValidTask(c);
    assert StrLe(p.startTime, c.startTime);
    HHmmOrder(p.startTime, c.startTime);
  }

  /** A task the reschedule cascade moved is flagged exactly when neither it
      nor its predecessor allows overlap and the predecessor ends at or
      after midnight: the new start is the predecessor's end taken modulo a day,
      and the flag compares it with the unwrapped end. */
  lemma RescheduledConflict(tasks: seq<Task>, k: nat, extra: int, r: seq<Task>, i: nat)
    requires k < i < |tasks| && AllValid(tasks) && tasks[k].duration + extra > 0
    requires RescheduledAt(tasks, k, extra, r)
    ensures AllValid(r)
    ensures HasConflict(r, i) <==>
      && !r[i].overlapAllowed && !r[i - 1].overlapAllowed
      && Minutes(r[i - 1].startTime) + r[i - 1].duration >= MinutesPerDay
  {
    RescheduledFrame(tasks, k, extra, r);
    RescheduledCascade(tasks, k, extra, r, i);
    assert ValidTask(r[i - 1]);
  }

  /** In particular, when the predecessor ends before midnight the moved task
      is not flagged. */
  lemma RescheduledNoConflictBeforeMidnight(tasks: seq<Task>, k: nat, extra: int, r: seq<Task>, i: nat)
    requires k < i < |tasks| && AllValid(tasks) && tasks[k].duration + extra > 0
    requires RescheduledAt(tasks, k, extra, r)
    requires IsHHmm(r[i - 1].startTime) && Minutes(r[i - 1].startTime) + r[i - 1].duration < MinutesPerDay
    ensures AllValid(r) && !HasConflict(r, i)
  {
    RescheduledConflict(tasks, k, extra, r, i);
  }

  /** The end the label of task `i - 1` shows is the start the cascade gives
      task `i`: the two share one time-of-day computation. */
  lemma LabelEndIsNextStart(tasks: seq<Task>, k: nat, extra: int, r: seq<Task>, i: nat)
    requires k < i < |tasks| && AllValid(tasks) && tasks[k].duration + extra > 0
    requires RescheduledAt(tasks, k, extra, r)
    ensures AllValid(r)
    ensures LabelEnd(FormatTime(r[i - 1].startTime, r[i - 1].duration)) == r[i].startTime
  {
    RescheduledFrame(tasks, k, extra, r);
    RescheduledCascade(tasks, k, extra, r, i);
    assert ValidTask(r[i - 1]) && ValidTask(r[i]);
    var shown := FormatTime(r[i - 1].startTime, r[i - 1].duration);
    MinutesInjective(shown[8..], r[i].startTime);
  }

  /** Example: 08:00 for an hour, then 08:30, is flagged. */
  lemma ConflictExample()
    ensures var a := Task("a", "Gym", "08:00", 60, Health, Medium, false, [], false, None);
      var b := Task("b", "Mail", "08:30", 30, Work, Low, false, [], false, None);
      HasConflict([a, b], 1)
  {
    assert Minutes("08:00") == 480 && Minutes("08:30") == 510;
  }

  /** `task.checkpoints.filter(c => c.completed).length`: the count
      `Goals.CompletedCount` makes of tasks, made here of checkpoints. */
  function CheckpointsDone(cps: seq<Checkpoint>): (c: nat)
    ensures c <= |cps|
    ensures c == |cps| <==> forall i :: 0 <= i < |cps| ==> cps[i].completed
    ensures c == 0 <==> forall i :: 0 <= i < |cps| ==> !cps[i].completed
  {
    if cps == [] then 0
    else
      var rest := CheckpointsDone(cps[1..]);
      assert forall i :: 1 <= i < |cps| ==> cps[i] == cps[1..][i - 1];
      (if cps[0].completed then 1 else 0) + rest
  }

  /** The checkpoint percentage, shown only for a task with checkpoints. */
  function CheckpointPercent(cps: seq<Checkpoint>): (p: nat)
    requires |cps| > 0
    ensures p <= 100
    ensures |cps| * (2 * p - 1) <= 200 * CheckpointsDone(cps) < |cps| * (2 * p + 1)
  {
    RoundedPercent(CheckpointsDone(cps), |cps|)
  }

  /** With fewer than 200 checkpoints, 100% means all are done and 0% none. */
  lemma CheckpointPercentEnds(cps: seq<Checkpoint>)
    requires 0 < |cps| < 200
    ensures CheckpointPercent(cps) == 100 <==> forall i :: 0 <= i < |cps| ==> cps[i].completed
    ensures CheckpointPercent(cps) == 0 <==> forall i :: 0 <= i < |cps| ==> !cps[i].completed
  {
    RoundedPercentEnds(CheckpointsDone(cps), |cps|);
  }
}
