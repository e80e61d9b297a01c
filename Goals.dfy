/** The goal/streak evaluator of App.tsx: the completion percentage of the
    day's tasks, whether it reaches the target, and the day-end transition of
    `(streak, lastCompletedDate)`. Calendar dates are day numbers; the day
    before `today` is `today - 1`. */
module Goals {
  import opened Types

  /** `tasks.filter(t => t.completed).length` */
  function CompletedCount(tasks: seq<Task>): (c: nat)
    ensures c <= |tasks|
    ensures c == |tasks| <==> forall i :: 0 <= i < |tasks| ==> tasks[i].completed
    ensures c == 0 <==> forall i :: 0 <= i < |tasks| ==> !tasks[i].completed
  {
    if tasks == [] then 0
    else
      var rest := CompletedCount(tasks[1..]);
      assert forall i :: 1 <= i < |tasks| ==> tasks[i] == tasks[1..][i - 1];
      (if tasks[0].completed then 1 else 0) + rest
  }

  /** `Math.round(c / n * 100)` on exact rationals: the integer `r` with
      `r - 1/2 <= 100 c / n < r + 1/2`, so halves round up. */
  function RoundedPercent(c: nat, n: nat): (r: nat)
    requires 0 < n && c <= n
    ensures n * (2 * r - 1) <= 200 * c < n * (2 * r + 1)
    ensures r <= 100
  {
    RoundedPercentBounds(c, n);
    (200 * c + n) / (2 * n)
  }

  lemma RoundedPercentBounds(c: nat, n: nat)
    requires 0 < n && c <= n
    ensures var q := (200 * c + n) / (2 * n);
      n * (2 * q - 1) <= 200 * c < n * (2 * q + 1) && 0 <= q <= 100
  {
    var x, d := 200 * c + n, 2 * n;
    var q := x / d;
    assert d * q <= x < d * q + d;
    assert n * (2 * q - 1) == d * q - n;
    assert n * (2 * q + 1) == d * q + n;
    if q > 100 {
      MulMonotone(d, 101, q);
    }
  }

  lemma MulMonotone(d: nat, a: nat, b: nat)
    requires a <= b
    ensures d * a <= d * b
  {
    assert d * b == d * a + d * (b - a);
  }

  /** The rounding is determined by its bounds: at most one integer lies in
      the half-open interval. */
  lemma RoundedPercentUnique(c: nat, n: nat, r: int)
    requires 0 < n && c <= n
    requires n * (2 * r - 1) <= 200 * c < n * (2 * r + 1)
    ensures r == RoundedPercent(c, n)
  {
    var q := RoundedPercent(c, n);
    if r < q {
      MulMonotone(n, 2 * r + 1, 2 * q - 1);
    } else if r > q {
      MulMonotone(n, 2 * q + 1, 2 * r - 1);
    }
  }

  lemma RoundedPercentEnds(c: nat, n: nat)
    requires 0 < n && c <= n
    ensures c == n ==> RoundedPercent(c, n) == 100
    ensures c == 0 ==> RoundedPercent(c, n) == 0
    ensures 0 < c < n && n < 200 ==> 0 < RoundedPercent(c, n) < 100
  {
    if c == n {
      RoundedPercentUnique(c, n, 100);
    } else if c == 0 {
      RoundedPercentUnique(c, n, 0);
    }
  }

  /** `calculateProgress`: 0 for an empty list, otherwise the rounded
      percentage of completed tasks. */
  function CalculateProgress(tasks: seq<Task>): (p: nat)
    ensures p <= 100
    ensures tasks == [] ==> p == 0
    ensures tasks != [] ==>
      |tasks| * (2 * p - 1) <= 200 * CompletedCount(tasks) < |tasks| * (2 * p + 1)
  {
    if |tasks| == 0 then 0 else RoundedPercent(CompletedCount(tasks), |tasks|)
  }

  /** With fewer than 200 tasks the percentage is 100 exactly when every task
      is completed, and 0 exactly when none is. */
  lemma ProgressEnds(tasks: seq<Task>)
    requires |tasks| < 200
    ensures tasks != [] ==>
      (CalculateProgress(tasks) == 100 <==> forall i :: 0 <= i < |tasks| ==> tasks[i].completed)
    ensures tasks != [] ==>
      (CalculateProgress(tasks) == 0 <==> forall i :: 0 <= i < |tasks| ==> !tasks[i].completed)
  {
    if tasks != [] {
      RoundedPercentEnds(CompletedCount(tasks), |tasks|);
    }
  }

  /** From 200 tasks on, rounding reaches 100 with a task still open:
      200 of 201 completed is 99.5...%, shown as 100. */
  lemma ProgressRoundsUpToFull()
    ensures RoundedPercent(200, 201) == 100
  {
    RoundedPercentUnique(200, 201, 100);
  }

  /** Three of four tasks completed is 75%. */
  lemma ProgressExample()
    ensures RoundedPercent(3, 4) == 75
  {
    RoundedPercentUnique(3, 4, 75);
  }

  /** `calculateProgress(tasks) >= goal.targetPercentage` */
  function IsGoalMet(tasks: seq<Task>, targetPercentage: int): (met: bool)
    ensures targetPercentage <= 0 ==> met
    ensures targetPercentage > 100 ==> !met
    ensures tasks == [] ==> (met <==> targetPercentage <= 0)
  {
    CalculateProgress(tasks) >= targetPercentage
  }

  /** With a target of 70, a day at exactly 70% is met and one at 69% is not:
      7 of 10 tasks, and 9 of 13 (69.2...%). */
  lemma GoalMetAtTarget(tasks: seq<Task>)
    requires |tasks| == 10 || |tasks| == 13
    requires |tasks| == 10 ==> CompletedCount(tasks) == 7
    requires |tasks| == 13 ==> CompletedCount(tasks) == 9
    ensures IsGoalMet(tasks, 70) <==> |tasks| == 10
  {
    if |tasks| == 10 {
      RoundedPercentUnique(7, 10, 70);
    } else {
      RoundedPercentUnique(9, 13, 69);
    }
  }

  /** The streak after a day-end on `today`, as `completeDay` computes it. */
  function NextStreak(met: bool, streak: nat, last: Option<int>, today: int): (s: nat)
    ensures !met ==> s == streak
    ensures met && last == Some(today - 1) ==> s == streak + 1
    ensures met && last == Some(today) ==> s == streak
    ensures met && last != Some(today - 1) && last != Some(today) ==> s == 1
  {
    if !met then streak
    else if last == Some(today - 1) then streak + 1
    else if last != Some(today) then 1
    else streak
  }

  /** `completeDay(reflection)` on day `today`. */
  function CompleteDay(data: AppData, reflection: string, today: int): (r: AppData)
    ensures r.tasks == data.tasks
    ensures r.goal == data.goal.(reflection := reflection)
    ensures r.lastCompletedDate == Some(today)
    ensures r.streak == NextStreak(IsGoalMet(data.tasks, data.goal.targetPercentage), data.streak, data.lastCompletedDate, today)
  {
    var isMet := IsGoalMet(data.tasks, data.goal.targetPercentage);
    var newStreak := NextStreak(isMet, data.streak, data.lastCompletedDate, today);
    data.(goal := data.goal.(reflection := reflection), streak := newStreak, lastCompletedDate := Some(today))
  }

  /** Running day-end a second time on the same day changes only the
      reflection: the streak is not counted twice. */
  lemma CompleteDayTwice(data: AppData, first: string, second: string, today: int)
    ensures CompleteDay(CompleteDay(data, first, today), second, today)
      == CompleteDay(data, second, today).(streak := CompleteDay(data, first, today).streak)
    ensures CompleteDay(CompleteDay(data, first, today), second, today).streak == CompleteDay(data, first, today).streak
  {
  }

  /** Day-ends on `n` consecutive days, each with the same reflection. */
  function CompleteDays(data: AppData, reflection: string, firstDay: int, n: nat): AppData
    decreases n
  {
    if n == 0 then data
    else CompleteDays(CompleteDay(data, reflection, firstDay), reflection, firstDay + 1, n - 1)
  }

  /** After a met day, meeting the goal on each of the next `n` days raises
      the streak by exactly `n`. */
  lemma {:induction false} ConsecutiveDays(data: AppData, reflection: string, firstDay: int, n: nat)
    requires data.lastCompletedDate == Some(firstDay - 1)
    requires IsGoalMet(data.tasks, data.goal.targetPercentage)
    ensures CompleteDays(data, reflection, firstDay, n).streak == data.streak + n
    ensures n > 0 ==> CompleteDays(data, reflection, firstDay, n).lastCompletedDate == Some(firstDay + n - 1)
    decreases n
  {
    if n > 0 {
      var next := CompleteDay(data, reflection, firstDay);
      assert next.goal.targetPercentage == data.goal.targetPercentage;
      ConsecutiveDays(next, reflection, firstDay + 1, n - 1);
    }
  }

  /** Meeting the goal after a gap of two days or more starts a new streak. */
  lemma GapResets(data: AppData, reflection: string, today: int, last: int)
    requires data.lastCompletedDate == Some(last) && last < today - 1
    requires IsGoalMet(data.tasks, data.goal.targetPercentage)
    ensures CompleteDay(data, reflection, today).streak == 1
  {
  }

  /** A missed day leaves the streak as it was, yet it records the day as
      the last completed one: meeting the goal on the next day, with the task
      list changed to `later`, then continues the old streak. */
  lemma MissedDayKeepsStreak(data: AppData, later: seq<Task>, r1: string, r2: string, today: int)
    requires !IsGoalMet(data.tasks, data.goal.targetPercentage)
    requires IsGoalMet(later, data.goal.targetPercentage)
    ensures CompleteDay(data, r1, today).streak == data.streak
    ensures CompleteDay(CompleteDay(data, r1, today).(tasks := later), r2, today + 1).streak == data.streak + 1
  {
  }

  /** `saveGoal(goal)`: the goal is replaced, nothing else changes. */
  function SaveGoal(data: AppData, goal: DailyGoal): (r: AppData)
    ensures r.goal == goal
    ensures r.tasks == data.tasks && r.streak == data.streak && r.lastCompletedDate == data.lastCompletedDate
  {
    data.(goal := goal)
  }

  /** Saving the goal a second time discards the first save. */
  lemma SaveGoalLastWins(data: AppData, g1: DailyGoal, g2: DailyGoal)
    ensures SaveGoal(SaveGoal(data, g1), g2) == SaveGoal(data, g2)
  {
  }

  /** The state the app starts from when nothing was stored. */
  function InitialData(): (d: AppData)
    ensures d.tasks == [] && d.streak == 0 && d.lastCompletedDate.None?
    ensures d.goal == DailyGoal(70, "", "", "")
  {
    AppData([], DailyGoal(70, "", "", ""), 0, None)
  }

  /** On the initial data the progress is 0, below the 70% target, so the
      first day-end keeps the streak at 0. */
  lemma InitialDayEnd(reflection: string, today: int)
    ensures CalculateProgress(InitialData().tasks) == 0
    ensures !IsGoalMet(InitialData().tasks, InitialData().goal.targetPercentage)
    ensures CompleteDay(InitialData(), reflection, today).streak == 0
  {
  }
}
