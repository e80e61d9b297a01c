# Smart-Scheduler core in Dafny

Smart-Scheduler is a single-page app for planning one day. The user keeps a
timeline of tasks. Each task has:

- a start time, stored as an `HH:mm` string;
- a duration in minutes;
- a category and a priority;
- a list of checkpoints;
- a completion flag.

The app computes the share of completed tasks, compares it with a daily
target, and at day-end advances a streak of met days.

This project models the logic behind those screens and proves what it
promises. The code lives in `App.tsx` and in the `Schedule`, `Dashboard`,
`TaskForm` and `FocusMode` components. None of the React rendering is
modelled. The modules are:

- `Text`: decimal digits, `padStart(2, '0')`, the white space `trim()`
  removes, and the code-point order of strings.
- `Clock`: `HH:mm` strings and minutes since midnight, in both directions.
  It also holds the end-time arithmetic that App.tsx and Schedule.tsx share.
- `Types`: the records of `types.ts`.
- `Timeline`: App.tsx's task-list operations.
  - `addTask` appends and then sorts by start time.
  - `updateTask`, `deleteTask` and `toggleTaskCompletion` work by id.
  - `handleReschedule` is the "+15 min" push. The `Timeline.Reschedule`
    method writes that one as the source does: a loop that rewrites each
    later task from the one before it. Its loop is proved against the
    `RescheduledAt` specification.
- `Goals`: `calculateProgress`, `completeDay`, `saveGoal` and the initial
  data.
  - Progress uses `Math.round`, modelled as exact half-up rounding.
  - The streak rule is stated as a function of the goal check, the stored
    date and today.
- `Schedule`: the `start - end` label, the advisory conflict flag between
  neighbouring tasks, and the checkpoint percentage.
- `Dashboard`: the dashboard's progress and goal check, the pie and bar
  series per category, and the punishment banner.
- `TaskForm`: the form's initial fields, adding and removing checkpoints,
  and the task record the form saves.
- `FocusMode`: the countdown and the `mm:ss` display. The countdown is a
  class. Its `Tick` method is proved against the `Step` function; its
  `Toggle` method flips `isActive` and keeps `timeLeft`.

Three kinds of value are represented differently from the source:

- Calendar days are integers, and yesterday is `today - 1`.
- The ids the source takes from `Date.now()` are parameters.
- `localeCompare` on start times is code-point order. `Clock.HHmmOrder`
  proves that this order equals the order of the times of day.

Two behaviours of the code are worth stating plainly:

- The reschedule button is titled "Add 15 mins (Smart Push)"
  (components/Schedule.tsx:141). The loop behind it does not simply shift the later
  tasks by 15 minutes. It packs them back to back behind the lengthened task
  (App.tsx:82-93), so a gap between tasks closes and a task after a gap can
  move earlier. `Timeline.RescheduleExample` shows one: 09:00 becomes 08:45.
  The 15-minute shift holds only for a tail that was already back to back
  (`Timeline.RescheduledShiftsPackedTail`).
- `updateTask` replaces every task carrying the id, not only the first one
  (App.tsx:58).

## Model

| member | source | states |
|---|---|---|
| Types.CategoriesEnumerated | types.ts:2-9 | There are exactly six categories, all distinct, and every category value is one of them. |
| Types.CategoryIndex | types.ts:2-9 | Every category has a position in declaration order, and the category at that position is that category. |
| Text.TrimEmptyIffBlank | components/TaskForm.tsx:24 | `trim()` is empty exactly when every character is white space. |
| Text.Pad2Value | components/FocusMode.tsx:33 | `padStart(2, '0')` of a number's decimal form still denotes that number. |
| Clock.Minutes | App.tsx:87-88 | A well-formed `HH:mm` time is a minute of the day below 1440. |
| Clock.FromMinutesOfMinutes | App.tsx:87-91 | Splitting and re-encoding a well-formed `HH:mm` string gives the same string, so times and minutes of the day are in one-to-one correspondence. |
| Clock.ClockAfter | App.tsx:87-91 | The time `d` minutes after a time is a well-formed `HH:mm` whose minute of the day is the sum modulo a day. |
| Clock.HHmmOrder | App.tsx:52 | On well-formed times, string order is the order of the times of day. |
| Timeline.SortByStart | App.tsx:52 | The sort's result is ascending by start time and a permutation of its input. |
| Timeline.InsertByStartSorted | App.tsx:52 | Inserting a task into a sorted timeline at its place keeps the timeline sorted. |
| Timeline.SortByStartSorted | App.tsx:52 | Sorting an already sorted timeline leaves it unchanged. |
| Timeline.AddTask | App.tsx:51-53 | `addTask` gives a list one longer, sorted by start time, holding exactly the old tasks plus the new one. |
| Timeline.AddTaskToSorted | App.tsx:51-53 | On a sorted timeline, adding a task gives the same list as inserting the task into the sorted list (`InsertByStart`). |
| Timeline.InsertByStartSplit | App.tsx:52 | Insertion keeps every old task in order and cuts the list after its leading run of tasks that start no later than the new one (`NoLaterPrefix`, whose contract says all of them do and the next does not); the new task goes in at the cut. |
| Timeline.InsertAfterNoLater | App.tsx:52 | In a sorted timeline the new task lands after exactly the tasks that start no later than it: all tasks before it do and none after it does. With `AddTaskToSorted` this is where `addTask` puts it. |
| Timeline.FindIndex | App.tsx:75-76 | `findIndex` gives the first index with the id, or -1 (`None`) exactly when no task has it. |
| Timeline.UpdateTask | App.tsx:55-60 | `updateTask` keeps the length, replaces every task with the id by the update, and leaves all other tasks unchanged. |
| Timeline.UpdateTaskAbsent | App.tsx:55-60 | An update whose id no task carries is the identity. |
| Timeline.UpdateTaskKeepsSorted | App.tsx:55-60 | An update that keeps the start time keeps the timeline sorted. |
| Timeline.DeleteTask | App.tsx:62-64 | `deleteTask` keeps exactly the tasks with another id. |
| Timeline.DeleteTaskAbsent | App.tsx:62-64 | Deleting an id no task carries changes nothing. |
| Timeline.DeleteTaskAppend | App.tsx:62-64 | Deletion works piecewise over concatenation, so the survivors keep their order. |
| Timeline.DeleteTaskKeepsSorted | App.tsx:62-64 | Deleting from a sorted timeline leaves it sorted. |
| Timeline.ToggleTaskCompletion | App.tsx:66-71 | `toggleTaskCompletion` flips `completed` on the tasks with the id and leaves the rest unchanged. |
| Timeline.ToggleTwice | App.tsx:66-71 | Toggling the same id twice restores the list. |
| Timeline.Reschedule | App.tsx:73-98 | With no task carrying the id, the result is the list itself. Otherwise the tasks before the first match are unchanged, the match's duration grows by the extra minutes, and each later task is moved to start where its rewritten predecessor ends, modulo a day. |
| Timeline.RescheduledUnique | App.tsx:73-98 | The reschedule result is determined by the list, the id and the amount. |
| Timeline.RescheduledFrame | App.tsx:78-94 | A reschedule keeps length, ids and order. Only start times after the target move, only the target's duration changes (by exactly the extra minutes), and every task stays well-formed. |
| Timeline.RescheduledCascade | App.tsx:82-93 | Each task after the target starts, in minutes, at its predecessor's start plus duration, modulo 1440. |
| Timeline.RescheduledShiftsPackedTail | App.tsx:73-98 | If the later tasks were back to back, each moves later by exactly the extra minutes, modulo a day. |
| Timeline.RescheduleExample | components/Schedule.tsx:140 | "+15" on 08:00/30 min followed by 09:00/20 min gives 08:00/45 min followed by 08:45/20 min. |
| Goals.CompletedCount | App.tsx:129 | The completed count is at most the list length. It equals the length exactly when all tasks are completed, and is zero exactly when none is. |
| Goals.RoundedPercent | App.tsx:130 | `Math.round(c / n * 100)` is the integer `r` with `r - 1/2 <= 100c/n < r + 1/2`, and it is at most 100. |
| Goals.RoundedPercentUnique | App.tsx:130 | Any integer within those bounds is the rounded percentage. |
| Goals.RoundedPercentEnds | App.tsx:130 | All completed gives 100 and none gives 0. With fewer than 200 tasks, a partial completion lies strictly between 0 and 100. |
| Goals.CalculateProgress | App.tsx:127-131 | Progress is 0 for an empty list. Otherwise it is the rounded completed percentage, and it is never above 100. |
| Goals.ProgressEnds | App.tsx:127-131 | With 1 to 199 tasks, progress is 100 exactly when all tasks are completed and 0 exactly when none is. |
| Goals.ProgressRoundsUpToFull | App.tsx:130 | 200 of 201 tasks completed shows as 100%. |
| Goals.ProgressExample | App.tsx:130 | Three of four tasks is 75%. |
| Goals.GoalMetAtTarget | App.tsx:107 | The goal check is `>=`: exactly 70% meets a 70 target, and 69% does not. |
| Goals.IsGoalMet | App.tsx:107 | The goal is met when progress reaches the target. A target of 0 or less is always met, one above 100 never is, and with no tasks only a target of 0 or less is met. |
| Goals.NextStreak | App.tsx:107-115 | A missed goal keeps the streak. A met goal after yesterday's day-end adds one; after today's it keeps the streak; otherwise it restarts at 1. |
| Goals.CompleteDay | App.tsx:104-122 | Day-end keeps the tasks, stores the reflection in the goal, records today as the last completed day, and sets the streak by the rule above. |
| Goals.CompleteDayTwice | App.tsx:104-122 | A second day-end on the same day changes only the reflection; the streak is not counted twice. |
| Goals.ConsecutiveDays | App.tsx:109-111 | Meeting the goal on `n` consecutive days after a met day raises the streak by exactly `n`. |
| Goals.GapResets | App.tsx:112-113 | A met day after a gap of two or more days restarts the streak at 1. |
| Goals.MissedDayKeepsStreak | App.tsx:108-120 | A missed day keeps the streak but records the day, so a met day right after continues the old streak. |
| Goals.SaveGoal | App.tsx:100-102 | `saveGoal` replaces the goal and leaves everything else unchanged. |
| Goals.SaveGoalLastWins | App.tsx:100-102 | Saving twice is the same as saving only the second goal. |
| Goals.InitialData | App.tsx:18-23 | With nothing stored, the app starts with no tasks, a 70% target, empty texts, streak 0 and no completed day. |
| Goals.InitialDayEnd | App.tsx:18-23 | On the initial data the progress is 0, the goal is not met, and the first day-end keeps the streak at 0. |
| Schedule.FormatTime | components/Schedule.tsx:20-26 | The label is 13 characters: the start time, " - ", then a well-formed end time whose minute of the day is start plus duration modulo a day. |
| Schedule.HasConflict | components/Schedule.tsx:66-73 | The flag is raised when the task is not the first one, neither it nor its predecessor allows overlap, and it starts, in minutes, before the predecessor's start plus duration, with no wrap at midnight. A raised flag implies neither task allows overlap; two such tasks at the same start time are flagged when the first has a positive duration. |
| Schedule.NoConflictWhenAllowed | components/Schedule.tsx:66 | The first task is never flagged, nor is a pair in which either task allows overlap. |
| Schedule.ConflictIffOverlap | components/Schedule.tsx:66-73 | On a sorted, well-formed timeline, a pair that does not allow overlap is flagged exactly when the two minute intervals intersect. |
| Schedule.RescheduledConflict | components/Schedule.tsx:66-73 | After a reschedule, a moved task is flagged exactly when neither it nor its predecessor allows overlap and the predecessor ends at or after midnight (a start plus duration of 1440 minutes or more). |
| Schedule.RescheduledNoConflictBeforeMidnight | components/Schedule.tsx:66-73 | After a reschedule, a moved task whose predecessor ends before midnight is not flagged. |
| Schedule.LabelEndIsNextStart | components/Schedule.tsx:20-26 | After a reschedule, the end time on a task's label is the start time of the task after it. |
| Schedule.ConflictExample | components/Schedule.tsx:66-73 | 08:00 for 60 minutes followed by 08:30 is flagged. |
| Schedule.CheckpointsDone | components/Schedule.tsx:109 | The done-checkpoint count is at most the list length. It equals the length exactly when all are done, and is zero exactly when none is. |
| Schedule.CheckpointPercent | components/Schedule.tsx:105-109 | For a task with checkpoints, the percentage is the rounded share of done checkpoints, at most 100. |
| Schedule.CheckpointPercentEnds | components/Schedule.tsx:109 | With 1 to 199 checkpoints, 100% means all done and 0% means none done. |
| Dashboard.DashboardProgress | components/Dashboard.tsx:14-16 | The dashboard's progress is the same figure as `calculateProgress`. |
| Dashboard.DashboardGoalMet | components/Dashboard.tsx:17 | The dashboard's goal check agrees with the check day-end makes. |
| Dashboard.CompletedInCategory | components/Dashboard.tsx:30-31 | A category never has more completed tasks than tasks. |
| Dashboard.SumOverCategories | components/Dashboard.tsx:20-33 | Summing the per-category counts over all six categories counts every task (or every completed task) exactly once. |
| Dashboard.CategoryData | components/Dashboard.tsx:20-23 | Each slice has a positive value equal to its category's task count. Slices follow category declaration order, every category with a task has its slice, and the values add up to the number of tasks. |
| Dashboard.BarData | components/Dashboard.tsx:26-33 | Each bar has a positive total equal to its category's task count and a completed count at most that total. The completed counts add up to the completed tasks overall. |
| Dashboard.BarsMatchSlices | components/Dashboard.tsx:20-33 | The bars and the pie list the same categories in the same order, with the same totals. |
| Dashboard.ShowPunishment | components/Dashboard.tsx:128 | The banner shows exactly when there is a task and progress is below the target. |
| Dashboard.PunishmentText | components/Dashboard.tsx:133 | The banner names the punishment, or "None set" when it is empty. |
| Dashboard.PunishmentMeansNoStreakGain | components/Dashboard.tsx:128 | While the banner shows, progress is below target and day-end leaves the streak unchanged. With no tasks the banner never shows. |
| Dashboard.FirstDayBanner | components/Dashboard.tsx:128-133 | On the initial data with one open task, the banner shows and names "None set". |
| TaskForm.UrlOrEmpty | components/TaskForm.tsx:19 | An absent link becomes the empty string; a present one is kept. |
| TaskForm.InitForm | components/TaskForm.tsx:13-21 | A new form has the defaults: 08:00, 30 minutes, Study, Medium, no overlap, no link and no checkpoints. An edit form takes each field from the task, falling back to the default on an empty start time or a zero duration. |
| TaskForm.AddCheckpoint | components/TaskForm.tsx:23-27 | A blank input changes nothing. Otherwise one open checkpoint, titled with the input, is appended and the input is cleared. |
| TaskForm.BlankCheckpointIgnored | components/TaskForm.tsx:24 | An input made only of white space adds nothing. |
| TaskForm.NonBlankCheckpointAdded | components/TaskForm.tsx:25-26 | An input with a non-white-space character adds exactly one checkpoint, at the end, keeps the existing ones, and clears the input. |
| TaskForm.RemoveCheckpoint | components/TaskForm.tsx:152 | `filter(c => c.id !== id)` on the checkpoints; the result is never longer than the input. Its members and order are stated by the three lemmas below. |
| TaskForm.RemoveCheckpointMembers | components/TaskForm.tsx:152 | After removal, a checkpoint is in the list exactly when it was there before and has another id. |
| TaskForm.RemoveCheckpointAppend | components/TaskForm.tsx:152 | Removal works piecewise over concatenation, so the survivors keep their order. |
| TaskForm.RemoveCheckpointAbsent | components/TaskForm.tsx:152 | Removing an id no checkpoint has changes nothing. |
| TaskForm.RemoveAfterAdd | components/TaskForm.tsx:23-27 | Removing the checkpoint just added under a fresh id gives the previous list back. |
| TaskForm.SaveTask | components/TaskForm.tsx:29-43 | The saved task carries the form's fields. It keeps the edited task's id (a fresh id for a new or id-less task) and its completion flag (false for a new task). |
| TaskForm.EditRoundTrip | components/TaskForm.tsx:13-43 | Opening a stored task and saving it untouched gives the task back, with an absent link saved as the empty one. |
| TaskForm.NewTaskSaved | components/TaskForm.tsx:13-43 | Saving an untouched new form gives a valid, open task under the fresh id, at 08:00 for 30 minutes, in Study with Medium priority. |
| FocusMode.Step | components/FocusMode.tsx:17-28 | A running timer with time left loses one second. A timer at zero stops. Every other state, paused or with a negative count, stays as it is. |
| FocusMode.NeverNegative | components/FocusMode.tsx:19-22 | From a non-negative count, any number of steps keeps the count between zero and where it started. |
| FocusMode.CountsDown | components/FocusMode.tsx:19-22 | A running timer counts down one second per step. |
| FocusMode.TimeIsUp | components/FocusMode.tsx:19-24 | From `s` seconds, after `s` steps the timer is at zero and still running; after any later step it is stopped at zero. |
| FocusMode.PausedHolds | components/FocusMode.tsx:19-24 | A paused timer with time left keeps its count for any number of steps. |
| FocusMode.Countdown.constructor | components/FocusMode.tsx:14-15 | The countdown opens at the task's duration times 60 seconds, running. |
| FocusMode.Countdown.Tick | components/FocusMode.tsx:17-28 | A tick changes the countdown's state exactly as `Step` does. |
| FocusMode.Countdown.Toggle | components/FocusMode.tsx:69 | Pause/resume flips `isActive` and keeps `timeLeft`. |
| FocusMode.FormatClock | components/FocusMode.tsx:30-34 | The display is at least two digits of whole minutes, a colon, and two digits of seconds below 60. Minutes times 60 plus seconds gives the input back. Below 100 minutes the display is five characters; from 10 minutes on it does not start with '0', so no extra zeros lead. |
| FocusMode.FormatClockExample | components/FocusMode.tsx:30-34 | 1500 seconds shows as "25:00". |
| FocusMode.FormatClockLongExample | components/FocusMode.tsx:30-34 | 7200 seconds shows as "120:00": the minutes are not cut to two digits. |
| Text.DecimalNoLeadingZero | components/FocusMode.tsx:33 | `String(n)` of a positive number does not start with '0'. |

## Left out

- Persistence: loading and saving through `localStorage`, and the JSON encoding of the data.
- The alarm poll, which compares the clock with start times every 10 seconds. It depends on the wall clock and a timer.
- The React state machinery, the view switching, `window.open` for launch links, and the recharts rendering. The series fed to the charts are modelled.
- `Settings`, `ReflectionModal` and `AlarmNotification`. They hold only UI input constraints.
- The calendar: `toDateString()` and "now minus 24 hours" become integer day numbers, with yesterday as `today - 1`. Across a daylight-saving change the source's "yesterday" can differ from the calendar day before.
- The ids from `Date.now().toString()` are parameters. Their uniqueness is assumed where a lemma needs it (`TaskForm.RemoveAfterAdd`).
- Floating point. `Math.round(c / n * 100)` is exact half-up rounding on rationals; JavaScript's float division can land on the other side of an exact .5.
- Locale collation. `localeCompare` is code-point order, which on well-formed `HH:mm` strings is the order of the times.
- The engine's sort algorithm. `Timeline.SortByStart` is an insertion sort that places each task after every task starting no later than it. It is proved sorted and a permutation of its input. No lemma states that tasks with equal start times keep their input order.
- `parseInt` yielding `NaN` for the duration field, and the field's `min="5"` bound, which only the browser enforces.
- The focus screen's progress ring and its float arithmetic.
- The interval timer itself: each `FocusMode.Countdown.Tick` is one effect run, not a measured second.
- Timeline.Reschedule: requires that every task is well-formed and that the target's duration stays positive. The source has no such guard; its only caller passes +15, and the task form produces well-formed tasks.
- Timeline.Reschedule: works on a sequence value, not on a copied JavaScript array. Aliasing is not an issue, because the source copies the array before writing.
- Timeline.RescheduledShiftsPackedTail: states the 15-minute shift only for a tail that was already back to back, because the code packs the tail rather than shifting it.
- Goals.ProgressEnds: proved only for fewer than 200 tasks. From 200 tasks on, rounding shows 100% with a task still open (`Goals.ProgressRoundsUpToFull`).
- Schedule.CheckpointPercentEnds: proved only for fewer than 200 checkpoints, for the same reason.
- Schedule.FormatTime: requires a well-formed start and a non-negative end in minutes. Negative totals, where JavaScript's `%` and `Math.floor` differ from Dafny's, are not modelled.
- Schedule.HasConflict: requires well-formed start times for the pair it compares. The source would compute with `NaN` otherwise.
- FocusMode.FormatClock: takes a natural number of seconds. The negative counts a negative duration would give are not formatted.
- Midnight is not normalised. A moved task after a predecessor that ends at or after midnight gets a small start time, so the list can stop being sorted. When neither task allows overlap, the conflict flag is raised (`Schedule.RescheduledConflict`). This is the source's behaviour and is stated as such, not corrected.
