/** The figures components/Dashboard.tsx derives from the app data: the
    progress and goal check, the per-category chart series, and the
    punishment banner. */
module Dashboard {
  import opened Types
  import opened Goals

  /** The dashboard's own `progress`, guarded by `totalTasks > 0`. It is the
      same figure as App's `calculateProgress`. */
  function DashboardProgress(tasks: seq<Task>): (p: nat)
    ensures p == CalculateProgress(tasks)
  {
    var total := |tasks|;
    if total > 0 then RoundedPercent(CompletedCount(tasks), total) else 0
  }

  /** The dashboard's `isGoalMet`, which agrees with the check `completeDay`
      makes. */
  function DashboardGoalMet(data: AppData): (met: bool)
    ensures met == IsGoalMet(data.tasks, data.goal.targetPercentage)
  {
    DashboardProgress(data.tasks) >= data.goal.targetPercentage
  }

  /** The number of tasks in category `cat`, or only the completed ones when
      `completedOnly` holds. */
  function CountIn(tasks: seq<Task>, cat: Category, completedOnly: bool): (n: nat)
    ensures n <= |tasks|
  {
    if tasks == [] then 0
    else
      var t := tasks[0];
      (if t.category == cat && (t.completed || !completedOnly) then 1 else 0) + CountIn(tasks[1..], cat, completedOnly)
  }

  /** A category has no more completed tasks than tasks. */
  lemma {:induction false} CompletedInCategory(tasks: seq<Task>, cat: Category)
    ensures CountIn(tasks, cat, true) <= CountIn(tasks, cat, false)
  {
    if tasks != [] {
      CompletedInCategory(tasks[1..], cat);
    }
  }

  /** The tasks counted across all categories. */
  function CountAll(tasks: seq<Task>, completedOnly: bool): nat {
    if completedOnly then CompletedCount(tasks) else |tasks|
  }

  /** Summing a count over the categories `AllCategories[i..]`. */
  function SumFrom(tasks: seq<Task>, i: nat, completedOnly: bool): nat
    requires i <= |AllCategories|
    decreases |AllCategories| - i
  {
    if i == |AllCategories| then 0
    else CountIn(tasks, AllCategories[i], completedOnly) + SumFrom(tasks, i + 1, completedOnly)
  }

  /** The position of the category at position `k` is `k`. */
  lemma IndexOfCategory(k: nat)
    requires k < |AllCategories|
    ensures CategoryIndex(AllCategories[k]) == k
  {
    CategoriesEnumerated();
  }

  /** The first task adds one to the sum from `i` exactly when its category
      lies at or after position `i`. */
  lemma {:induction false} SumFromCons(tasks: seq<Task>, i: nat, completedOnly: bool)
    requires tasks != [] && i <= |AllCategories|
    ensures var t := tasks[0];
      SumFrom(tasks, i, completedOnly) == SumFrom(tasks[1..], i, completedOnly)
        + (if CategoryIndex(t.category) >= i && (t.completed || !completedOnly) then 1 else 0)
    decreases |AllCategories| - i
  {
    if i < |AllCategories| {
      SumFromCons(tasks, i + 1, completedOnly);
      IndexOfCategory(i);
      assert AllCategories[i] == tasks[0].category <==> CategoryIndex(tasks[0].category) == i;
    }
  }

  lemma {:induction false} SumFromZero(tasks: seq<Task>, i: nat, completedOnly: bool)
    requires tasks == [] && i <= |AllCategories|
    ensures SumFrom(tasks, i, completedOnly) == 0
    decreases |AllCategories| - i
  {
    if i < |AllCategories| {
      SumFromZero(tasks, i + 1, completedOnly);
    }
  }

  /** Every task falls in exactly one category, so summing a count over all
      categories counts every task once. */
  lemma {:induction false} SumOverCategories(tasks: seq<Task>, completedOnly: bool)
    ensures SumFrom(tasks, 0, completedOnly) == CountAll(tasks, completedOnly)
  {
    if tasks != [] {
      SumOverCategories(tasks[1..], completedOnly);
      SumFromCons(tasks, 0, completedOnly);
    } else {
      SumFromZero(tasks, 0, completedOnly);
    }
  }

  /** One slice of the "Task Distribution" pie. */
  datatype Slice = Slice(name: Category, value: nat)

  /** One group of the "Completion by Category" bars. */
  datatype Bar = Bar(name: Category, completed: nat, total: nat)

  /** The `map` step of `categoryData`, over the categories from position `i`
      on: one slice per category, sized by its number of tasks. */
  function SlicesFrom(tasks: seq<Task>, i: nat): (r: seq<Slice>)
    requires i <= |AllCategories|
    ensures |r| == |AllCategories| - i
    ensures forall j :: 0 <= j < |r| ==> r[j].name == AllCategories[i + j] && r[j].value == CountIn(tasks, r[j].name, false)
    decreases |AllCategories| - i
  {
    if i == |AllCategories| then []
    else [Slice(AllCategories[i], CountIn(tasks, AllCategories[i], false))] + SlicesFrom(tasks, i + 1)
  }

  function SumSlices(s: seq<Slice>): nat {
    if s == [] then 0 else s[0].value + SumSlices(s[1..])
  }

  lemma {:induction false} SumSlicesFrom(tasks: seq<Task>, i: nat)
    requires i <= |AllCategories|
    ensures SumSlices(SlicesFrom(tasks, i)) == SumFrom(tasks, i, false)
    decreases |AllCategories| - i
  {
    if i < |AllCategories| {
      SumSlicesFrom(tasks, i + 1);
      assert SlicesFrom(tasks, i)[1..] == SlicesFrom(tasks, i + 1);
    }
  }

  /** The `filter(d => d.value > 0)` step of `categoryData`. */
  function PositiveSlices(s: seq<Slice>): (r: seq<Slice>)
    ensures forall x :: x in r ==> x in s && x.value > 0
    ensures forall x :: x in s && x.value > 0 ==> x in r
    ensures SumSlices(r) == SumSlices(s)
  {
    if s == [] then []
    else
      var rest := PositiveSlices(s[1..]);
      assert s == [s[0]] + s[1..];
      if s[0].value > 0 then
        assert ([s[0]] + rest)[1..] == rest;
        [s[0]] + rest
      else rest
  }

  /** Slices listed in the order the categories are declared. */
  predicate Ascending(s: seq<Slice>) {
    forall j, l :: 0 <= j < l < |s| ==> CategoryIndex(s[j].name) < CategoryIndex(s[l].name)
  }

  lemma SlicesFromAscending(tasks: seq<Task>, i: nat)
    requires i <= |AllCategories|
    ensures Ascending(SlicesFrom(tasks, i))
  {
    var s := SlicesFrom(tasks, i);
    forall j, l | 0 <= j < l < |s|
      ensures CategoryIndex(s[j].name) < CategoryIndex(s[l].name)
    {
      IndexOfCategory(i + j);
      IndexOfCategory(i + l);
    }
  }

  /** A slice before an ascending list, and before each of its members,
      makes an ascending list. */
  lemma ConsAscending(x: Slice, rest: seq<Slice>)
    requires Ascending(rest)
    requires forall y :: y in rest ==> CategoryIndex(x.name) < CategoryIndex(y.name)
    ensures Ascending([x] + rest)
  {
    var r := [x] + rest;
    forall j, l | 0 <= j < l < |r|
      ensures CategoryIndex(r[j].name) < CategoryIndex(r[l].name)
    {
      assert r[l] == rest[l - 1];
      if j > 0 {
        assert r[j] == rest[j - 1];
      }
    }
  }

  /** In an ascending list the head comes before every later member. */
  lemma HeadFirst(s: seq<Slice>, y: Slice)
    requires s != [] && Ascending(s) && y in s[1..]
    ensures CategoryIndex(s[0].name) < CategoryIndex(y.name)
  {
    var m :| 0 <= m < |s[1..]| && s[1..][m] == y;
    assert s[m + 1] == y;
  }

  /** Dropping slices keeps the rest in order. */
  lemma {:induction false} PositiveSlicesAscending(s: seq<Slice>)
    requires Ascending(s)
    ensures Ascending(PositiveSlices(s))
  {
    if s != [] {
      var rest := PositiveSlices(s[1..]);
      assert Ascending(s[1..]) by {
        forall j, l | 0 <= j < l < |s[1..]|
          ensures CategoryIndex(s[1..][j].name) < CategoryIndex(s[1..][l].name)
        {
          assert s[1..][j] == s[j + 1] && s[1..][l] == s[l + 1];
        }
      }
      PositiveSlicesAscending(s[1..]);
      if s[0].value > 0 {
        forall y | y in rest
          ensures CategoryIndex(s[0].name) < CategoryIndex(y.name)
        {
          HeadFirst(s, y);
        }
        ConsAscending(s[0], rest);
      }
    }
  }

  /** The slice of category `c` among the mapped slices. */
  lemma SliceOfCategory(tasks: seq<Task>, c: Category)
    ensures Slice(c, CountIn(tasks, c, false)) in SlicesFrom(tasks, 0)
  {
    var s := SlicesFrom(tasks, 0);
    assert s[CategoryIndex(c)] == Slice(c, CountIn(tasks, c, false));
  }

  lemma CategoryDataFacts(tasks: seq<Task>)
    ensures var r := PositiveSlices(SlicesFrom(tasks, 0));
      && (forall c :: CountIn(tasks, c, false) > 0 ==> Slice(c, CountIn(tasks, c, false)) in r)
      && Ascending(r)
      && SumSlices(r) == |tasks|
  {
    forall c | CountIn(tasks, c, false) > 0
      ensures Slice(c, CountIn(tasks, c, false)) in PositiveSlices(SlicesFrom(tasks, 0))
    {
      SliceOfCategory(tasks, c);
    }
    SlicesFromAscending(tasks, 0);
    PositiveSlicesAscending(SlicesFrom(tasks, 0));
    SumSlicesFrom(tasks, 0);
    SumOverCategories(tasks, false);
  }

  /** `categoryData`: one slice per category that has tasks, sized by its
      number of tasks, in the order the categories are declared; every
      category with a task has its slice, and the slices add up to all tasks. */
  function CategoryData(tasks: seq<Task>): (r: seq<Slice>)
    ensures forall x :: x in r ==> x.value > 0 && x.value == CountIn(tasks, x.name, false)
    ensures forall c :: CountIn(tasks, c, false) > 0 ==> Slice(c, CountIn(tasks, c, false)) in r
    ensures Ascending(r)
    ensures SumSlices(r) == |tasks|
  {
    CategoryDataFacts(tasks);
    PositiveSlices(SlicesFrom(tasks, 0))
  }

  /** The `map` step of `barData`, over the categories from position `i` on. */
  function BarsFrom(tasks: seq<Task>, i: nat): (r: seq<Bar>)
    requires i <= |AllCategories|
    ensures |r| == |AllCategories| - i
    ensures forall j :: 0 <= j < |r| ==>
      && r[j].name == AllCategories[i + j]
      && r[j].completed == CountIn(tasks, r[j].name, true)
      && r[j].total == CountIn(tasks, r[j].name, false)
    decreases |AllCategories| - i
  {
    if i == |AllCategories| then []
    else
      var cat := AllCategories[i];
      [Bar(cat, CountIn(tasks, cat, true), CountIn(tasks, cat, false))] + BarsFrom(tasks, i + 1)
  }

  function SumCompleted(s: seq<Bar>): nat {
    if s == [] then 0 else s[0].completed + SumCompleted(s[1..])
  }

  lemma {:induction false} SumCompletedFrom(tasks: seq<Task>, i: nat)
    requires i <= |AllCategories|
    ensures SumCompleted(BarsFrom(tasks, i)) == SumFrom(tasks, i, true)
    decreases |AllCategories| - i
  {
    if i < |AllCategories| {
      SumCompletedFrom(tasks, i + 1);
      assert BarsFrom(tasks, i)[1..] == BarsFrom(tasks, i + 1);
    }
  }

  /** The `filter(d => d.total > 0)` step of `barData`. */
  function NonEmptyBars(s: seq<Bar>): (r: seq<Bar>)
    ensures forall x :: x in r ==> x in s && x.total > 0
    ensures forall x :: x in s && x.total > 0 ==> x in r
  {
    if s == [] then []
    else
      var rest := NonEmptyBars(s[1..]);
      assert s == [s[0]] + s[1..];
      if s[0].total > 0 then [s[0]] + rest else rest
  }

  /** Dropping only bars without tasks, and so without completed tasks,
      keeps the completed total. */
  lemma {:induction false} NonEmptyBarsCompleted(s: seq<Bar>)
    requires forall j :: 0 <= j < |s| ==> s[j].completed <= s[j].total
    ensures SumCompleted(NonEmptyBars(s)) == SumCompleted(s)
  {
    if s != [] {
      NonEmptyBarsCompleted(s[1..]);
      var rest := NonEmptyBars(s[1..]);
      if s[0].total > 0 {
        assert ([s[0]] + rest)[1..] == rest;
      }
    }
  }

  lemma BarDataFacts(tasks: seq<Task>)
    ensures SumCompleted(NonEmptyBars(BarsFrom(tasks, 0))) == CompletedCount(tasks)
    ensures forall x :: x in BarsFrom(tasks, 0) ==> x.completed <= x.total
  {
    var s := BarsFrom(tasks, 0);
    forall j | 0 <= j < |s|
      ensures s[j].completed <= s[j].total
    {
      CompletedInCategory(tasks, s[j].name);
    }
    NonEmptyBarsCompleted(s);
    SumCompletedFrom(tasks, 0);
    SumOverCategories(tasks, true);
  }

  /** `barData`: per category with tasks, how many of its tasks are completed
      out of how many; the completed counts add up to the tasks completed
      overall. */
  function BarData(tasks: seq<Task>): (r: seq<Bar>)
    ensures forall x :: x in r ==>
      && x.total > 0 && x.total == CountIn(tasks, x.name, false)
      && x.completed == CountIn(tasks, x.name, true) && x.completed <= x.total
    ensures SumCompleted(r) == CompletedCount(tasks)
  {
    BarDataFacts(tasks);
    NonEmptyBars(BarsFrom(tasks, 0))
  }

  /** Bars and slices that agree name by name and size by size still agree
      after each is filtered. */
  lemma {:induction false} FiltersAgree(b: seq<Bar>, s: seq<Slice>)
    requires |b| == |s|
    requires forall j :: 0 <= j < |b| ==> b[j].name == s[j].name && b[j].total == s[j].value
    ensures |NonEmptyBars(b)| == |PositiveSlices(s)|
    ensures forall j :: 0 <= j < |NonEmptyBars(b)| ==>
      NonEmptyBars(b)[j].name == PositiveSlices(s)[j].name && NonEmptyBars(b)[j].total == PositiveSlices(s)[j].value
  {
    if b != [] {
      FiltersAgree(b[1..], s[1..]);
      var rb, rs := NonEmptyBars(b[1..]), PositiveSlices(s[1..]);
      if b[0].total > 0 {
        assert NonEmptyBars(b) == [b[0]] + rb;
        assert PositiveSlices(s) == [s[0]] + rs;
      }
    }
  }

  /** The bar chart and the pie list the same categories in the same order,
      with the same totals. */
  lemma BarsMatchSlices(tasks: seq<Task>)
    ensures |BarData(tasks)| == |CategoryData(tasks)|
    ensures forall j :: 0 <= j < |BarData(tasks)| ==>
      BarData(tasks)[j].name == CategoryData(tasks)[j].name && BarData(tasks)[j].total == CategoryData(tasks)[j].value
  {
    FiltersAgree(BarsFrom(tasks, 0), SlicesFrom(tasks, 0));
  }

  /** The punishment banner: the goal is not met and there is a task. */
  function ShowPunishment(data: AppData): (shown: bool)
    ensures shown <==> data.tasks != [] && CalculateProgress(data.tasks) < data.goal.targetPercentage
  {
    !DashboardGoalMet(data) && |data.tasks| > 0
  }

  /** The penalty the banner names: the goal's punishment, or "None set"
      when it is empty. */
  function PunishmentText(goal: DailyGoal): (shown: string)
    ensures shown != []
    ensures goal.punishment != [] ==> shown == goal.punishment
    ensures goal.punishment == [] ==> shown == "None set"
  {
    if goal.punishment != [] then goal.punishment else "None set"
  }

  /** While the banner shows, ending the day keeps the streak where it is;
      with no tasks at all the banner stays hidden whatever the target. */
  lemma PunishmentMeansNoStreakGain(data: AppData, reflection: string, today: int)
    ensures ShowPunishment(data) ==> CompleteDay(data, reflection, today).streak == data.streak
    ensures ShowPunishment(data) ==> CalculateProgress(data.tasks) < data.goal.targetPercentage
    ensures data.tasks == [] ==> !ShowPunishment(data)
  {
  }

  /** On the first day, with one open task and the initial goal, the banner
      shows and names no punishment: "None set". */
  lemma FirstDayBanner(t: Task)
    requires !t.completed
    ensures var data := InitialData().(tasks := [t]);
      ShowPunishment(data) && PunishmentText(data.goal) == "None set"
  {
    RoundedPercentEnds(CompletedCount([t]), 1);
  }
}
