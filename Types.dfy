/** The records of types.ts. */
module Types {
  import opened Clock

  datatype Option<+T> = None | Some(value: T)

  datatype Category = Study | Work | Health | Personal | Entertainment | Other

  /** `Object.values(Category)`: the six categories in declaration order. */
  const AllCategories: seq<Category> := [Study, Work, Health, Personal, Entertainment, Other]

  /** The position of a category in declaration order. */
  function CategoryIndex(c: Category): (i: nat)
    ensures i < |AllCategories| && AllCategories[i] == c
  {
    match c
    case Study => 0
    case Work => 1
    case Health => 2
    case Personal => 3
    case Entertainment => 4
    case Other => 5
  }

  datatype Priority = Low | Medium | High

  /** An atomic sub-step of a task, owned by that task. */
  datatype Checkpoint = Checkpoint(id: string, title: string, completed: bool)

  /** `startTime` is an "HH:mm" string and `duration` a number of minutes. */
  datatype Task = Task(
    id: string,
    title: string,
    startTime: string,
    duration: int,
    category: Category,
    priority: Priority,
    overlapAllowed: bool,
    checkpoints: seq<Checkpoint>,
    completed: bool,
    launchUrl: Option<string>)

  datatype DailyGoal = DailyGoal(targetPercentage: int, reward: string, punishment: string, reflection: string)

  /** `lastCompletedDate` is a day number (see Goals.CompleteDay), or absent. */
  datatype AppData = AppData(tasks: seq<Task>, goal: DailyGoal, streak: nat, lastCompletedDate: Option<int>)

  /** What the task form guarantees of every stored task: a well-formed start
      time and a positive duration. */
  predicate ValidTask(t: Task) {
    IsHHmm(t.startTime) && t.duration > 0
  }

  predicate AllValid(tasks: seq<Task>) {
    forall i :: 0 <= i < |tasks| ==> ValidTask(tasks[i])
  }

  /** Each category occurs exactly once in `AllCategories`. */
  lemma CategoriesEnumerated()
    ensures |AllCategories| == 6
    ensures forall i, j :: 0 <= i < j < |AllCategories| ==> AllCategories[i] != AllCategories[j]
    ensures forall c: Category :: c in AllCategories
  {
    forall c: Category
      ensures c in AllCategories
    {
      assert AllCategories[CategoryIndex(c)] == c;
    }
  }
}
