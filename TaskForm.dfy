/** The state of components/TaskForm.tsx and its handlers: the fields the
    form starts with, adding and removing checkpoints, and the task record
    the form saves. Every handler replaces whole field values, so each is a
    function from form state to form state. */
module TaskForm {
  import opened Text
  import opened Clock
  import opened Types

  /** The form's fields. `launchUrl` is a plain string here: the form shows
      an absent link as the empty string. */
  datatype FormState = FormState(
    title: string,
    startTime: string,
    duration: int,
    category: Category,
    priority: Priority,
    overlapAllowed: bool,
    launchUrl: string,
    checkpoints: seq<Checkpoint>,
    newCheckpoint: string)

  /** `task?.launchUrl || ''` */
  function UrlOrEmpty(url: Option<string>): (s: string)
    ensures url.Some? ==> s == url.value
    ensures url.None? ==> s == []
  {
    match url
    case None => []
    case Some(u) => u
  }

  /** The form for a new task. */
  const NewForm: FormState := FormState([], "08:00", 30, Study, Medium, false, [], [], [])

  /** The initial fields: each taken from the task being edited, falling
      back (`||`) to the new-task default when it is falsy. Category and
      priority are never falsy; an empty start time and a zero duration are. */
  function InitForm(task: Option<Task>): (f: FormState)
    ensures task.None? ==> f == NewForm
    ensures task.Some? ==> var t := task.value;
      && f.title == t.title
      && f.startTime == (if t.startTime == [] then "08:00" else t.startTime)
      && f.duration == (if t.duration == 0 then 30 else t.duration)
      && f.category == t.category && f.priority == t.priority
      && f.overlapAllowed == t.overlapAllowed
      && f.launchUrl == UrlOrEmpty(t.launchUrl)
      && f.checkpoints == t.checkpoints
      && f.newCheckpoint == []
  {
    match task
    case None => NewForm
    case Some(t) =>
      FormState(
        t.title,
        if t.startTime == [] then "08:00" else t.startTime,
        if t.duration == 0 then 30 else t.duration,
        t.category, t.priority, t.overlapAllowed,
        UrlOrEmpty(t.launchUrl), t.checkpoints, [])
  }

  /** `handleAddCheckpoint` with `newId` for `Date.now().toString()`: a blank
      input (empty after trimming) changes nothing; otherwise one open
      checkpoint with the untrimmed input as title is appended and the input
      is cleared. */
  function AddCheckpoint(f: FormState, newId: string): (g: FormState)
    ensures Trim(f.newCheckpoint) == [] ==> g == f
    ensures Trim(f.newCheckpoint) != [] ==>
      g == f.(checkpoints := f.checkpoints + [Checkpoint(newId, f.newCheckpoint, false)], newCheckpoint := [])
  {
    if Trim(f.newCheckpoint) == [] then f
    else f.(checkpoints := f.checkpoints + [Checkpoint(newId, f.newCheckpoint, false)], newCheckpoint := [])
  }

  /** An input made only of white space adds nothing. */
  lemma BlankCheckpointIgnored(f: FormState, newId: string)
    requires forall i :: 0 <= i < |f.newCheckpoint| ==> IsWhitespace(f.newCheckpoint[i])
    ensures AddCheckpoint(f, newId) == f
  {
    TrimEmptyIffBlank(f.newCheckpoint);
  }

  /** An input with a character that is not white space adds exactly one
      checkpoint, at the end, and keeps the existing ones. */
  lemma NonBlankCheckpointAdded(f: FormState, newId: string, i: nat)
    requires i < |f.newCheckpoint| && !IsWhitespace(f.newCheckpoint[i])
    ensures var g := AddCheckpoint(f, newId);
      && |g.checkpoints| == |f.checkpoints| + 1
      && g.checkpoints[..|f.checkpoints|] == f.checkpoints
      && g.checkpoints[|f.checkpoints|] == Checkpoint(newId, f.newCheckpoint, false)
      && g.newCheckpoint == []
  {
    TrimEmptyIffBlank(f.newCheckpoint);
    var g := AddCheckpoint(f, newId);
    assert g.checkpoints[..|f.checkpoints|] == f.checkpoints;
  }

  /** `checkpoints.filter(c => c.id !== id)` */
  function RemoveCheckpoint(cps: seq<Checkpoint>, id: string): (r: seq<Checkpoint>)
    ensures |r| <= |cps|
  {
    if cps == [] then []
    else
      var rest := RemoveCheckpoint(cps[1..], id);
      if cps[0].id != id then [cps[0]] + rest else rest
  }

  /** What survives removal is exactly the checkpoints with another id. */
  lemma {:induction false} RemoveCheckpointMembers(cps: seq<Checkpoint>, id: string)
    ensures forall x :: x in RemoveCheckpoint(cps, id) <==> x in cps && x.id != id
  {
    if cps != [] {
      RemoveCheckpointMembers(cps[1..], id);
      assert cps == [cps[0]] + cps[1..];
    }
  }

  /** Removal works element by element, so it keeps the survivors in their
      order. */
  lemma {:induction false} RemoveCheckpointAppend(a: seq<Checkpoint>, b: seq<Checkpoint>, id: string)
    ensures RemoveCheckpoint(a + b, id) == RemoveCheckpoint(a, id) + RemoveCheckpoint(b, id)
  {
    if a != [] {
      RemoveCheckpointAppend(a[1..], b, id);
      assert (a + b)[1..] == a[1..] + b;
    } else {
      assert a + b == b;
    }
  }

  /** Removing an id no checkpoint has changes nothing. */
  lemma {:induction false} RemoveCheckpointAbsent(cps: seq<Checkpoint>, id: string)
    requires forall i :: 0 <= i < |cps| ==> cps[i].id != id
    ensures RemoveCheckpoint(cps, id) == cps
  {
    if cps != [] {
      RemoveCheckpointAbsent(cps[1..], id);
      assert cps == [cps[0]] + cps[1..];
    }
  }

  /** Removing the checkpoint just added, under an id fresh for the list,
      gives the list back. */
  lemma RemoveAfterAdd(f: FormState, newId: string)
    requires Trim(f.newCheckpoint) != []
    requires forall i :: 0 <= i < |f.checkpoints| ==> f.checkpoints[i].id != newId
    ensures RemoveCheckpoint(AddCheckpoint(f, newId).checkpoints, newId) == f.checkpoints
  {
    var added := Checkpoint(newId, f.newCheckpoint, false);
    RemoveCheckpointAppend(f.checkpoints, [added], newId);
    RemoveCheckpointAbsent(f.checkpoints, newId);
    assert RemoveCheckpoint([added], newId) == [];
  }

  /** `handleSave`: the record built from the fields. It keeps the edited
      task's id unless that is empty (`||`), taking `freshId` for
      `Date.now().toString()` otherwise, and its completion flag, or `false`
      for a new task. */
  function SaveTask(f: FormState, editing: Option<Task>, freshId: string): (t: Task)
    ensures t.id == (if editing.Some? && editing.value.id != [] then editing.value.id else freshId)
    ensures t.completed <==> editing.Some? && editing.value.completed
    ensures t.title == f.title && t.startTime == f.startTime && t.duration == f.duration
    ensures t.category == f.category && t.priority == f.priority && t.overlapAllowed == f.overlapAllowed
    ensures t.checkpoints == f.checkpoints && t.launchUrl == Some(f.launchUrl)
  {
    var id := if editing.Some? && editing.value.id != [] then editing.value.id else freshId;
    var completed := editing.Some? && editing.value.completed;
    Task(id, f.title, f.startTime, f.duration, f.category, f.priority, f.overlapAllowed,
      f.checkpoints, completed, Some(f.launchUrl))
  }

  /** Opening a stored task in the form and saving it untouched gives the
      task back, except that an absent link is saved as the empty one. */
  lemma EditRoundTrip(t: Task, freshId: string)
    requires ValidTask(t) && t.id != []
    ensures SaveTask(InitForm(Some(t)), Some(t), freshId) == t.(launchUrl := Some(UrlOrEmpty(t.launchUrl)))
  {
    assert t.startTime != [] by {
      assert |t.startTime| == 5;
    }
  }

  /** Saving the new-task form untouched gives an open, valid task at 08:00
      for 30 minutes, in Study with Medium priority, under the fresh id. */
  lemma NewTaskSaved(freshId: string)
    ensures var t := SaveTask(InitForm(None), None, freshId);
      && ValidTask(t) && !t.completed && t.id == freshId
      && Minutes(t.startTime) == 480 && t.duration == 30
      && t.category == Study && t.priority == Medium && !t.overlapAllowed
      && t.checkpoints == [] && t.launchUrl == Some([])
  {
    assert IsHHmm("08:00") && Minutes("08:00") == 480;
  }
}
