/**
 The task endpoints: `add_task`, `update_task`, `delete_task` and
 `increment_pomodoro`, each a transformation of the whole document.
 */
module Tasks {
  import opened Optional
  import opened Text
  import opened Records
  import opened Planner
  import opened Journal

  /** The body of an `update_task` request: the task id plus the fields it carries. */
  datatype TaskPatch = TaskPatch(
    id: string,
    name: Option<string>,
    date: Option<string>,
    subjectId: Option<string>,
    completed: Option<bool>,
    pomodoroSessions: Option<int>)

  /** The request carries `completed: true`; a missing flag or `false` does not complete the task. */
  function Completes(p: TaskPatch): (b: bool)
    ensures b <==> p.completed.GetOr(false)
  {
    p.completed == Some(true)
  }

  /** Where the endpoints' first-match loop stops for task `id`. */
  function TaskIndex(d: Document, id: string): (r: Option<nat>)
    ensures r.Some? ==> r.value < |d.tasks| && d.tasks[r.value].id == id
    ensures r.Some? ==> forall j :: 0 <= j < r.value ==> d.tasks[j].id != id
    ensures r.None? <==> FreshTaskId(d, id)
  {
    FirstMatch(d.tasks, TaskKey, id)
  }

  /** The session counter as the server reads it: a missing counter counts as 0. */
  function Sessions(t: Task): (n: int)
    ensures t.pomodoroSessions.Some? ==> n == t.pomodoroSessions.value
    ensures t.pomodoroSessions.None? ==> n == 0
  {
    t.pomodoroSessions.GetOr(0)
  }

  /** `add_task`: the request record is appended with the fresh id, not completed and no sessions. */
  function AddTask(d: Document, request: Task, freshId: string): (r: Document)
    requires FreshTaskId(d, freshId)
    ensures |r.tasks| == |d.tasks| + 1
    ensures r.tasks[..|d.tasks|] == d.tasks
    ensures var t := r.tasks[|d.tasks|];
      && t.id == freshId && !t.completed && t.pomodoroSessions == Some(0)
      && t.name == request.name && t.date == request.date && t.subjectId == request.subjectId
    ensures r.subjects == d.subjects && r.journal == d.journal
    ensures WellFormed(d) ==> WellFormed(r)
  {
    var task := request.(id := freshId, completed := false, pomodoroSessions := Some(0));
    d.(tasks := d.tasks + [task])
  }

  /** `task.update(update_data)`: every field the request carries overrides the task's. */
  function Merge(t: Task, p: TaskPatch): (m: Task)
    ensures m.id == p.id
    ensures m.name == p.name.GetOr(t.name) && m.date == p.date.GetOr(t.date)
    ensures m.subjectId == p.subjectId.GetOr(t.subjectId)
    ensures m.completed == p.completed.GetOr(t.completed)
    ensures p.pomodoroSessions.Some? ==> m.pomodoroSessions == p.pomodoroSessions
    ensures p.pomodoroSessions.None? ==> m.pomodoroSessions == t.pomodoroSessions
  {
    Task(
      p.id,
      p.name.GetOr(t.name),
      p.date.GetOr(t.date),
      p.subjectId.GetOr(t.subjectId),
      p.completed.GetOr(t.completed),
      if p.pomodoroSessions.Some? then p.pomodoroSessions else t.pomodoroSessions)
  }

  /**
   `update_task`: merges the request into the first task with its id and,
   when the request marks it completed, logs the merged name in today's
   journal entry. Without a matching task nothing changes.
   */
  function UpdateTask(d: Document, p: TaskPatch, today: string): (r: Document)
    ensures r.subjects == d.subjects && |r.tasks| == |d.tasks|
    ensures TaskIndex(d, p.id).None? ==> r == d
    ensures TaskIndex(d, p.id).Some? ==>
      var k := TaskIndex(d, p.id).value;
      r.tasks == d.tasks[k := Merge(d.tasks[k], p)]
    ensures !(TaskIndex(d, p.id).Some? && Completes(p)) ==> r.journal == d.journal
    ensures TaskIndex(d, p.id).Some? && Completes(p) ==>
      var k := TaskIndex(d, p.id).value;
      && r.journal.Keys == d.journal.Keys + {today}
      && Contains(r.journal[today], CompletionLine(r.tasks[k].name))
      && (today in d.journal ==> d.journal[today] <= r.journal[today])
      && (today !in d.journal ==> Header <= r.journal[today])
      && forall date :: date in d.journal && date != today ==> r.journal[date] == d.journal[date]
    ensures TaskIndex(d, p.id).Some? && Completes(p) && today !in d.journal ==>
      r.journal[today] == Header + CompletionLine(r.tasks[TaskIndex(d, p.id).value].name)
    ensures TaskIndex(d, p.id).Some? && Completes(p) && today in d.journal ==>
      var line := CompletionLine(r.tasks[TaskIndex(d, p.id).value].name);
      && (Contains(d.journal[today], line) ==> r.journal == d.journal)
      && (!Contains(d.journal[today], line) ==> r.journal[today] == d.journal[today] + line)
  {
    match TaskIndex(d, p.id)
    case None => d
    case Some(k) =>
      var merged := Merge(d.tasks[k], p);
      var journal := if Completes(p) then LogCompletion(d.journal, today, merged.name) else d.journal;
      assert Completes(p) && today !in d.journal ==> journal[today] == Header + CompletionLine(merged.name) by {
        if Completes(p) && today !in d.journal {
          LogCompletionStartsEntry(d.journal, today, merged.name);
        }
      }
      Document(d.tasks[k := merged], d.subjects, journal)
  }

  /** `delete_task`: drops every task with the id, keeping the others in order. */
  function DeleteTask(d: Document, id: string): (r: Document)
    ensures r.subjects == d.subjects && r.journal == d.journal
    ensures forall t :: t in r.tasks <==> t in d.tasks && t.id != id
    ensures forall t :: multiset(r.tasks)[t] == if t.id == id then 0 else multiset(d.tasks)[t]
    ensures IsSubsequence(r.tasks, d.tasks)
    ensures FreshTaskId(d, id) ==> r == d
  {
    d.(tasks := RemoveAll(d.tasks, TaskKey, id))
  }

  /** One more focus session on a task, a missing counter counting as 0. */
  function Bump(t: Task): (u: Task)
    ensures u.pomodoroSessions.Some? && Sessions(u) == Sessions(t) + 1
    ensures u.(pomodoroSessions := t.pomodoroSessions) == t
  {
    t.(pomodoroSessions := Some(Sessions(t) + 1))
  }

  /** `increment_pomodoro`: the first task with the id gains exactly one session; nothing else changes. */
  function IncrementPomodoro(d: Document, id: string): (r: Document)
    ensures r.subjects == d.subjects && r.journal == d.journal && |r.tasks| == |d.tasks|
    ensures TaskIndex(d, id).None? ==> r == d
    ensures TaskIndex(d, id).Some? ==>
      var k := TaskIndex(d, id).value;
      r.tasks == d.tasks[k := d.tasks[k].(pomodoroSessions := Some(Sessions(d.tasks[k]) + 1))]
  {
    d.(tasks := UpdateFirst(d.tasks, TaskKey, id, Bump))
  }

  // ---------------------------------------------------------------------------
  // Properties relating several calls

  /** An update keeps task ids unique: the merged task keeps the id it was found by. */
  lemma UpdateTaskPreservesWellFormed(d: Document, p: TaskPatch, today: string)
    requires WellFormed(d)
    ensures WellFormed(UpdateTask(d, p, today))
  {
  }

  /** A focus session keeps task ids unique. */
  lemma IncrementPomodoroPreservesWellFormed(d: Document, id: string)
    requires WellFormed(d)
    ensures WellFormed(IncrementPomodoro(d, id))
  {
  }

  /** Deleting keeps task ids unique. */
  lemma DeleteTaskPreservesWellFormed(d: Document, id: string)
    requires WellFormed(d)
    ensures WellFormed(DeleteTask(d, id))
  {
    RemoveAllKeepsUnique(d.tasks, TaskKey, id);
  }

  /** Deleting a task just added under a fresh id restores the document. */
  lemma AddThenDeleteTask(d: Document, request: Task, freshId: string)
    requires FreshTaskId(d, freshId)
    ensures DeleteTask(AddTask(d, request, freshId), freshId) == d
  {
    RemoveAppendedFresh(d.tasks, TaskKey, AddTask(d, request, freshId).tasks[|d.tasks|]);
  }

  /** A second delete of the same id changes nothing. */
  lemma DeleteTaskIdempotent(d: Document, id: string)
    ensures DeleteTask(DeleteTask(d, id), id) == DeleteTask(d, id)
  {
    var r := DeleteTask(d, id);
    assert forall j :: 0 <= j < |r.tasks| ==> r.tasks[j] in r.tasks;
  }

  /** Updating a task that was just deleted is a silent no-op. */
  lemma DeleteThenUpdateIsNoOp(d: Document, p: TaskPatch, today: string)
    ensures UpdateTask(DeleteTask(d, p.id), p, today) == DeleteTask(d, p.id)
  {
    var r := DeleteTask(d, p.id);
    assert forall j :: 0 <= j < |r.tasks| ==> r.tasks[j] in r.tasks;
  }

  /**
   Repeating an update, completing or not, on the same day leaves the document
   as the first one did: the merge is already in place and the journal line is
   already present.
   */
  lemma UpdateTaskIdempotent(d: Document, p: TaskPatch, today: string)
    ensures UpdateTask(UpdateTask(d, p, today), p, today) == UpdateTask(d, p, today)
  {
    var r := UpdateTask(d, p, today);
    if TaskIndex(d, p.id).Some? {
      var k := TaskIndex(d, p.id).value;
      FirstMatchAfterUpdate(d.tasks, TaskKey, p.id, k, r.tasks[k]);
      assert r.tasks == d.tasks[k := r.tasks[k]];
      assert TaskIndex(r, p.id) == Some(k);
      if Completes(p) {
        LogCompletionIdempotent(d.journal, today, r.tasks[k].name);
      }
    }
  }

  /**
   `r` is `d` with `n` sessions added to the task at index `k`: that task's
   counter grew by `n`, its other fields, every other task, the subjects and
   the journal are as in `d`.
   */
  predicate SessionsAdded(d: Document, r: Document, k: nat, n: int)
    requires k < |d.tasks|
  {
    && |r.tasks| == |d.tasks|
    && Sessions(r.tasks[k]) == Sessions(d.tasks[k]) + n
    && r.tasks[k].(pomodoroSessions := d.tasks[k].pomodoroSessions) == d.tasks[k]
    && (forall j :: 0 <= j < |d.tasks| && j != k ==> r.tasks[j] == d.tasks[j])
    && r.subjects == d.subjects && r.journal == d.journal
  }

  /**
   The browser posts `increment_pomodoro` once per finished focus session:
   `n` sessions on task `id` in a row add exactly `n` to the first matching
   task's counter and change nothing else; without a matching task nothing
   changes at all.
   */
  method RunSessions(d: Document, id: string, n: nat) returns (r: Document)
    ensures TaskIndex(d, id).None? || n == 0 ==> r == d
    ensures TaskIndex(d, id).Some? ==>
      TaskIndex(r, id) == TaskIndex(d, id) && SessionsAdded(d, r, TaskIndex(d, id).value, n)
  {
    r := d;
    var i := 0;
    while i < n
      invariant 0 <= i <= n
      invariant TaskIndex(d, id).None? || i == 0 ==> r == d
      invariant TaskIndex(d, id).Some? ==>
        TaskIndex(r, id) == TaskIndex(d, id) && SessionsAdded(d, r, TaskIndex(d, id).value, i)
    {
      if TaskIndex(d, id).Some? {
        IncrementPomodoroStep(d, r, id, TaskIndex(d, id).value, i);
      }
      r := IncrementPomodoro(r, id);
      i := i + 1;
    }
  }

  /** One more session on a document that already has `m` sessions added to the task at `k`. */
  lemma IncrementPomodoroStep(d: Document, prev: Document, id: string, k: nat, m: int)
    requires k < |d.tasks| && TaskIndex(prev, id) == Some(k) && SessionsAdded(d, prev, k, m)
    ensures TaskIndex(IncrementPomodoro(prev, id), id) == Some(k)
    ensures SessionsAdded(d, IncrementPomodoro(prev, id), k, m + 1)
  {
    IncrementPomodoroAt(prev, id, k);
    var r := IncrementPomodoro(prev, id);
    FirstMatchAfterUpdate(prev.tasks, TaskKey, id, k, r.tasks[k]);
  }

  /** One session on the task at the first match, as a single-element update of the task list. */
  lemma IncrementPomodoroAt(d: Document, id: string, k: nat)
    requires TaskIndex(d, id) == Some(k)
    ensures IncrementPomodoro(d, id) == d.(tasks := d.tasks[k := Bump(d.tasks[k])])
  {
  }

  /** A task added under a fresh id and then given `n` focus sessions shows exactly `n` sessions. */
  method FreshTaskSessions(d: Document, request: Task, freshId: string, n: nat) returns (r: Document)
    requires FreshTaskId(d, freshId)
    ensures |r.tasks| == |d.tasks| + 1
    ensures r.tasks[|d.tasks|].pomodoroSessions == Some(n)
    ensures r.tasks[..|d.tasks|] == d.tasks
  {
    var a := AddTask(d, request, freshId);
    assert TaskIndex(a, freshId) == Some(|d.tasks|);
    r := RunSessions(a, freshId, n);
    assert forall j :: 0 <= j < |d.tasks| ==> r.tasks[j] == a.tasks[j];
  }

  /**
   A completion logged on a day whose entry is new or already carries the
   marker survives a later journal save the same day.
   */
  lemma CompleteThenSaveKeepsLine(d: Document, p: TaskPatch, today: string, entry: string)
    requires TaskIndex(d, p.id).Some? && Completes(p)
    requires today !in d.journal || Contains(d.journal[today], Marker)
    ensures var u := UpdateTask(d, p, today);
      var line := CompletionLine(u.tasks[TaskIndex(d, p.id).value].name);
      Contains(GetJournalEntry(SaveJournal(u, entry, today), today), line)
  {
    var u := UpdateTask(d, p, today);
    var text := u.journal[today];
    if today !in d.journal {
      assert Marker <= Header;
      assert Marker <= text;
    } else {
      var previous := d.journal[today];
      assert text == previous + text[|previous|..];
      ContainsConcat(previous, text[|previous|..], Marker);
    }
    SaveJournalKeepsCompletions(u, entry, today, CompletionLine(u.tasks[TaskIndex(d, p.id).value].name));
  }
}
