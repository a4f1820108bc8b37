/**
 The planner's single persisted document: an ordered list of tasks, an
 ordered list of subjects each owning its chapters, and a journal mapping a
 `YYYY-MM-DD` date to free text.
 */
module Planner {
  import opened Optional
  import opened Records

  datatype Chapter = Chapter(id: string, name: string)

  datatype Subject = Subject(id: string, name: string, chapters: seq<Chapter>)

  /** `pomodoroSessions` is optional because the server reads it with a default of 0. */
  datatype Task = Task(
    id: string,
    name: string,
    date: string,
    subjectId: string,
    completed: bool,
    pomodoroSessions: Option<int>)

  datatype Document = Document(tasks: seq<Task>, subjects: seq<Subject>, journal: map<string, string>)

  function TaskKey(t: Task): string { t.id }
  function SubjectKey(s: Subject): string { s.id }
  function ChapterKey(c: Chapter): string { c.id }

  /** The document a fresh installation starts from. */
  const EmptyDocument := Document([], [], map[])

  /**
   `load_data`: a missing or zero-length data file (`None`) yields the empty
   document; otherwise the stored document is returned as it was saved.
   */
  function Load(stored: Option<Document>): (d: Document)
    ensures stored.None? ==> |d.tasks| == 0 && |d.subjects| == 0 && |d.journal| == 0
    ensures stored.None? ==> WellFormed(d)
    ensures stored.Some? ==> d == stored.value
  {
    match stored
    case None => EmptyDocument
    case Some(doc) => doc
  }

  /** Identifiers are unique: among tasks, among subjects, and among the chapters of each subject. */
  predicate WellFormed(d: Document)
  {
    && UniqueKeys(d.tasks, TaskKey)
    && UniqueKeys(d.subjects, SubjectKey)
    && forall i :: 0 <= i < |d.subjects| ==> UniqueKeys(d.subjects[i].chapters, ChapterKey)
  }

  predicate FreshTaskId(d: Document, id: string)
  {
    forall j :: 0 <= j < |d.tasks| ==> d.tasks[j].id != id
  }

  predicate FreshSubjectId(d: Document, id: string)
  {
    forall j :: 0 <= j < |d.subjects| ==> d.subjects[j].id != id
  }

  /** A generated chapter id clashes with no chapter of any subject. */
  predicate FreshChapterId(d: Document, id: string)
  {
    forall i, j :: 0 <= i < |d.subjects| && 0 <= j < |d.subjects[i].chapters| ==> d.subjects[i].chapters[j].id != id
  }
}
