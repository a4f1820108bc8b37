/**
 The subject endpoints: `add_subject`, `delete_subject`, `add_chapter` and
 `delete_chapter`. Chapters live inside their subject and are reached through
 the first subject with the requested id.
 */
module Subjects {
  import opened Optional
  import opened Records
  import opened Planner

  /** Where the endpoints' first-match loop stops for subject `id`. */
  function SubjectIndex(d: Document, id: string): (r: Option<nat>)
    ensures r.Some? ==> r.value < |d.subjects| && d.subjects[r.value].id == id
    ensures r.Some? ==> forall j :: 0 <= j < r.value ==> d.subjects[j].id != id
    ensures r.None? <==> FreshSubjectId(d, id)
  {
    FirstMatch(d.subjects, SubjectKey, id)
  }

  /** `add_subject`: the request record is appended with the fresh id and no chapters. */
  function AddSubject(d: Document, request: Subject, freshId: string): (r: Document)
    requires FreshSubjectId(d, freshId)
    ensures |r.subjects| == |d.subjects| + 1
    ensures r.subjects[..|d.subjects|] == d.subjects
    ensures var s := r.subjects[|d.subjects|];
      s.id == freshId && s.name == request.name && s.chapters == []
    ensures r.tasks == d.tasks && r.journal == d.journal
    ensures WellFormed(d) ==> WellFormed(r)
  {
    d.(subjects := d.subjects + [request.(id := freshId, chapters := [])])
  }

  /**
   `delete_subject`: drops every subject with the id, and its chapters with it;
   the others keep their order. Tasks naming the subject keep the dangling id.
   */
  function DeleteSubject(d: Document, id: string): (r: Document)
    ensures r.tasks == d.tasks && r.journal == d.journal
    ensures forall s :: s in r.subjects <==> s in d.subjects && s.id != id
    ensures forall s :: multiset(r.subjects)[s] == if s.id == id then 0 else multiset(d.subjects)[s]
    ensures IsSubsequence(r.subjects, d.subjects)
    ensures FreshSubjectId(d, id) ==> r == d
  {
    d.(subjects := RemoveAll(d.subjects, SubjectKey, id))
  }

  /** `add_chapter`: the first subject with the id gains one chapter at the end; nothing else changes. */
  function AddChapter(d: Document, subjectId: string, chapterName: string, freshId: string): (r: Document)
    requires FreshChapterId(d, freshId)
    ensures r.tasks == d.tasks && r.journal == d.journal && |r.subjects| == |d.subjects|
    ensures SubjectIndex(d, subjectId).None? ==> r == d
    ensures SubjectIndex(d, subjectId).Some? ==>
      var k := SubjectIndex(d, subjectId).value;
      && r.subjects[k].id == d.subjects[k].id && r.subjects[k].name == d.subjects[k].name
      && r.subjects[k].chapters == d.subjects[k].chapters + [Chapter(freshId, chapterName)]
      && forall j :: 0 <= j < |d.subjects| && j != k ==> r.subjects[j] == d.subjects[j]
  {
    var append := (s: Subject) => s.(chapters := s.chapters + [Chapter(freshId, chapterName)]);
    d.(subjects := UpdateFirst(d.subjects, SubjectKey, subjectId, append))
  }

  /**
   `delete_chapter`: in the first subject with the id, drops every chapter with
   the chapter id, the others keeping their order; nothing else changes.
   */
  function DeleteChapter(d: Document, subjectId: string, chapterId: string): (r: Document)
    ensures r.tasks == d.tasks && r.journal == d.journal && |r.subjects| == |d.subjects|
    ensures SubjectIndex(d, subjectId).None? ==> r == d
    ensures SubjectIndex(d, subjectId).Some? ==>
      var k := SubjectIndex(d, subjectId).value;
      && r.subjects[k].id == d.subjects[k].id && r.subjects[k].name == d.subjects[k].name
      && (forall c :: c in r.subjects[k].chapters <==> c in d.subjects[k].chapters && c.id != chapterId)
      && (forall c :: multiset(r.subjects[k].chapters)[c] ==
            if c.id == chapterId then 0 else multiset(d.subjects[k].chapters)[c])
      && IsSubsequence(r.subjects[k].chapters, d.subjects[k].chapters)
      && forall j :: 0 <= j < |d.subjects| && j != k ==> r.subjects[j] == d.subjects[j]
  {
    var filter := (s: Subject) => s.(chapters := RemoveAll(s.chapters, ChapterKey, chapterId));
    d.(subjects := UpdateFirst(d.subjects, SubjectKey, subjectId, filter))
  }

  // ---------------------------------------------------------------------------
  // Properties relating several calls

  /** Deleting a subject keeps ids unique. */
  lemma DeleteSubjectPreservesWellFormed(d: Document, id: string)
    requires WellFormed(d)
    ensures WellFormed(DeleteSubject(d, id))
  {
    var r := DeleteSubject(d, id);
    RemoveAllKeepsUnique(d.subjects, SubjectKey, id);
    forall i | 0 <= i < |r.subjects|
      ensures UniqueKeys(r.subjects[i].chapters, ChapterKey)
    {
      assert r.subjects[i] in d.subjects;
    }
  }

  /** Adding a chapter under a fresh id keeps ids unique. */
  lemma AddChapterPreservesWellFormed(d: Document, subjectId: string, chapterName: string, freshId: string)
    requires WellFormed(d) && FreshChapterId(d, freshId)
    ensures WellFormed(AddChapter(d, subjectId, chapterName, freshId))
  {
  }

  /** Deleting a chapter keeps ids unique. */
  lemma DeleteChapterPreservesWellFormed(d: Document, subjectId: string, chapterId: string)
    requires WellFormed(d)
    ensures WellFormed(DeleteChapter(d, subjectId, chapterId))
  {
    if SubjectIndex(d, subjectId).Some? {
      var k := SubjectIndex(d, subjectId).value;
      RemoveAllKeepsUnique(d.subjects[k].chapters, ChapterKey, chapterId);
    }
  }

  /** A second delete of the same subject id changes nothing. */
  lemma DeleteSubjectIdempotent(d: Document, id: string)
    ensures DeleteSubject(DeleteSubject(d, id), id) == DeleteSubject(d, id)
  {
    var r := DeleteSubject(d, id);
    assert forall j :: 0 <= j < |r.subjects| ==> r.subjects[j] in r.subjects;
  }

  /** A second delete of the same chapter changes nothing. */
  lemma DeleteChapterIdempotent(d: Document, subjectId: string, chapterId: string)
    ensures DeleteChapter(DeleteChapter(d, subjectId, chapterId), subjectId, chapterId) == DeleteChapter(d, subjectId, chapterId)
  {
    var r := DeleteChapter(d, subjectId, chapterId);
    if SubjectIndex(d, subjectId).Some? {
      var k := SubjectIndex(d, subjectId).value;
      FirstMatchAfterUpdate(d.subjects, SubjectKey, subjectId, k, r.subjects[k]);
      assert r.subjects == d.subjects[k := r.subjects[k]];
      assert SubjectIndex(r, subjectId) == Some(k);
      var cs := r.subjects[k].chapters;
      assert forall j :: 0 <= j < |cs| ==> cs[j] in cs;
      assert RemoveAll(cs, ChapterKey, chapterId) == cs;
    }
  }

  /** Deleting a subject just added under a fresh id restores the document. */
  lemma AddThenDeleteSubject(d: Document, request: Subject, freshId: string)
    requires FreshSubjectId(d, freshId)
    ensures DeleteSubject(AddSubject(d, request, freshId), freshId) == d
  {
    RemoveAppendedFresh(d.subjects, SubjectKey, AddSubject(d, request, freshId).subjects[|d.subjects|]);
  }

  /** Deleting a chapter just added under a fresh id restores the document. */
  lemma AddThenDeleteChapter(d: Document, subjectId: string, chapterName: string, freshId: string)
    requires FreshChapterId(d, freshId)
    ensures DeleteChapter(AddChapter(d, subjectId, chapterName, freshId), subjectId, freshId) == d
  {
    var a := AddChapter(d, subjectId, chapterName, freshId);
    if SubjectIndex(d, subjectId).Some? {
      var k := SubjectIndex(d, subjectId).value;
      FirstMatchAfterUpdate(d.subjects, SubjectKey, subjectId, k, a.subjects[k]);
      assert a.subjects == d.subjects[k := a.subjects[k]];
      assert SubjectIndex(a, subjectId) == Some(k);
      RemoveAppendedFresh(d.subjects[k].chapters, ChapterKey, Chapter(freshId, chapterName));
      var r := DeleteChapter(a, subjectId, freshId);
      assert r.subjects == a.subjects[k := d.subjects[k]];
    }
  }
}
