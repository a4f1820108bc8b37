/**
 The journal: one free-text entry per date. Completing a task appends a
 `- name` line under a `Completed tasks:` header; saving from the journal tab
 replaces today's entry, unless that entry holds the header, in which case the
 new text is put in front of it.
 */
module Journal {
  import opened Text
  import opened Planner

  const Header := "Completed tasks:\n"
  const Marker := "Completed tasks:"

  /** The line a completed task contributes to today's entry. */
  function CompletionLine(name: string): (line: string)
    ensures |line| == |name| + 3 && line[..2] == "- " && line[|line| - 1] == '\n'
    ensures line[2..|line| - 1] == name
  {
    "- " + name + "\n"
  }

  /** The header alone never contains a completion line: it has no `-`. */
  lemma HeaderOmitsLine(name: string)
    ensures !Contains(Header, CompletionLine(name))
  {
    assert forall i :: 0 <= i < |Header| ==> Header[i] != '-';
    NotContainsMissingChar(Header, CompletionLine(name), '-');
  }

  /**
   Logs the completion of a task called `name` in today's entry: an absent
   entry starts with the header, and the line is appended unless the entry
   already contains it.
   */
  function LogCompletion(journal: map<string, string>, today: string, name: string): (r: map<string, string>)
    ensures r.Keys == journal.Keys + {today}
    ensures forall date :: date in journal && date != today ==> r[date] == journal[date]
    ensures Contains(r[today], CompletionLine(name))
    ensures today in journal ==> journal[today] <= r[today]
    ensures today in journal && Contains(journal[today], CompletionLine(name)) ==> r == journal
    ensures today in journal && !Contains(journal[today], CompletionLine(name)) ==>
      r[today] == journal[today] + CompletionLine(name)
    ensures today !in journal ==> Header <= r[today]
  {
    var base := if today in journal then journal[today] else Header;
    var line := CompletionLine(name);
    var text := if Contains(base, line) then base else base + line;
    ContainsSuffix(base, line);
    assert base <= text;
    journal[today := text]
  }

  /** On a day without an entry, the entry becomes the header followed by the one completion line. */
  lemma LogCompletionStartsEntry(journal: map<string, string>, today: string, name: string)
    requires today !in journal
    ensures LogCompletion(journal, today, name)[today] == Header + CompletionLine(name)
  {
    HeaderOmitsLine(name);
  }

  /** Logging the same completion twice on one day leaves the journal as after the first time. */
  lemma LogCompletionIdempotent(journal: map<string, string>, today: string, name: string)
    ensures LogCompletion(LogCompletion(journal, today, name), today, name) == LogCompletion(journal, today, name)
  {
  }

  /** `get_journal_entry`: the stored text for `date`, or the empty string when there is none. */
  function GetJournalEntry(d: Document, date: string): (r: string)
    ensures date in d.journal ==> r == d.journal[date]
    ensures date !in d.journal ==> r == ""
  {
    if date in d.journal then d.journal[date] else ""
  }

  /**
   `save_journal`: writes `entry` as today's text; when today's existing text
   contains the completed-tasks marker, that text is kept after a blank line.
   */
  function SaveJournal(d: Document, entry: string, today: string): (r: Document)
    ensures r.tasks == d.tasks && r.subjects == d.subjects
    ensures r.journal.Keys == d.journal.Keys + {today}
    ensures forall date :: date in d.journal && date != today ==> r.journal[date] == d.journal[date]
    ensures entry <= r.journal[today]
    ensures today in d.journal && Contains(d.journal[today], Marker) ==>
      && IsSuffix(d.journal[today], r.journal[today])
      && |r.journal[today]| == |entry| + 2 + |d.journal[today]|
      && r.journal[today][|entry|..|entry| + 2] == "\n\n"
    ensures !(today in d.journal && Contains(d.journal[today], Marker)) ==> r.journal[today] == entry
  {
    if today in d.journal && Contains(d.journal[today], Marker) then
      var previous := d.journal[today];
      d.(journal := d.journal[today := entry + "\n\n" + previous])
    else
      d.(journal := d.journal[today := entry])
  }

  // ---------------------------------------------------------------------------
  // Properties relating several calls

  /**
   Once today's entry carries the completed-tasks marker, saving keeps it and
   keeps every piece of its text (every logged `- name` line among them), so
   the next save prepends again.
   */
  lemma SaveJournalKeepsCompletions(d: Document, entry: string, today: string, piece: string)
    requires today in d.journal && Contains(d.journal[today], Marker)
    requires Contains(d.journal[today], piece)
    ensures Contains(SaveJournal(d, entry, today).journal[today], Marker)
    ensures Contains(SaveJournal(d, entry, today).journal[today], piece)
  {
    var previous := d.journal[today];
    ContainsConcat(entry + "\n\n", previous, Marker);
    ContainsConcat(entry + "\n\n", previous, piece);
  }

  /** Saving on a day with no entry stores exactly the text given. */
  lemma SaveJournalOnFreshDay(d: Document, entry: string, today: string)
    requires today !in d.journal
    ensures GetJournalEntry(SaveJournal(d, entry, today), today) == entry
  {
  }

  /** Saving over an auto-logged entry puts the new text in front of the log, after a blank line. */
  lemma SaveJournalOverLog(d: Document, entry: string, today: string, lines: string)
    requires today in d.journal && d.journal[today] == Header + lines
    ensures GetJournalEntry(SaveJournal(d, entry, today), today) == entry + "\n\n" + Header + lines
  {
    assert Marker <= Header;
    assert Marker <= Header + lines;
  }

  /** The stored text for a date is read back unchanged, and a date never written reads as empty. */
  lemma GetAfterSave(d: Document, entry: string, today: string, date: string)
    ensures date == today ==> Contains(GetJournalEntry(SaveJournal(d, entry, today), date), entry)
    ensures date != today ==> GetJournalEntry(SaveJournal(d, entry, today), date) == GetJournalEntry(d, date)
  {
    var r := SaveJournal(d, entry, today);
    assert entry <= r.journal[today];
  }

  /**
   A save made before any completion that day leaves an entry without the
   marker; a later completion appends its line to that text, and the next save
   replaces the whole entry, line included.
   */
  lemma LoggedLineLostAfterPlainSave()
    ensures var j := LogCompletion(map["2024-05-01" := "hello"], "2024-05-01", "X");
      && j["2024-05-01"] == "hello- X\n"
      && var d := SaveJournal(Document([], [], j), "bye", "2024-05-01");
      && d.journal["2024-05-01"] == "bye"
      && !Contains(d.journal["2024-05-01"], CompletionLine("X"))
  {
    var j := LogCompletion(map["2024-05-01" := "hello"], "2024-05-01", "X");
    NotContainsMissingChar("hello", CompletionLine("X"), '-');
    assert j["2024-05-01"] == "hello- X\n";
    NotContainsMissingChar("bye", CompletionLine("X"), '-');
  }

  /**
   On a day whose entry lacks the completed-tasks marker, a completion does
   not add the marker (task names do not carry it), so the next save replaces
   the whole entry: the saved text is exactly the new one, and the logged
   line survives only if the new text itself contains it.
   */
  lemma PlainEntryDropsLog(d: Document, entry: string, today: string, name: string)
    requires today in d.journal && !Contains(d.journal[today], Marker)
    requires !Contains(name, Marker)
    ensures var logged := d.(journal := LogCompletion(d.journal, today, name));
      && !Contains(logged.journal[today], Marker)
      && SaveJournal(logged, entry, today).journal[today] == entry
  {
    var previous := d.journal[today];
    var line := CompletionLine(name);
    if !Contains(previous, line) {
      var rest := line[1..];
      assert !Contains(" " + (name + "\n"), Marker) by {
        NotContainsAround(name, '\n', "", Marker);
        assert name + ['\n'] + "" == name + "\n";
        assert Marker[0] == 'C';
      }
      assert rest == " " + (name + "\n");
      NotContainsAround(previous, '-', rest, Marker);
      assert previous + ['-'] + rest == previous + line;
    }
  }
}
