# StudPlan planner document, modelled in Dafny

StudPlan is a single-file Flask study planner. All of its state lives in one
JSON document with three parts:

- `tasks`: an ordered list of tasks, each with an id, name, date, subject id,
  completion flag and count of focus sessions;
- `subjects`: an ordered list of subjects, each owning an ordered list of
  chapters;
- `journal`: a map from a `YYYY-MM-DD` date to free text.

Every mutating endpoint loads the document, changes it and writes it back.
This project models each endpoint as a pure function from the loaded
document to the document it saves. The request body, the freshly generated
uuid and today's date are explicit parameters. The browser-side
`formatTime` of the focus timer is modelled as well.

Modules:

- `Optional`: the option type. It models a JSON field that may be absent.
- `Text`: substring containment, as Python's `in` on strings, with a
  positional reference definition. Also decimal rendering and `padStart`,
  as JavaScript's `String(n).padStart(2, '0')`.
- `Records`: the two list idioms every endpoint uses:
  - the first-match loop that stops at the first record with an id, then `break`s;
  - the list comprehension that keeps every record whose id differs.
- `Planner`: the document, `load_data`, and id uniqueness (`WellFormed`).
- `Tasks`: `add_task`, `update_task`, `delete_task` and `increment_pomodoro`.
- `Subjects`: `add_subject`, `delete_subject`, `add_chapter` and `delete_chapter`.
- `Journal`: the completion log written by `update_task`, `save_journal` and
  `get_journal_entry`.
- `Timer`: `formatTime`, the 25-minute session and the countdown display.

Each mutating operation and the timer display is paired with a property
that relates it to other calls:

- delete undoes add;
- deleting a task, a subject or a chapter twice is the same as once, and so
  is repeating an update on the same day;
- `n` focus sessions add exactly `n`;
- the timer display reads back as the seconds it shows;
- id uniqueness survives every mutation.

One behaviour is worth knowing. It follows from the code as written. It is
proved for every entry and task name by `Journal.PlainEntryDropsLog`, and on
a concrete journal by `Journal.LoggedLineLostAfterPlainSave`:

1. A journal save made before any task is completed that day stores the
   text without the `Completed tasks:` header.
2. A later completion then appends its `- name` line directly to that text.
   No header is added, and no newline is added if the text lacks one.
3. Because the entry still has no header, the next journal save replaces
   the whole entry, and the logged line is lost.

When the entry does carry the header, saving keeps every logged line
(`Journal.SaveJournalKeepsCompletions`, `Tasks.CompleteThenSaveKeepsLine`).

## Model

| member | source | states |
|---|---|---|
| Planner.Load | smart.py:14-20 | a missing or empty data file yields a document with no tasks, no subjects and no journal entries, whose ids are trivially unique; otherwise the stored document is returned unchanged |
| Tasks.TaskIndex | smart.py:676-677 | when the loop finds a task, its index is in range, the task there has the requested id and no earlier task has it; the loop finds nothing exactly when no task has the id |
| Tasks.Completes | smart.py:680 | a request completes the task exactly when it carries `completed` set to true; a missing flag does not |
| Tasks.Merge | smart.py:678 | every field the request carries overrides the task's, every field it omits keeps the task's value, and the id is the request's (equal to the one the task was found by) |
| Tasks.Sessions | smart.py:764 | the session count as read with a default: the stored count when present, 0 when absent |
| Tasks.Bump | smart.py:764 | the task's count becomes the count read with default 0, plus one, and is then always present; no other field changes |
| Tasks.AddTask | smart.py:663-667 | the list grows by exactly one and earlier tasks are untouched; the new task has the fresh id, is not completed and has 0 sessions, and keeps the request's name, date and subject; subjects and journal are unchanged; unique ids stay unique |
| Tasks.UpdateTask | smart.py:676-689 | without a task of that id nothing changes; otherwise only the first such task is replaced, by the request merged over it; the journal changes only when the request sets `completed`, and then today's entry exists and contains the merged name's `- name` line; an existing entry is left alone when it already has the line and otherwise gains exactly that line at its end, with no header; a new entry is exactly the header followed by the line; other dates are untouched |
| Tasks.DeleteTask | smart.py:697-698 | a task survives exactly when it was present and has a different id; every copy of a surviving task is kept and every copy of a matching one dropped; survivors keep their relative order; subjects and journal are unchanged; deleting an absent id changes nothing |
| Tasks.IncrementPomodoro | smart.py:761-765 | without a task of that id nothing changes; otherwise only the first such task changes, and its session count becomes the old count (0 when absent) plus one |
| Tasks.UpdateTaskPreservesWellFormed | smart.py:676-679 | an update keeps all ids unique, because the merged task keeps the id it was found by |
| Tasks.IncrementPomodoroPreservesWellFormed | smart.py:761-765 | counting a session keeps all ids unique |
| Tasks.DeleteTaskPreservesWellFormed | smart.py:697-698 | deleting keeps all ids unique |
| Tasks.AddThenDeleteTask | smart.py:663-698 | deleting a task just added under a fresh id gives back the original document |
| Tasks.DeleteTaskIdempotent | smart.py:697-698 | a second delete of the same id changes nothing |
| Tasks.DeleteThenUpdateIsNoOp | smart.py:676-698 | updating a task that was just deleted leaves the document as the delete left it |
| Tasks.UpdateTaskIdempotent | smart.py:676-689 | repeating the same update on the same day gives the same document as doing it once, including the journal, because the `- name` line is not logged twice |
| Tasks.RunSessions | smart.py:761-765 | `n` successive session increments on one id add exactly `n` to the first matching task's count; that task's other fields, the other tasks, the subjects and the journal are unchanged, and the same task is still the first match; without a match, or with `n` = 0, nothing changes |
| Tasks.IncrementPomodoroStep | smart.py:761-765 | one more increment on a document already `m` sessions ahead keeps the first match in place and makes it `m + 1` sessions ahead |
| Tasks.IncrementPomodoroAt | smart.py:761-765 | when the first match is at index `k`, an increment replaces exactly the task at `k` by the same task with one more session |
| Tasks.FreshTaskSessions | smart.py:663-765 | a task added under a fresh id and then given `n` focus sessions shows exactly `n` sessions, and every earlier task is untouched |
| Tasks.CompleteThenSaveKeepsLine | smart.py:680-782 | a completion logged on a day whose entry is new or already has the header is still in the entry after a later journal save that day |
| Subjects.SubjectIndex | smart.py:730-731 | when the loop finds a subject, its index is in range, the subject there has the requested id and no earlier subject has it; the loop finds nothing exactly when no subject has the id |
| Subjects.AddSubject | smart.py:706-709 | the subject list grows by exactly one and earlier subjects are untouched; the new subject has the fresh id, the request's name and no chapters; tasks and journal are unchanged; unique ids stay unique |
| Subjects.DeleteSubject | smart.py:717-718 | a subject survives exactly when it was present and has a different id; every copy of a surviving subject is kept and every copy of a matching one dropped; survivors keep their order; tasks, including any that still name the deleted subject, and the journal are unchanged; deleting an absent id changes nothing |
| Subjects.AddChapter | smart.py:730-736 | without a subject of that id nothing changes; otherwise the first such subject keeps its id and name and gains exactly one chapter at the end, with the fresh id and the requested name; every other subject, the tasks and the journal are unchanged |
| Subjects.DeleteChapter | smart.py:749-752 | without a subject of that id nothing changes; otherwise, in the first such subject, a chapter survives exactly when it has a different id, every copy of a surviving chapter is kept, and survivors keep their order, so an absent chapter id leaves the chapters as they were; every other subject, the tasks and the journal are unchanged |
| Subjects.DeleteSubjectPreservesWellFormed | smart.py:717-718 | deleting a subject keeps all ids unique |
| Subjects.AddChapterPreservesWellFormed | smart.py:730-736 | adding a chapter under a fresh id keeps all ids unique |
| Subjects.DeleteChapterPreservesWellFormed | smart.py:749-752 | deleting a chapter keeps all ids unique |
| Subjects.DeleteSubjectIdempotent | smart.py:717-718 | a second delete of the same subject id changes nothing |
| Subjects.DeleteChapterIdempotent | smart.py:749-752 | a second delete of the same chapter in the same subject changes nothing |
| Subjects.AddThenDeleteSubject | smart.py:706-718 | deleting a subject just added under a fresh id gives back the original document |
| Subjects.AddThenDeleteChapter | smart.py:730-752 | deleting a chapter just added under a fresh id gives back the original document, whether or not the subject exists |
| Journal.HeaderOmitsLine | smart.py:683-687 | the bare header never contains a `- name` completion line |
| Journal.CompletionLine | smart.py:686 | the line is `- `, then the task name, then a newline, and the name can be read back from it |
| Journal.LogCompletion | smart.py:682-688 | today's entry exists afterwards and contains the `- name` line; an existing entry without the line gains exactly that line at its end, with no header; an entry that already has the line is left as it was; a new entry starts with the header; other dates are untouched |
| Journal.LogCompletionStartsEntry | smart.py:682-688 | on a day without an entry, the entry becomes exactly the header followed by the one `- name` line |
| Journal.LogCompletionIdempotent | smart.py:686-688 | logging the same completion twice on one day gives the same journal as logging it once |
| Journal.GetJournalEntry | smart.py:791 | the stored text for the date, or the empty string when that date has none |
| Journal.SaveJournal | smart.py:774-782 | only today's entry changes, and it always begins with the new text; if the old entry contains `Completed tasks:`, the new text is followed by exactly two newlines and then the old entry in full; otherwise the entry is exactly the new text |
| Journal.SaveJournalKeepsCompletions | smart.py:778-780 | saving over an entry with the header keeps the header and every piece of the old text, so logged lines survive and the next save prepends again |
| Journal.SaveJournalOnFreshDay | smart.py:778-782 | on a day with no entry, the saved entry reads back as exactly the new text |
| Journal.SaveJournalOverLog | smart.py:778-780 | saving over an auto-logged entry (header plus lines) gives the new text, a blank line, then the log |
| Journal.GetAfterSave | smart.py:774-791 | after a save, today's entry reads back containing the new text, and every other date reads back as before |
| Journal.PlainEntryDropsLog | smart.py:682-782 | for every entry without `Completed tasks:` and every task name not containing it, logging a completion leaves the entry without the marker, so the next save stores exactly the new text, and the logged line survives only if the new text has it |
| Journal.LoggedLineLostAfterPlainSave | smart.py:680-782 | concretely: saving "hello", then completing task X, then saving "bye" leaves "bye"; the completion line was first glued to "hello" and then dropped |
| Timer.TwoDigits | smart.py:533 | the padded field has at least two characters, all digits, and exactly two below 100 |
| Timer.TwoDigitsValue | smart.py:533 | a padded field reads back as the number it renders |
| Timer.FormatTime | smart.py:530-534 | the display is clock text: at least two minute digits, a colon, two second digits; the minute field is the padded whole minutes and the seconds field the padded remainder |
| Timer.ClockParts | smart.py:533 | joining a minute field and a two-digit second field with a colon gives clock text whose fields are those two |
| Timer.FormatTimeRoundTrip | smart.py:530-534 | for every number of seconds, the display reads back as exactly that number, and its seconds field is below 60 |
| Timer.FormatTimeFields | smart.py:531-533 | the minute field reads back as the whole minutes and the seconds field as the remainder |
| Timer.FormatTimeInjective | smart.py:530-534 | two different numbers of seconds never show the same text |
| Timer.FormatTimeFiveChars | smart.py:530-534 | the display has exactly five characters `MM:SS` precisely when the time is below 6000 seconds (100 minutes), and then it reads back as the seconds |
| Timer.CountdownDisplay | smart.py:525-548 | every value the countdown shows, from 1500 seconds down to 0, is a five-character display that reads back as that value |
| Timer.SessionStartDisplay | smart.py:525-536 | a fresh 25-minute session shows `25:00` |
| Text.Contains | smart.py:687 | Python's `in` on strings; a text never contains a pattern longer than itself |
| Text.NotContainsAround | smart.py:778 | joining two texts that lack a pattern around a character the pattern does not have gives a text that still lacks it |
| Text.ContainsIff | smart.py:687 | the recursive substring test used for `not in` holds exactly when the pattern occurs at some position |
| Text.DecimalString | smart.py:533 | the decimal rendering of a number is non-empty, all digits, and has no leading zero |
| Text.DecimalRoundTrip | smart.py:533 | the decimal rendering reads back as the number |
| Text.DecimalLength | smart.py:533 | the rendering has one digit exactly below 10, and at most two exactly below 100 |
| Text.PadStart | smart.py:533 | the padded text is as long as the width or the original, whichever is longer; it ends with the original text, and every character before it is the pad character |
| Records.FirstMatch | smart.py:676-689 | the loop stops at an index whose record has the id, and no earlier record has it; it finds nothing exactly when no record has the id |
| Records.UpdateFirst | smart.py:730-736 | the loop that changes the first record with the id and then `break`s: without a match the list is unchanged; otherwise only the first matching record is replaced by its changed form, and the length is kept |
| Records.RemoveAll | smart.py:697-698 | a record survives the comprehension exactly when it was present with a different id; each survivor keeps its multiplicity; survivors keep their order; with no match the list is unchanged |
| Records.RemoveAllKeepsUnique | smart.py:697-698 | filtering a list with unique ids keeps them unique |
| Records.RemoveAppendedFresh | smart.py:663-698 | filtering out the id of a record just appended under a fresh id gives back the original list |

## Left out

- HTTP routing, Flask and `jsonify` responses: every endpoint returns a fixed success body, which carries no information.
- JSON file I/O (`save_data`, `json.load`): the model takes the loaded document as a parameter and returns the document to be saved. A missing or empty file is `None` in `Planner.Load`. A file with unreadable JSON, which makes the server raise, is not modelled.
- `uuid.uuid4()` and `datetime.now()`: both become parameters. A generated id is assumed fresh, through a `requires` on the adding members, since uuid collisions are not modelled.
- The page's HTML, CSS and the rest of its JavaScript, including the calendar, task rendering, due-date alerts, the modal and the timer's `setInterval` loop. For the timer, only `formatTime`, the 25-minute start value and the range the countdown passes through are modelled.
- Concurrency: two requests interleaving their load and save can lose an update. The model treats each request as atomic.
- JSON records are dynamic dictionaries in the server, but fixed datatypes here. Extra keys a client sends are not modelled.
- A request missing a key the server indexes directly, such as `id` or a task's `name`, raises `KeyError` in the server. Such requests are not modelled.
- `add_chapter` uses `.get`, so a missing `chapterName` is stored as `None`. The model treats the chapter name as always present.
- Tasks.Completes: only the boolean `true` counts as completed. Python truthiness of other JSON values (non-zero numbers, non-empty strings) is not modelled.
- Tasks.IncrementPomodoro: the session count is an unbounded integer. An absent count reads as 0. A non-numeric count stored by a client, which would make the server raise, is not modelled.
- Timer.FormatTime: defined on non-negative whole seconds as unbounded integers. The browser's `seconds` is a double, and `String(n)` switches to exponent notation from 1e21. The model, and so `Timer.FormatTimeRoundTrip`, is exact for the countdown's range 0 to 1500. It does not model double precision, so at very large values (beyond 2^53, where doubles lose whole-number precision, or from 1e21) the browser's text can differ from the model's. The countdown never goes below 0.
