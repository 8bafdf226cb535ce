# Lecture timetable model

A Dafny model of the lecture-timetable core of a small education-administration
service: a per-teacher timetable of weeks, each holding days, each holding
lectures (`time`, `subject`, `topic`, and a `completed` flag that defaults to
false). Two parts are modelled.

**The backend handlers** (`TTcontroller.ts`). The timetable collection is a class
holding a sequence of documents `(teacherId, weeks)` in insertion order.
`StoreTimetable` appends unconditionally, so one teacher may own several
documents. `GetTimetable`, `UpdateTimetable`, `DeleteTimetable` and
`GetPendingLectures` act on the *first* document with a matching `teacherId`,
and return `NotFound` when there is none. `GetPendingLectures` walks weeks, then
days, then lectures with three nested loops, collecting the lectures with
`completed == false`. It is proved equal to the reference definition
`PendingLectures`: the week -> day -> lecture flattening filtered on
`!completed`. Lemmas about that definition cover:

- distribution over concatenation;
- subsequence of the flattening (stored order kept);
- exact multiplicities;
- pending + completed = total;
- empty result when everything is completed.

Lemmas about the collection cover:

- store then get;
- a duplicate store staying hidden behind the earlier document;
- update then get;
- delete leaving every other teacher's lookup unchanged.

**The timetable page** (`TTschedule.tsx`). These are pure functions:

- `UpdateLectureStatus` rewrites the `status` of exactly one lecture. It keeps the shape, and everything else is unchanged. Out-of-range indices leave the timetable unchanged, and no timetable stays none. It is idempotent.
- `HandleDaySelection` toggles a weekday in the form's `list_of_days`.
- `GenerateTimetable` decides whether a generate request is sent (at least one file, non-empty start and end time, at least one day) and what it carries.

Files: `wrappers.dfy` (Option, Result), `timetable.dfy` (data model, flattening,
pending-lecture definition and its lemmas), `timetable_store.dfy` (the
collection class and its lemmas), `scheduler.dfy` (the page's functions).

Modelling choices:

- The source does not say which matching document a lookup acts on when there are duplicates. Only "one matching document" is certain. The model picks the first in insertion order, which is the database's natural order in practice.
- The page's optional `status?: string` is `Option<string>`.
- The backend `completed` flag and the page's `status` are separate fields of separate types. The model does not relate them, and neither does the source.

## Model

| member | source | states |
|---|---|---|
| `Timetable.NewLecture` | TTschema.ts:3-8 | a lecture created without a `completed` value is not completed and carries the given time, subject and topic |
| `Timetable.Incomplete` | TTcontroller.ts:104-107 | the filter keeps a lecture iff it occurs in the input and is not completed, and never lengthens the list |
| `Timetable.IncompleteAppend` | TTcontroller.ts:102-110 | filtering on `!completed` distributes over concatenation of lecture lists |
| `Timetable.PendingAppend` | TTcontroller.ts:102-110 | pending lectures of `w1 ++ w2` are pending(w1) followed by pending(w2) |
| `Timetable.IncompleteIsSubsequence` | TTcontroller.ts:104-107 | the kept lectures are a subsequence of the input: relative order is preserved |
| `Timetable.PendingIsSubsequence` | TTcontroller.ts:100-110 | the pending list is a subsequence of the week -> day -> lecture flattening |
| `Timetable.IncompleteMultiplicity` | TTcontroller.ts:104-107 | each incomplete lecture appears exactly as often as in the input, each completed one not at all |
| `Timetable.PendingCount` | TTcontroller.ts:102-110 | number of pending plus number of completed lectures equals the total number of lectures |
| `Timetable.AllCompletedNoPending` | TTcontroller.ts:100-113 | a timetable whose lectures are all completed yields the empty list |
| `Timetable.PendingExample` | TTcontroller.ts:100-113 | one week with a pending Monday "09:00 Math Algebra" and a completed Tuesday lecture yields exactly the Monday lecture |
| `TimetableStore.FindFirst` | TTcontroller.ts:42 | lookup by key: no result iff no document has the key; otherwise a matching document with no matching document before it |
| `TimetableStore.TimetableCollection.StoreTimetable` | TTcontroller.ts:29-32 | the new document is appended to the collection, with no duplicate check |
| `TimetableStore.TimetableCollection.GetTimetable` | TTcontroller.ts:41-49 | NotFound iff no document has the key; otherwise the first document of that teacher |
| `TimetableStore.TimetableCollection.UpdateTimetable` | TTcontroller.ts:57-67 | NotFound iff no document has the key, and then the collection is unchanged (no upsert); otherwise that document's weeks are replaced wholesale, its teacherId is kept, and the updated document is returned |
| `TimetableStore.TimetableCollection.DeleteTimetable` | TTcontroller.ts:75-84 | NotFound iff no document has the key, and then the collection is unchanged; otherwise exactly the first matching document is removed and the others keep their order |
| `TimetableStore.TimetableCollection.GetPendingLectures` | TTcontroller.ts:91-113 | NotFound iff no document has the key; otherwise the nested loops return exactly `PendingLectures` of the found document's weeks |
| `TimetableStore.StoreThenGet` | TTcontroller.ts:30-49 | storing a timetable for a teacher with none and then getting it returns the stored teacherId and weeks |
| `TimetableStore.FindAfterStore` | TTcontroller.ts:30-42 | after an append, lookup returns the earlier match if one existed (a duplicate is shadowed), else the new document if it matches, else nothing |
| `TimetableStore.FindAfterUpdate` | TTcontroller.ts:60 | after replacing the weeks of the first match, the same lookup finds the same position, now holding the new weeks |
| `TimetableStore.LookupAfterDelete` | TTcontroller.ts:77 | deleting one teacher's document leaves every other teacher's lookup result (absent, or the same document) unchanged |
| `Scheduler.UpdateLectureStatus` | TTschedule.tsx:121-143 | no timetable stays none; the shape is the same; week numbers, day names and every other lecture are unchanged; the addressed lecture has the new status and keeps its time, subject and topic |
| `Scheduler.UpdateOutOfRangeUnchanged` | TTschedule.tsx:122-142 | an index outside the timetable (including negative) leaves it unchanged |
| `Scheduler.UpdateLectureStatusIdempotent` | TTschedule.tsx:133 | applying the same status update twice equals applying it once |
| `Scheduler.Without` | TTschedule.tsx:63 | the removed day no longer occurs, and every other day occurs as often as before |
| `Scheduler.WithoutIsSubsequence` | TTschedule.tsx:63 | removal keeps the remaining days in their order |
| `Scheduler.HandleDaySelection` | TTschedule.tsx:59-66 | the day's membership is flipped: a present day is removed everywhere and the rest keep order and multiplicity; an absent day is appended at the end; other form fields are unchanged |
| `Scheduler.ToggleTwiceRestores` | TTschedule.tsx:62-64 | toggling an absent day twice gives back the original form |
| `Scheduler.GenerateTimetable` | TTschedule.tsx:69-94 | the no-files alert iff there is no file; a request is sent iff there is a file, a non-empty start and end time and a selected day; the request carries the files, the form and the model name "gemini-2.0-flash" |

## Left out

- HTTP framing, status codes and response messages: the handlers' results are modelled as `Result` values, with `NotFound` for the 404 paths.
- Persistence failures: the 500 paths taken when the database call throws are not modelled. The database is a sequence field of a class.
- Concurrency: concurrent requests and the database's last-writer-wins behaviour are not modelled. Each handler is one atomic step.
- The `console.log` calls in `getPendingLectures` are not modelled (output only).
- The request to the timetable generator and its response (axios, `FormData`, `alert`, `setLoading`) are not modelled. `GenerateTimetable` returns which alert is shown or the request that would be posted.
- `fetchPendingLectures` and the page's rendering are not modelled. The page reads the flat pending list as nested weeks, and that mismatch is also not modelled.
- `handleChange` is not modelled: its `Number(value)` coercion of `num_weeks` and `lecture_duration` is floating point. `lectureDuration` is carried as a `real` and never computed on.
- PDF text extraction, the language-model call and its JSON recovery (`tt.py`) are not modelled: they are foreign libraries and network I/O.
- The OMR result handler and schemas are not modelled: their only logic is `JSON.parse` and `new Date`, both foreign calls.
- The routing and schema declarations are not modelled beyond the lecture's `completed = false` default (`NewLecture`).
- The numeric `weekNumber` / `week` fields are modelled as `int`.
