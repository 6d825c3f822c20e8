# RFID attendance rules, modelled in Dafny

This project models the rule engine of a school RFID attendance tracker. A scanner reads a card's tag. The tag
is resolved to a student, and the scan is classified as present, late or absent against two configurable cutoff
times. The result is appended to an attendance ledger that holds one record per student and day. Teachers and
parents then correct or annotate records, administrators activate, deactivate or re-register cards, and the
dashboard writes the cutoffs.

The shared store (the `students` and `attendanceRecords` arrays and the `attendanceSettings` object, which the
handlers update in place) is the class `Data.Store`. Its invariant `Valid()` says three things: tags are pairwise
distinct, there is at most one record per (studentId, date), and both cutoffs are well-formed "HH:MM" with
`lateAfter` strictly earlier. Every API handler that changes state is split in two:

- a decision function (`Intake`, `Correct`, `CheckCutoffs`, `Toggle`, `Register`) that gives the handler's
  answer for the current state, with its error cases;
- a method on the store (`Scan`, `CorrectRecord`, `UpdateSettings`, `SetCardStatus`, `RegisterCard`) that applies
  that answer. The method states the whole new state in terms of the old one and keeps `Valid()`.

The teacher portal works on its own copy of the ledger with an id counter. That is the class
`Teacher.TeacherPage`.

Files: `options.dfy` (Option), `seqs.dfy` (JavaScript `filter` / `findIndex`), `clock.dfy` ("HH:MM" text),
`text.dfy` (`trim`, decimal text), `data.dfy` (`src/lib/data.ts`), `attendance.dfy`
(`src/app/api/attendance/route.ts`), `cards.dfy` (`src/app/api/cards/route.ts`), `teacher.dfy`
(`src/app/teacher/page.tsx`), `dashboard.dfy` (`src/app/page.tsx`).

Naming: the source field `class` is `className` here, because `class` is a Dafny keyword. A request field that
the code tests with `!x` (missing or empty) is a `string`, with "" standing for both. A field that it tests with
`x !== undefined` is an `Option<string>`.

Some behaviour of the code that a reader might not expect, which the model keeps:

- A correction that carries only an `id` is accepted and changes nothing
  (src/app/api/attendance/route.ts:165-193).
- `absentReason` and `teacherNote` are set whatever the record's status is
  (src/app/api/attendance/route.ts:181-188).
- Registering a tag is refused when any student holds it, even the student being registered
  (src/app/api/cards/route.ts:99-109).
- The settings endpoint refuses a missing field before it checks the format
  (src/app/api/attendance/route.ts:215-229).

## Model

| member | source | states |
|---|---|---|
| `Clock.Hhmm` | src/app/api/attendance/route.ts:90 | the zero-padded "HH:MM" text of an hour and a minute matches the time pattern and reads back as that hour and minute |
| `Clock.HhmmOfParts` | src/app/api/attendance/route.ts:6-7 | reading a well-formed "HH:MM" text and printing it again gives the same text |
| `Clock.MinutesDetermineText` | src/app/api/attendance/route.ts:5-9 | two valid clock readings (hour < 24, minute < 60) with the same minute count are the same text |
| `Text.Trim` | src/app/teacher/page.tsx:43 | `trim` returns an infix of the input with only white space cut from either end, and neither starts nor ends with white space |
| `Text.TrimEmptyIffBlank` | src/app/teacher/page.tsx:43 | the trimmed text is empty exactly when the input is all white space |
| `Text.TrimIdempotent` | src/app/teacher/page.tsx:59 | trimming twice gives the same as trimming once |
| `Text.DecimalInjective` | src/app/teacher/page.tsx:68 | different counter values have different decimal texts |
| `Data.FindTag` | src/app/api/attendance/route.ts:61 | `find` by tag gives the first student holding the tag, and nothing exactly when no student holds it |
| `Data.FindStudent` | src/app/api/cards/route.ts:111 | `findIndex` by student number gives the first match, and -1 exactly when none matches |
| `Data.FindRecord` | src/app/api/attendance/route.ts:157 | `findIndex` by record id gives the first match, and -1 exactly when none matches |
| `Data.FindDay` | src/app/api/attendance/route.ts:93-95 | the same-day `find` gives the first record of that student on that date, and nothing exactly when there is none |
| `Data.CountStatus` | src/app/teacher/page.tsx:80-82 | the number of records with a status is the length of the `filter` selecting that status, and never more than the list |
| `Data.DocumentedStatus` | src/lib/data.ts:31-37 | the documented rule: present iff scanned at or before `lateAfter`; late iff scanned after it and at or before `absentAfter`; absent iff not scanned or scanned after both cutoffs |
| `Data.StatusCountsAddUp` | src/app/teacher/page.tsx:80-82 | present + late + absent counts of any record list add up to its length |
| `Data.DefaultCutoffsOrdered` | src/lib/data.ts:45-48 | the default cutoffs "07:00" (420 minutes) and "12:30" (750 minutes) are well-formed and ordered |
| `Data.SeedRosterValid` | src/lib/data.ts:50-199 | seed students have distinct student numbers and distinct tags, and every student's class is in `classes` |
| `Data.SeedLedgerValid` | src/lib/data.ts:113-197 | seed records are unique per (studentId, date) and have distinct ids |
| `Data.SeedRecordsReferenceStudents` | src/lib/data.ts:113-197 | every seed record names a seed student and copies that student's name, class and tag |
| `Data.SeedAbsencesShape` | src/lib/data.ts:138-176 | seed records without a time are absent, reasons and notes occur only on absent records, and every time is "" or a valid clock reading |
| `Data.Store.Seed` | src/lib/data.ts:45-197 | the initial store is the seed roster, seed ledger and default cutoffs, and satisfies the store invariant |
| `Attendance.CompareTime` | src/app/api/attendance/route.ts:4-9 | negative, zero or positive exactly as the first "HH:MM" time has fewer, equal or more minutes since midnight than the second |
| `Attendance.CompareTimeAntisymmetric` | src/app/api/attendance/route.ts:5-9 | swapping the arguments negates the comparison, and a time compares equal to itself |
| `Attendance.CompareTimeIsClockOrder` | src/app/api/attendance/route.ts:4-9 | on valid clock readings the comparison is negative exactly for an earlier (hour, minute), and zero exactly for the same text |
| `Attendance.DetermineStatus` | src/app/api/attendance/route.ts:12-18 | absent exactly when the time is after `absentAfter`; late exactly when after `lateAfter` and at or before `absentAfter`; present otherwise. A tie goes to the earlier bucket |
| `Attendance.DetermineStatusMonotone` | src/app/api/attendance/route.ts:12-18 | a later scan never gets an earlier bucket (present, then late, then absent) |
| `Attendance.DetermineStatusFollowsDocumentedRule` | src/lib/data.ts:31-37 | with ordered cutoffs the classifier gives what the documented threshold rule gives |
| `Attendance.DefaultCutoffScenario` | src/app/api/attendance/route.ts:12-18 | under the defaults: 06:55 and 07:00 are present, 08:15 and 12:30 are late, 12:31 is absent |
| `Attendance.ListRecords` | src/app/api/attendance/route.ts:27-41 | the listing holds exactly the records matching every given filter (class, date, student), and no more records than the ledger |
| `Attendance.ListRecordsKeepsLedgerOrder` | src/app/api/attendance/route.ts:27-37 | the listing of a concatenation is the concatenation of the listings, so ledger order is kept |
| `Attendance.ScanRecord` | src/app/api/attendance/route.ts:111-120 | the new record carries the fresh id, the student's number, name and class, the scan's date, time, status and tag, and no correction, reason or note |
| `Attendance.Intake` | src/app/api/attendance/route.ts:53-120 | scan checks in order: missing tag (400); unknown tag (red, 404); inactive card (red, 403); a record for that student today (yellow, existing record); otherwise a new record with the student's id, name and class, the tag, and `DetermineStatus` (green, buzzer). The existing record answered is the first of that student and day |
| `Attendance.IntakeDecisionTable` | src/app/api/attendance/route.ts:60-106 | when tags are distinct, a student's tag is refused as inactive iff the card is inactive, answered "already scanned" iff active with a record that day, and recorded iff active with none |
| `Attendance.RecordedKeepsKeysUnique` | src/app/api/attendance/route.ts:92-122 | appending the record of an accepted scan keeps the ledger at one record per student and day |
| `Attendance.SecondScanSameDay` | src/app/api/attendance/route.ts:92-106 | after an accepted scan, a second scan of that tag on the same day, at any time and with any cutoffs, answers "already scanned" with the first record |
| `Attendance.Scan` | src/app/api/attendance/route.ts:48-135 | POST appends exactly the accepted record, and a rejection leaves the ledger as it was; roster and cutoffs never change and the store invariant is kept |
| `Attendance.ParseStatus` | src/app/api/attendance/route.ts:168-175 | a status is accepted iff it is "present", "absent" or "late", and the parsed status prints back as the same name |
| `Attendance.StatusNameRoundTrip` | src/app/api/attendance/route.ts:169-170 | every status's name parses back to that status |
| `Attendance.Actor` | src/app/api/attendance/route.ts:177 | the corrector label: the given label when present and non-empty, otherwise "Teacher"; never empty |
| `Attendance.Merge` | src/app/api/attendance/route.ts:165-193 | the spread merge changes only status, correctedBy, absentReason and teacherNote. A given status brings the actor with it; a given reason or note replaces the old one; an absent field keeps the old value |
| `Attendance.Correct` | src/app/api/attendance/route.ts:150-193 | missing id (400), unknown id (404), invalid status (400), else the first record with that id is merged. Only status, correctedBy, absentReason and teacherNote can change. A status sets correctedBy to the given actor or "Teacher"; correctedBy alone is ignored; a supplied reason or note is set |
| `Attendance.IdOnlyCorrectionChangesNothing` | src/app/api/attendance/route.ts:165-193 | an id-only correction of an existing record succeeds and leaves the record unchanged |
| `Attendance.CorrectThenGiveReason` | src/app/api/attendance/route.ts:165-193 | correcting a record to "absent" and then giving a reason leaves that student's record for the day absent, with the reason and "Teacher" as corrector |
| `Attendance.CorrectRecord` | src/app/api/attendance/route.ts:145-199 | PATCH replaces only the record at the found index, writes nothing on any error, and keeps the store invariant |
| `Attendance.CheckCutoffs` | src/app/api/attendance/route.ts:215-236 | missing or empty field, then bad "HH:MM" format, then `lateAfter` not strictly earlier are refused in that order; acceptance returns both given values, and they are ordered |
| `Attendance.ReversedCutoffsRefused` | src/app/api/attendance/route.ts:223-236 | "09:00"/"08:00" is refused for ordering and "9:00" is refused for format |
| `Attendance.UpdateSettings` | src/app/api/attendance/route.ts:210-245 | PUT writes both cutoffs together or neither, so `lateAfter < absentAfter` holds afterwards |
| `Cards.ListCards` | src/app/api/cards/route.ts:10-30 | the listing shows exactly the cards of students matching the status filter (applied only for "active"/"inactive") and the exact-tag filter |
| `Cards.ViewsAppend` | src/app/api/cards/route.ts:23-29 | the `map` to card views of a concatenation is the concatenation of the maps |
| `Cards.ListCardsKeepsRosterOrder` | src/app/api/cards/route.ts:10-30 | the listing of a concatenated roster is the concatenation of the listings, so roster order is kept and `count` is the number of matching students |
| `Cards.ListCardsOfOne` | src/app/api/cards/route.ts:12-18 | a one-student roster lists that student's card exactly when it passes both filters |
| `Cards.Toggle` | src/app/api/cards/route.ts:39-66 | missing tag or action (400); an action other than activate/deactivate (400); unknown tag (404); else only the first holder's `rfidStatus` becomes active or inactive |
| `Cards.ToggleIdempotent` | src/app/api/cards/route.ts:53-66 | repeating the same action gives the same answer and leaves the roster as it is |
| `Cards.DeactivatedCardRefused` | src/app/api/cards/route.ts:62-66 | after a deactivation, a scan of that tag is refused as an inactive card, so no record is created |
| `Cards.SetCardStatus` | src/app/api/cards/route.ts:34-77 | PATCH overwrites only the found student, changes nothing on any error, and keeps tags distinct |
| `Cards.Register` | src/app/api/cards/route.ts:92-124 | missing field (400); a tag held by any student, active or not, conflicts (409) before the student lookup; unknown student (404); else the first student with that number gets the tag and an active card |
| `Cards.RegisterKeepsTagsDistinct` | src/app/api/cards/route.ts:99-124 | if tags were pairwise distinct before a registration, they still are after it |
| `Cards.RegisterThenResolve` | src/app/api/cards/route.ts:119-124 | after a registration the tag resolves to the registered student, whose card is active |
| `Cards.RegisterCard` | src/app/api/cards/route.ts:87-135 | POST overwrites only the registered student, changes nothing on any error, and keeps the store invariant |
| `Teacher.FilteredRecords` | src/app/teacher/page.tsx:22-24 | the view holds exactly the records of the selected class and date |
| `Teacher.FilteredRecordsKeepOrder` | src/app/teacher/page.tsx:22-24 | the view of a concatenation is the concatenation of the views, so ledger order is kept |
| `Teacher.UnrecordedStudents` | src/app/teacher/page.tsx:26-31 | exactly the students of the selected class that have no record in the class/date view, and no more entries than the roster |
| `Teacher.UnrecordedKeepsRosterOrder` | src/app/teacher/page.tsx:27-31 | the list for a concatenated roster is the concatenation of the lists, so roster order is kept |
| `Teacher.ViewCountsAddUp` | src/app/teacher/page.tsx:80-82 | presentCount + lateCount + absentCount equals the size of the view |
| `Teacher.GeneratedId` | src/app/teacher/page.tsx:68 | the page's id is "a" followed by the decimal text of the counter, and has at least four characters from counter 100 on |
| `Teacher.GeneratedIdsDistinct` | src/app/teacher/page.tsx:68 | ids "a" + counter are different for different counter values |
| `Teacher.SeedFitsPage` | src/app/teacher/page.tsx:11-12 | the seed ledger has distinct ids and none of the form "a" + n for n >= 100. It is one record per student and day, with classes matching the roster |
| `Teacher.SavedEdit` | src/app/teacher/page.tsx:41-44 | a saved edit changes only status, correctedBy and teacherNote: the chosen status, "Teacher" as actor, the old note when the draft is blank, and otherwise the non-empty trimmed draft |
| `Teacher.AbsentRecord` | src/app/teacher/page.tsx:66-76 | a manual absence has time "", status absent, the selected class and date, the student's id and name, and the student's tag, or "" if the student is not found |
| `Teacher.MarkAbsentOfUnrecorded` | src/app/teacher/page.tsx:66-78 | marking a student from the unrecorded list absent keeps one record per student and day, keeps classes consistent, and removes the student from the list |
| `Teacher.TeacherPage.constructor` | src/app/teacher/page.tsx:9-12 | the page starts with a copy of the ledger, counter 100, class "10A" and date "2026-02-25" |
| `Teacher.TeacherPage.Select` | src/app/teacher/page.tsx:9-10 | the pickers set the selected class and date |
| `Teacher.TeacherPage.Save` | src/app/teacher/page.tsx:39-46 | every record with that id becomes `SavedEdit` of itself, and all other records stay |
| `Teacher.TeacherPage.SaveNote` | src/app/teacher/page.tsx:57-60 | only records with that id change: their note becomes the trimmed draft, which may be empty |
| `Teacher.TeacherPage.AddAbsent` | src/app/teacher/page.tsx:66-78 | appends exactly one absence with the id "a" + counter, advances the counter, and the new id differs from every existing one |
| `Dashboard.TodayRecords` | src/app/page.tsx:10-11 | exactly the records dated today |
| `Dashboard.TodayRecordsKeepOrder` | src/app/page.tsx:11 | the selection for a concatenated ledger is the concatenation of the selections, so each record dated today appears once, in ledger order |
| `Dashboard.TodayCountsAddUp` | src/app/page.tsx:11-14 | presentToday + lateToday + absentToday equals the number of records dated today |
| `Dashboard.CountCards` | src/app/page.tsx:15-16 | the number of cards with a status is the length of the `filter` selecting that status |
| `Dashboard.CardCountsAddUp` | src/app/page.tsx:15-16 | activeCards + inactiveCards equals the number of students |
| `Dashboard.RecentScans` | src/app/page.tsx:18-25 | entries with a scan time only, each at most as often as the ledger holds it; exactly five when the ledger has at least five scanned entries, and all of them otherwise |
| `Dashboard.SaveSettings` | src/app/page.tsx:33-47 | the form refuses `lateAfter` not strictly before `absentAfter` and leaves the cutoffs alone; otherwise it writes both |
| `Dashboard.FormAgreesWithEndpoint` | src/app/page.tsx:36-41 | on well-formed times the dashboard form and the settings endpoint accept exactly the same cutoffs |

## Left out

- HTTP plumbing is not modelled: request parsing, the catch-all "Invalid request body" (400) answer, response
  messages and the settings echoed in responses. Each handler's answer is an outcome datatype with its status
  code, LED and buzzer.
- Body fields of other JSON types (numbers, `null`) are not modelled. Fields are strings or absent.
- The wall clock is not modelled. The scan's date (`toISOString`, a UTC date) and its local hour and minute are
  parameters of `Attendance.Scan`. The dashboard's "today" is a parameter too.
- Record ids made from `Date.now()` are not generated. `Attendance.Scan` takes the id as a parameter and does not
  assume it is unused. The correction endpoint acts on the first record with an id, and the teacher page acts on
  every record with it.
- Parsing of malformed time strings is not modelled (`split(":").map(Number)` and its NaN results). Times are read
  only where they match "HH:MM". The pattern admits values such as "99:99", which still get a minute count.
- Attendance.CompareTime: requires both texts to match "HH:MM". The source also compares other texts. Those
  give NaN (as an emptied input does), which makes every comparison false, or a count that does not match the
  clock text ("0x10:00" reads as 960 minutes). Every caller in the model passes well-formed times.
- Dashboard.SaveSettings: requires both times to be well-formed "HH:MM", which is what the form's time inputs
  supply. An emptied input is not modelled: the source reads it as NaN and then accepts it.
- Dashboard.RecentScans: keeps ledger order instead of sorting by date and time, newest first. Its contract states
  only what holds for every order: which entries may appear, how many there are, and that none is repeated beyond
  the ledger's own copies. Which five are chosen when there are more than five is not stated.
- Text.Trim: treats as white space the ASCII blanks, no-break space, byte-order mark and the line and paragraph
  separators. The other Unicode space separators are not included.
- UI-only state of the pages is not modelled: which row is being edited, save messages, timers and rendering.
- Authentication, the login page, route guards and the navigation bar are rendering, session or redirect code, and
  are not part of this model.
- The parent, cards and students pages are not part of this model. They edit local copies only, and they repeat
  rules already modelled in the endpoints.
- Seed records a5 (07:01) and a7 (07:05) are marked present although they are after the default `lateAfter`.
  The model states no agreement between seed records and the classifier.
- Concurrency is not modelled. The handlers run one at a time on a single thread.
- Teacher.TeacherPage.constructor: requires the initial ledger's ids to be distinct and none of them to be
  "a" + n for n >= 100, so that the page's own ids stay fresh. The page does not check this. `Teacher.SeedFitsPage`
  shows that the seed ledger meets it.
- Teacher.UnrecordedStudents: takes the roster as a parameter. The page reads the shared `students` array directly.
