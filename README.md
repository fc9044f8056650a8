# admin-panel-ts: the enrollment engine, in Dafny

This project models the admin dashboard of a children's course centre. The
dashboard has:

- a timetable of courses, each with twelve weekly lessons;
- student documents, whose `enrollment` lists the lessons a student takes;
- potential students;
- lesson-change requests.

Its core is the data hook `useAdminData`. This hook keeps the two halves of
the enrollment relation in agreement: lesson rosters in the course documents,
and lesson entries in the student documents. Around that core the model also
covers:

- the shared constants and date helpers;
- the receipt-number and form-mapping helpers of the entry manager;
- the selection logic of the students, timetable and enrollment tabs.

The modules are:

- `Strings`, `Seqs`, `Records`, `Courses`: text helpers (ASCII case
  mapping, trimming, splitting, searching). Also a stable insertion sort
  standing for `Array.prototype.sort`, with `localeCompare` taken as
  code-point order. And the stored shapes (raw enrollment items with
  their optional fields, courses, lessons, requests) and course lookups.
- `Calendar`: dates as day numbers, with `YYYY-MM-DD` text (ISO 8601:2004
  section 4.1.2.2, calendar date, extended format). It proves a bijection
  between day numbers and dates of years 0000-9999, parse/format round
  trips, and `addDays` as addition on day numbers.
- `AdminConstants`: the capacity of a lesson (8), the twelve default lesson
  names, `addDays`, `formatDateDisplay` and `getCategoryFromId`.
- `Sync`: how `syncStudentProfile` reads a stored enrollment. An array, an
  object's values, or nothing; lesson groups are flattened. It then applies
  one of three actions, sorts by date and writes the result back.
- `Steps`: every action of the hook as a function of the whole state
  (courses, student documents, potential students, requests, filter lists,
  and the dashboard's in-memory student list, `allStudents`, as far as the
  hook reads it: the lesson ids of each listed student's entries).
  Each returns the new state and the `{ success, msg }` result, or a
  rejected promise where the code throws.
- `Laws`: what each step does to the rosters and stored entries. It also
  holds inverses: two toggles, a shift forward and back, remove after add.
- `Consistency`: the invariant. Everyone on a roster has the entry for that
  lesson, and every entry for an existing lesson has its student on the
  roster. Proved for add, remove, toggle, shift, create and request
  handling. Shown broken, with a witness, by enrolling an id that has no
  document, by a reschedule across lesson ids, and by deleting and
  re-creating a course.
- `Loading`: the load when the dashboard opens. It parses course ids,
  sorts, hydrates entries from the catalog, and runs the reverse sync that
  pushes every student onto the rosters their entries name. It also covers
  the course save.
- `Missing`: `findMissingLessons`.
- `AdminData`: the hook as a class `Engine`. Its fields are updated in
  place, and every method is proved to leave exactly the state of its step
  function. The loops of the load, the normaliser and `findMissingLessons`
  are methods proved against the functions that specify them.
- `StudentFirebase`, `StudentsTab`, `TimetableTab`, `EnrollmentTab`: the
  helpers and selection logic of those files, as functions. The few loops
  the source has are methods: `suffixToIndex`, `indexToSuffix`,
  `getNextReceiptNo`, the reschedule options and the enrollment grouping.

Reads and writes of the document store are not performed; they become
parameters:

- the load takes the course documents, the student documents, the potential
  students and the requests as lists;
- `getNextReceiptNo` takes the student's stored receipt numbers;
- `addPotentialStudent` takes the id the store assigns to the new document.

A missing optional text field is the empty string. A lesson or item id may
be missing, a text or a number (`RawId`).

## Model

| member | source | states |
|---|---|---|
| AdminConstants.FormatDateDisplay | src/utils/adminConstants.ts:26-30 | the display is empty exactly when the date text is empty |
| AdminConstants.FormatDateDisplayOfIso | src/utils/adminConstants.ts:26-30 | a `YYYY-MM-DD` text displays as `day/month`, both as numbers without leading zeros |
| AdminConstants.FormatDateDisplayOfDay | src/utils/adminConstants.ts:26-30 | the text of every representable day displays as its day and month numbers |
| AdminConstants.ParseIntOfDigits | src/utils/adminConstants.ts:29 | `parseInt` of a digit string is its decimal value |
| AdminConstants.CategoryFromId | src/utils/adminConstants.ts:32-35 | "OTHERS" exactly when the id is shorter than 4; otherwise four characters, each the upper-case form of the id's character |
| AdminConstants.CategoryFromIdPrefix | src/utils/adminConstants.ts:32-35 | ids that share their first four characters get the same category |
| AdminConstants.CategoryFromIdIdempotent | src/utils/adminConstants.ts:32-35 | the category of a category found from an id is that category again; for a short id it is "OTHE" |
| Calendar.FromDayToDay | src/utils/adminConstants.ts:20-24 | day numbers and calendar dates of years 0000-9999 are in bijection both ways |
| Calendar.ParseIsoText | src/utils/adminConstants.ts:20-24 | parsing the `YYYY-MM-DD` text of a date gives the date back |
| Calendar.IsoTextOfParse | src/utils/adminConstants.ts:20-24 | a text that parses is the text of the date it parses to |
| Calendar.DayOfTextOfDay | src/utils/adminConstants.ts:20-24 | reading the text of a day gives the day back |
| Calendar.TextOfDayOfText | src/utils/adminConstants.ts:20-24 | a text that reads as a day is that day's text |
| Calendar.AddDaysText | src/utils/adminConstants.ts:20-24 | `addDays` of a date text is the text of the day n days later, when that day is representable |
| Calendar.AddDaysTextDefined | src/utils/adminConstants.ts:20-24 | `addDays` gives a result exactly when the text is a date and the target day is in range |
| Calendar.AddDaysTextZero | src/utils/adminConstants.ts:20-24 | adding zero days gives the same text |
| Calendar.AddDaysTextCompose | src/utils/adminConstants.ts:20-24 | adding m days then n days is adding m + n days |
| Records.ItemsOf | src/hooks/useAdminData.ts:193-195 | a missing enrollment has no items; an array gives its items, an object its values in order |
| Courses.FindCourse | src/hooks/useAdminData.ts:558 | the lookup gives the first course with that id, None when there is none |
| Courses.FindLesson | src/hooks/useAdminData.ts:666-667 | the lookup gives the first lesson with that id, None when there is none |
| Sync.ChildEntry | src/hooks/useAdminData.ts:201-213 | a group's child lesson inherits the group's course id and name when it has none of its own |
| Sync.FlatEntry | src/hooks/useAdminData.ts:215-221 | a flat item's course id is its `courseId`, else `actualCourseId`, else course name and round; its lesson id is `String(id)` |
| Sync.Normalize | src/hooks/useAdminData.ts:197-223 | the flat enrollment is every item's entries, in order: a group's children, else the item itself |
| Sync.NormalizeHasAll | src/hooks/useAdminData.ts:197-223 | every entry of every stored item is in the flat enrollment |
| Sync.NormalizeToRaws | src/hooks/useAdminData.ts:197-223 | entries that name a course, written and read back, are unchanged |
| Sync.NormalizeToRawsIds | src/hooks/useAdminData.ts:197-223 | written entries read back with their lesson ids, whatever their course ids |
| Sync.SortByDate | src/hooks/useAdminData.ts:251-253 | the written enrollment is sorted by date text and is a permutation of the edited one |
| Sync.SyncDoc | src/hooks/useAdminData.ts:255-265 | the written document keeps the student and holds a flat array enrollment |
| Sync.AddLessonSingleOrdinal | src/hooks/useAdminData.ts:235-242 | after `add_lesson` exactly one entry has the new lesson's id, and it is the new entry |
| Sync.AddLessonKeeps | src/hooks/useAdminData.ts:235-242 | `add_lesson` keeps every entry with another lesson id and only those |
| Sync.RemoveLessonKeeps | src/hooks/useAdminData.ts:243-248 | `remove_lesson` drops exactly the entries whose `courseId_lessonId` key is the target's |
| Sync.EnrollCourseKeeps | src/hooks/useAdminData.ts:230-234 | `enroll_course` keeps the new entries and the old entries whose key is not new |
| Sync.KeyInjective | src/hooks/useAdminData.ts:226-228 | when lesson ids contain no "_", equal keys mean equal course and lesson ids |
| Sync.EnrollCourseIdempotent | src/hooks/useAdminData.ts:230-234 | enrolling twice in the same course leaves what the first enrollment wrote |
| Steps.Synced | src/hooks/useAdminData.ts:178-269 | a sync changes only that student's document, and nothing when the document is missing; a listed student's list entry becomes the lesson ids of the entries it wrote |
| Steps.ListedWith | src/hooks/useAdminData.ts:624 | a new student joins the list with no entries; an id already listed keeps the entry `find` sees |
| Steps.LessonEntry | src/hooks/useAdminData.ts:710-722 | the written entry names the course, the lesson and its date, and is not completed |
| Steps.ConflictIndex | src/hooks/useAdminData.ts:689-707 | the first stored item with the lesson id in another course, if any |
| Steps.OldCourse | src/hooks/useAdminData.ts:689-707 | the course moved out of exists, is not the target course, and is the first with its id |
| Steps.AddStep | src/hooks/useAdminData.ts:642-750 | guards in order: "Student not found", "Course not found", "Lesson not found", "Class full" at 8, "Already in lesson"; success exactly when all pass; a failure changes nothing |
| Steps.RemoveStep | src/hooks/useAdminData.ts:753-778 | nothing for an unknown course; only rosters and that student's document change |
| Steps.CourseEntries | src/hooks/useAdminData.ts:560-572 | one entry per lesson of the course, in lesson order |
| Steps.EnrollStep | src/hooks/useAdminData.ts:556-590 | "Course not found" with nothing changed, or success; no document is created |
| Steps.PromoteStep | src/hooks/useAdminData.ts:593-640 | the student document exists afterwards (named as given when new); success exactly when the course exists, and only then is the potential student removed |
| Steps.PotentialEnrollment | src/hooks/useAdminData.ts:317-336 | one item per lesson of a listed course, with the lesson's id, name and date and the course's id, name and time slot, not completed; else the trial lesson, else nothing |
| Steps.AddPotentialStep | src/hooks/useAdminData.ts:308-352 | a new potential document under the store's id naming the course and its lessons; nothing else changes |
| Steps.RemovePotentialStep | src/hooks/useAdminData.ts:356-366 | that potential document is gone and every other stays; nothing else changes |
| Steps.MovedPotentialItem | src/hooks/useAdminData.ts:143-156 | the item gets the new course, date and time slot, and the new course name when there is one; its ids and completion stay |
| Steps.CourseNameOf | src/hooks/useAdminData.ts:139-140 | the new course's name, or "" when no course has that id |
| Steps.ReschedulePotentialStep | src/hooks/useAdminData.ts:117-175 | "Potential student not found" with nothing changed; otherwise each item whose `String(id)` is the old lesson id gets the new course, date, time slot and (when the course exists) name, and every other item and document stays |
| Steps.RescheduleItems | src/hooks/useAdminData.ts:804-818 | exactly the items of the old lesson of the old course get the new course, date and time slot |
| Steps.RescheduleCourses | src/hooks/useAdminData.ts:830-860 | every course keeps its place, id and lessons; only rosters change |
| Steps.RescheduleStep | src/hooks/useAdminData.ts:780-868 | "Student not found"; a stored object enrollment throws before any write; otherwise success, and a listed student's lesson ids become the stored items' `lessonId` fields |
| Steps.ToggleStep | src/hooks/useAdminData.ts:870-890 | nothing for an unknown course; no document or roster count changes |
| Steps.ShiftStep | src/hooks/useAdminData.ts:892-926 | nothing for an unknown course or start lesson; student documents stay |
| Steps.NewLessons | src/hooks/useAdminData.ts:510-516 | twelve lessons, as many as the default names |
| Steps.RoundName | src/hooks/useAdminData.ts:519-521 | the round name always starts with "round" |
| Steps.NewCourse | src/hooks/useAdminData.ts:523-531 | id `name_round`, the given name and time slot, category from the id's first four characters |
| Steps.AddSortedIfNew | src/hooks/useAdminData.ts:534-540 | the filter list afterwards holds the old values and the new one |
| Steps.CreateStep | src/hooks/useAdminData.ts:504-545 | succeeds exactly when the start text reads as a date; then it appends the new course (lesson dates past the year 9999 included) and returns its category; otherwise it throws and nothing changes |
| Steps.DeleteStep | src/hooks/useAdminData.ts:547-554 | no course has the id afterwards; every other course stays; student documents are untouched |
| Steps.SetStatus | src/hooks/useAdminData.ts:998-1034 | only that request's status changes |
| Steps.HandleRequestStep | src/hooks/useAdminData.ts:993-1040 | rejecting sets the status; approving for a student the dashboard does not list, or a request lesson without an id, changes nothing |
| Laws.AddStepSucceeds | src/hooks/useAdminData.ts:642-750 | a successful add had a known student and an existing lesson |
| Laws.AddPutsStudentOnRoster | src/hooks/useAdminData.ts:725-741 | after an add the target roster holds the student once plus everyone it held, and stays within 8 |
| Laws.AddMovesOutOfOldCourse | src/hooks/useAdminData.ts:689-741 | the same lesson's roster in the course moved out of loses exactly the student |
| Laws.AddKeepsOtherRosters | src/hooks/useAdminData.ts:725-741 | an add changes no roster besides those two |
| Laws.AddLeavesOneEntryForLesson | src/hooks/useAdminData.ts:710-722 | afterwards the stored enrollment has exactly one item with the lesson id, naming the target course |
| Laws.RemoveTakesStudentOff | src/hooks/useAdminData.ts:753-778 | the lesson's roster loses exactly the student; every other roster stays |
| Laws.EnrollAddsToEveryLesson | src/hooks/useAdminData.ts:576-586 | every lesson of the course has the student once, with no capacity check; other courses stay |
| Laws.EnrollWritesEveryLesson | src/hooks/useAdminData.ts:560-574 | the stored enrollment gains an entry per lesson of the course and keeps other pairs' entries |
| Laws.PromoteFailureKeepsCreatedStudent | src/hooks/useAdminData.ts:604-631 | a failed promotion keeps the student document it created and the potential student |
| Laws.RemoveUndoesAddPotential | src/hooks/useAdminData.ts:308-366 | removing a potential student just added under a fresh id restores the state |
| Laws.PromoteClearsAddedPotential | src/hooks/useAdminData.ts:593-640 | promoting a just-added potential student into a listed course restores the potential list |
| Laws.SyncedListsWritten | src/hooks/useAdminData.ts:254-265 | after a sync, the listed student's lesson ids are those of the stored document read back |
| Laws.ReschedulePotentialIdempotent | src/hooks/useAdminData.ts:117-175 | rescheduling a potential student twice with the same arguments is the same as once |
| Laws.ReschedulePotentialKeepsLessons | src/hooks/useAdminData.ts:143-156 | every item keeps its ids and completion; the old lesson's items get the new course, date and time slot, the others stay |
| Laws.RescheduleMovesOnRosters | src/hooks/useAdminData.ts:830-860 | the new lesson's roster holds the student; the old one does not unless it is the same |
| Laws.RescheduleRewritesMatchingItems | src/hooks/useAdminData.ts:804-818 | only the old lesson's items change, in course, date and time slot; their lesson id stays |
| Laws.ToggleTwiceRestores | src/hooks/useAdminData.ts:870-890 | toggling a lesson to its opposite and back restores the state, with unique ids |
| Laws.ShiftThereAndBack | src/hooks/useAdminData.ts:892-926 | shifting forward then back by the same weeks restores the state, with unique ids |
| Laws.ShiftMovesDatesOnly | src/hooks/useAdminData.ts:900-914 | a shift moves dates from the start lesson on and changes no roster |
| Laws.CreatedLessons | src/hooks/useAdminData.ts:510-516 | lessons "1" to "12" with the default names, empty rosters, not completed, each `7 * i` days after the start, which is `addDays(date, 7 * i)` wherever that day has a four-digit year |
| Laws.CreatedLessonIdsDistinct | src/hooks/useAdminData.ts:510-516 | the new lesson ids are distinct |
| Laws.ApproveMarksApproved | src/hooks/useAdminData.ts:1005-1034 | approval marks the request approved even when the add fails, and the student has left the old lesson |
| Consistency.RemovePreservesValid | src/hooks/useAdminData.ts:753-778 | a removal keeps both directions of the roster/entry agreement and well-formedness |
| Consistency.AddPreservesValid | src/hooks/useAdminData.ts:642-750 | an add keeps both directions, including the move out of the old course |
| Consistency.AddKeepsRostersBounded | src/hooks/useAdminData.ts:669-675 | an add never makes a roster exceed 8 or repeat a student |
| Consistency.TogglePreservesValid | src/hooks/useAdminData.ts:870-890 | toggling completion keeps the invariant |
| Consistency.ShiftPreservesValid | src/hooks/useAdminData.ts:892-926 | shifting dates keeps the invariant |
| Consistency.ShiftLeavesStaleDates | src/hooks/useAdminData.ts:892-926 | a shift leaves the students' copies of the dates stale: no document is rewritten |
| Consistency.EnrollPreservesConsistent | src/hooks/useAdminData.ts:556-590 | enrolling a student who has a document keeps both directions |
| Consistency.EnrollUnknownStudentBreaks | src/hooks/useAdminData.ts:574-586 | enrolling an id without a document puts it on rosters with no entries: the agreement breaks |
| Consistency.EnrollIgnoresCapacity | src/hooks/useAdminData.ts:576-582 | enrolling puts a student on a full roster where an add answers "Class full" |
| Consistency.RescheduleIgnoresCapacity | src/hooks/useAdminData.ts:830-860 | a reschedule onto a full lesson succeeds |
| Consistency.RescheduleAcrossLessonIdsBreaks | src/hooks/useAdminData.ts:804-860 | moving to a lesson with another id leaves an entry whose lesson's roster lacks the student |
| Consistency.OneRosterPerLessonId | src/hooks/useAdminData.ts:689-707 | with the invariant a student is on a lesson id's roster in no course but their entry's |
| Consistency.HandleRequestPreservesValid | src/hooks/useAdminData.ts:993-1040 | approving or rejecting a request keeps the invariant |
| Consistency.CreatePreservesValid | src/hooks/useAdminData.ts:504-545 | creating a course keeps the invariant unless a leftover entry already names the new id |
| Consistency.DeleteLeavesDanglingEntries | src/hooks/useAdminData.ts:547-554 | after a delete, entries for the course name no course |
| Consistency.DeleteThenCreateBreaks | src/hooks/useAdminData.ts:504-554 | deleting a course someone takes and re-creating it breaks the agreement |
| Loading.RoundStartExact | src/hooks/useAdminData.ts:381-383 | `/(.*)(round\d+)$/` matches exactly when the id ends in "round" and digits, at one place |
| Loading.ParseComposite | src/hooks/useAdminData.ts:381-383 | an id `name_round` parses back to its name and round |
| Loading.ParseNoRound | src/hooks/useAdminData.ts:381-383 | an id without a round suffix is all name, in round "round001" |
| Loading.LoadCourse | src/hooks/useAdminData.ts:385-404 | a course document reads with its id, time slot and lessons (ids as text), category defaulting to "Uncategorized" |
| Loading.LoadCoursesSorted | src/hooks/useAdminData.ts:407 | the loaded courses are in name order |
| Loading.SaveCourse | src/hooks/useAdminData.ts:90-115 | as written: the stored category is the id up to its first "_" |
| Loading.SaveCourseKeepingCategory | src/hooks/useAdminData.ts:90-115 | the corrected save stores the course's own category |
| Loading.LoadSaveLessons | src/hooks/useAdminData.ts:95-101 | saving then loading gives the lessons back |
| Loading.LoadSaveRoundTrip | src/hooks/useAdminData.ts:90-115 | with the corrected save, a `name_round` course survives a save and a load |
| Loading.CreatedCourseReloads | src/hooks/useAdminData.ts:90-115 | with the corrected save, a course made by createCourse survives a save and a load |
| Loading.SavedCategoryDiffers | src/hooks/useAdminData.ts:92 | as written, the course "Drama" is created in "DRAM" but reloads in category "Drama" |
| Loading.Hydrate | src/hooks/useAdminData.ts:420-444 | an entry's course id is `courseId`, else `actualCourseId`, else name and round, else "Unknown"; its lesson id is `String(id or lessonId)`; its completion is the item's |
| Loading.HydrateFromCatalog | src/hooks/useAdminData.ts:430-444 | the catalog wins: an entry of an existing lesson carries the lesson's date and the course's name and time slot |
| Loading.HydrateWritten | src/hooks/useAdminData.ts:420-444 | an entry as the dashboard writes it hydrates to itself when its course is unknown, and keeps its key otherwise |
| Loading.ListedIds | src/hooks/useAdminData.ts:424 | a stored item is listed under `String(item.id \|\| item.lessonId)`; a group item stays one item |
| Loading.ListedIdsHydrated | src/hooks/useAdminData.ts:420-444 | those are the lesson ids of the hydrated entries, whatever the catalog |
| Loading.LoadedList | src/hooks/useAdminData.ts:448-478 | the loaded list has every student document, each with its items' lesson ids |
| Loading.PushRoster | src/hooks/useAdminData.ts:458-475 | one push changes only the roster the entry names, appending the student when absent |
| Loading.ReverseSyncGrows | src/hooks/useAdminData.ts:458-475 | the reverse sync drops nobody from a roster |
| Loading.ReverseSyncPlaces | src/hooks/useAdminData.ts:458-475 | afterwards every entry of an existing lesson has its student on the roster |
| Loading.ReverseSyncNoDup | src/hooks/useAdminData.ts:458-475 | rosters without repeats stay without |
| Loading.ReverseSyncOnlyClaims | src/hooks/useAdminData.ts:458-475 | a roster afterwards holds its stored students and students whose entries name it, and nobody else |
| Loading.ReverseSyncPaths | src/hooks/useAdminData.ts:458-475 | the reverse sync keeps every course's id, name, time slot and path |
| Loading.SortedUnique | src/hooks/useAdminData.ts:480-491 | the filter list holds exactly the values of the courses |
| Loading.SortedUniqueIsSet | src/hooks/useAdminData.ts:480-491 | the filter list is sorted and lists no value twice |
| Loading.Load | src/hooks/useAdminData.ts:369-500 | the opened state: passed-in requests and potentials, sorted courses, reverse-synced rosters, and a student list holding each document's hydrated entries |
| Loading.LoadPlacesEveryEntry | src/hooks/useAdminData.ts:413-475 | after loading every stored entry of an existing lesson has its student on the roster, once when stored rosters have no repeats |
| Loading.LoadFilters | src/hooks/useAdminData.ts:480-491 | the category and round filters list each value of the courses once, sorted |
| Missing.SlotsForExact | src/hooks/useAdminData.ts:959-974 | a slot comes from a course with the lesson id and room on it, and every such course gives one |
| Missing.SortedSlots | src/hooks/useAdminData.ts:977 | the slots, earliest date first, a permutation of the courses' slots |
| Missing.FindMissingExact | src/hooks/useAdminData.ts:929-990 | a lesson 1-12 is listed exactly when the student's lesson ids do not include its id and some lesson with that id has room |
| Missing.FindMissingInOrder | src/hooks/useAdminData.ts:951-987 | listed lessons are in increasing order of their numbers |
| Missing.EnrolledNeverMissing | src/hooks/useAdminData.ts:934-936 | a lesson id among the student's lesson ids is never listed; a listed lesson has sorted slots from courses with room |
| AdminData.NormalizeItems | src/hooks/useAdminData.ts:197-223 | the normaliser's loop computes the flat enrollment |
| AdminData.HydrateItems | src/hooks/useAdminData.ts:413-454 | the hydration loop gives one hydrated entry per stored item, in order |
| AdminData.LoadCourseDocs | src/hooks/useAdminData.ts:381-404 | the loop reads every course document in order |
| AdminData.SyncStudents | src/hooks/useAdminData.ts:456-475 | the nested loops are the reverse sync of every student's claims in id order |
| AdminData.Engine.constructor | src/hooks/useAdminData.ts:369-500 | an engine opened on a state holds that state |
| AdminData.Engine.SyncStudentProfile | src/hooks/useAdminData.ts:178-269 | the new state is the sync's; the written enrollment is returned, None for a missing document |
| AdminData.Engine.AddStudentToLesson | src/hooks/useAdminData.ts:642-750 | leaves the state and result of the add step, and keeps the invariant |
| AdminData.Engine.RemoveStudentFromLesson | src/hooks/useAdminData.ts:753-778 | leaves the state of the remove step, and keeps the invariant when the lesson id is non-empty and has no "_" |
| AdminData.Engine.EnrollStudentToCourse | src/hooks/useAdminData.ts:556-590 | leaves the enroll step's state and result, and keeps the agreement for a known student |
| AdminData.Engine.PromotePotentialStudent | src/hooks/useAdminData.ts:593-640 | leaves the promote step's state and result |
| AdminData.Engine.AddPotentialStudent | src/hooks/useAdminData.ts:308-352 | leaves the state and result of adding a potential document |
| AdminData.Engine.RemovePotentialStudent | src/hooks/useAdminData.ts:356-366 | leaves the state and result of removing a potential document |
| AdminData.Engine.ReschedulePotentialStudent | src/hooks/useAdminData.ts:117-175 | leaves the potential reschedule's state and result |
| AdminData.Engine.RescheduleStudent | src/hooks/useAdminData.ts:780-868 | leaves the reschedule step's state and result |
| AdminData.Engine.ToggleLessonCompletion | src/hooks/useAdminData.ts:870-890 | leaves the toggle step's state and keeps the invariant |
| AdminData.Engine.ShiftCourseDates | src/hooks/useAdminData.ts:892-926 | leaves the shift step's state and keeps the invariant |
| AdminData.Engine.CreateCourse | src/hooks/useAdminData.ts:504-545 | leaves the create step's state; returns the category, None where the code throws on a start text that is not a date |
| AdminData.Engine.DeleteCourse | src/hooks/useAdminData.ts:547-554 | leaves the delete step's state |
| AdminData.Engine.HandleRequest | src/hooks/useAdminData.ts:993-1040 | leaves the request step's state, and keeps the invariant when the request's lesson id is non-empty and has no "_" |
| AdminData.Engine.FindMissingLessons | src/hooks/useAdminData.ts:929-990 | nothing for a student the dashboard does not list; otherwise the missing lessons for the list's lesson ids, each with the slots that have room |
| AdminData.MissingLessonsOf | src/hooks/useAdminData.ts:951-987 | the loop over the twelve standard lessons computes exactly the missing-lesson list |
| AdminData.LoadedEntryNotMissing | src/hooks/useAdminData.ts:929-936 | right after the load, a lesson named by a stored item's `id` or else its `lessonId` is never listed as missing |
| AdminData.CollectSlots | src/hooks/useAdminData.ts:957-976 | the inner loop gives the slots of every course for the lesson id, in course order |
| AdminData.Engine.Load | src/hooks/useAdminData.ts:369-500 | the loops leave exactly the loaded state |
| StudentFirebase.SuffixToIndex | src/components/entry-manager/student-firebase.tsx:98-104 | the loop computes the base-26 value of the letters, minus one |
| StudentFirebase.IndexToSuffix | src/components/entry-manager/student-firebase.tsx:106-115 | the loop writes the letters of the index, "" for a negative index |
| StudentFirebase.IndexRoundTrip | src/components/entry-manager/student-firebase.tsx:98-115 | `suffixToIndex(indexToSuffix(i)) == i` for every index from 0 |
| StudentFirebase.SuffixRoundTrip | src/components/entry-manager/student-firebase.tsx:98-115 | `indexToSuffix(suffixToIndex(s)) == s` for every lowercase text |
| StudentFirebase.SuffixExamples | src/components/entry-manager/student-firebase.tsx:98-115 | 0 is "a", 25 is "z", 26 is "aa"; "" is -1 and "b" is 1 |
| StudentFirebase.MatchedSuffix | src/components/entry-manager/student-firebase.tsx:188-196 | a matched receipt suffix is all lowercase letters |
| StudentFirebase.NextReceiptMatches | src/components/entry-manager/student-firebase.tsx:188-197 | the number just issued is matched by the next lookup, with the index it was given |
| StudentFirebase.NextReceiptNo | src/components/entry-manager/student-firebase.tsx:178-202 | the loop gives the prefix followed by the suffix after the largest one found |
| StudentFirebase.MaxIndexIsMax | src/components/entry-manager/student-firebase.tsx:188-196 | the maximum bounds every matched index and is one of them unless -1 |
| StudentFirebase.NextReceiptExceeds | src/components/entry-manager/student-firebase.tsx:178-202 | the new number starts with the prefix and its index exceeds every found one; with none it ends in "a" |
| StudentFirebase.ReceiptsIncrease | src/components/entry-manager/student-firebase.tsx:178-202 | storing the issued number raises the next index by one, so numbers do not repeat |
| StudentFirebase.FormatLessonDate | src/components/entry-manager/student-firebase.tsx:71-89 | "" without a date; otherwise the date, "T" and the time part |
| StudentFirebase.FormatRangeSlot | src/components/entry-manager/student-firebase.tsx:77-80 | a slot `HH:MM - HH:MM` gives `dateTHH:MM-HH:MM` |
| StudentFirebase.FormatSingleSlot | src/components/entry-manager/student-firebase.tsx:82-86 | a slot with one `HH:MM` gives `dateTHH:MM` |
| StudentFirebase.FormatNoTimeSlot | src/components/entry-manager/student-firebase.tsx:71-89 | a slot without a time gives `dateT00:00` |
| StudentFirebase.SortedLessons | src/components/entry-manager/student-firebase.tsx:214-227 | the rows are the stored items by date then numeric id, a permutation |
| StudentFirebase.MapStudentDocToFormData | src/components/entry-manager/student-firebase.tsx:207-264 | one row per stored item, with the first non-empty course id and name |
| StudentFirebase.CourseCodeOfFirstRow | src/components/entry-manager/student-firebase.tsx:229 | the course code is the course id of the first row that has one |
| StudentFirebase.CourseNameOfFirstRow | src/components/entry-manager/student-firebase.tsx:230-231 | the course name is the course name of the first row that has one |
| StudentFirebase.RowsAreItems | src/components/entry-manager/student-firebase.tsx:233-245 | every stored item has a row and every row comes from an item |
| StudentsTab.CurrentTabStudents | src/components/dashboard/StudentsTab.tsx:193-217 | the enrolled tab lists all students; the potential tab lists one row per potential student, with its id and enrollment |
| StudentsTab.FilteredStudents | src/components/dashboard/StudentsTab.tsx:219-225 | everyone for an empty query; otherwise exactly those whose name or id contains it, in order |
| StudentsTab.FilteredStudentsIdempotent | src/components/dashboard/StudentsTab.tsx:219-225 | searching the result again changes nothing |
| StudentsTab.FormatLabel | src/components/dashboard/StudentsTab.tsx:163-166 | a space before every capital, then the first character upper-cased |
| StudentsTab.SpaceBeforeCapitalsRoundTrip | src/components/dashboard/StudentsTab.tsx:164 | dropping the inserted spaces gives the key back |
| StudentsTab.FormatLabelCamelCase | src/components/dashboard/StudentsTab.tsx:163-166 | two camel-case words (such as `parentName`) become the words with a space between and the first letter upper-cased |
| StudentsTab.BuildRescheduleOptions | src/components/dashboard/StudentsTab.tsx:262-293 | the loop and sort give one option per course with the lesson id, earliest first |
| StudentsTab.OptionsForExact | src/components/dashboard/StudentsTab.tsx:268-284 | an option is offered exactly when some course offers it |
| StudentsTab.OptionsForCount | src/components/dashboard/StudentsTab.tsx:268-284 | one option per course that has the lesson id |
| StudentsTab.RescheduleOptionsOffer | src/components/dashboard/StudentsTab.tsx:262-293 | every option keeps the lesson id, and the current course is offered when it has the lesson |
| StudentsTab.GroupEnrollment | src/components/dashboard/StudentsTab.tsx:227-252 | the loop yields the groups by course, sorted by name |
| StudentsTab.GroupsPartition | src/components/dashboard/StudentsTab.tsx:230-251 | each entry is in exactly its course's group; a group holds all its course's entries in order; names come from the catalog, else the entry, else the key |
| StudentsTab.GroupNotEmpty | src/components/dashboard/StudentsTab.tsx:238-246 | every group holds at least one entry |
| StudentsTab.MissingLessonsShown | src/components/dashboard/StudentsTab.tsx:255-258 | nothing on the potential tab or without a student; otherwise the missing lessons of the listed student |
| TimetableTab.DisplayedCourses | src/components/dashboard/TimetableTab.tsx:174-200 | the displayed courses are drawn from the course list |
| TimetableTab.DisplayedExactly | src/components/dashboard/TimetableTab.tsx:174-200 | exactly the courses matching category and round (with defaults, or "ALL") and the search |
| TimetableTab.DisplayedAll | src/components/dashboard/TimetableTab.tsx:174-200 | with "ALL" filters and no search every course shows, in order |
| TimetableTab.GetCellData | src/components/dashboard/TimetableTab.tsx:281-288 | None without the lesson; otherwise the lesson, its roster size, and full exactly at 8 |
| TimetableTab.FullCellRefusesAdd | src/components/dashboard/TimetableTab.tsx:281-288 | a cell shows full exactly when an add there answers "Class full" |
| TimetableTab.OnToggleCompletion | src/components/dashboard/TimetableTab.tsx:226-232 | nothing for an unlisted course; student documents stay |
| TimetableTab.ToggleFlips | src/components/dashboard/TimetableTab.tsx:226-232 | a toggle flips the lesson's completion flag |
| TimetableTab.ToggleTwiceRestores | src/components/dashboard/TimetableTab.tsx:226-232 | two toggles restore the state, with unique ids |
| TimetableTab.RoundOptionRoundTrip | src/components/dashboard/TimetableTab.tsx:249 | a round option `roundNNN` survives the strip of "round" and createCourse's normalisation |
| TimetableTab.HandleCreateAsWritten | src/components/dashboard/TimetableTab.tsx:239-262 | as written: nothing without all four fields, else create and move the filters to the name's text before "-" |
| TimetableTab.HandleCreateAsWrittenSucceeds | src/components/dashboard/TimetableTab.tsx:203-262 | as written: the course is appended, category filter from the name |
| TimetableTab.CreatedCourseHidden | src/components/dashboard/TimetableTab.tsx:203-262 | as written, "Robotics-A" is filed under "ROBO" but the filter moves to "Robotics" and hides it |
| TimetableTab.CreatedCourseHiddenWhen | src/components/dashboard/TimetableTab.tsx:203-262 | any name whose text before "-" differs from its derived category hides the course |
| TimetableTab.HandleCreate | src/components/dashboard/TimetableTab.tsx:239-262 | the corrected handler: the filters move to the new course's category and round |
| TimetableTab.CreatedCourseShown | src/components/dashboard/TimetableTab.tsx:239-262 | after the corrected create the new course is shown, whatever its name |
| TimetableTab.HandleCreateSucceeds | src/components/dashboard/TimetableTab.tsx:239-262 | the corrected create appends the course and moves to its category and round |
| EnrollmentTab.CourseSuggestions | src/components/dashboard/EnrollmentTab.tsx:132-141 | at most ten suggestions |
| EnrollmentTab.SuggestionsWithoutQuery | src/components/dashboard/EnrollmentTab.tsx:133-135 | with no query, the first ten course ids in order |
| EnrollmentTab.SuggestionsMatch | src/components/dashboard/EnrollmentTab.tsx:136-140 | every suggestion is a course id containing the query, ignoring case |
| EnrollmentTab.SuggestionsRanked | src/components/dashboard/EnrollmentTab.tsx:136-140 | ids starting with the query come before those only containing it |
| EnrollmentTab.SuggestionsDistinct | src/components/dashboard/EnrollmentTab.tsx:136-140 | with distinct course ids no id is suggested twice |
| EnrollmentTab.SuggestionsCutOnlyWhenFull | src/components/dashboard/EnrollmentTab.tsx:140 | a matching id is left out only when ten are shown |
| EnrollmentTab.HandleEnroll | src/components/dashboard/EnrollmentTab.tsx:161-245 | the messages in order; done exactly when the fields are given and the course exists |
| EnrollmentTab.WithStudent | src/components/dashboard/EnrollmentTab.tsx:192-225 | the document is created only when missing, and the new student joins the list; other documents stay |
| EnrollmentTab.EnrollUnknownCourseMessage | src/components/dashboard/EnrollmentTab.tsx:179-186 | an unknown course reports "Course not found: " and the id, and writes nothing |
| EnrollmentTab.EnrollFormPutsStudentOnRosters | src/components/dashboard/EnrollmentTab.tsx:192-232 | a done enroll leaves a document for the id and the id on every lesson's roster |
| EnrollmentTab.EnrollFormPreservesConsistent | src/components/dashboard/EnrollmentTab.tsx:192-228 | creating the document first makes the form's enroll keep the agreement |
| EnrollmentTab.NewStudentDocNormal | src/components/dashboard/EnrollmentTab.tsx:197-220 | the created document has an empty flat enrollment |
| EnrollmentTab.SavePotential | src/components/dashboard/EnrollmentTab.tsx:248-292 | refuses without course id or name; a save carries the course id, the trimmed id and a non-empty name |
| EnrollmentTab.SavedLessonInfo | src/components/dashboard/EnrollmentTab.tsx:264-282 | "Course not found." exactly when no course matches; the information is the course's first lesson with its time slot, or a no-lessons note |

## Left out

- Document store I/O, listeners and concurrency: reads, writes, `onSnapshot` and the order in which awaited writes and React state updates land are not modelled. Every step treats the stored state and its in-memory copy as one value, changed atomically. The exception is the student list, which the load fills from its own reading of the documents and which syncs, reschedules and document creations update.
- Catch-all error paths: `catch` blocks that turn a thrown store error into `{ success: false, msg }`, log to the console or show "An unexpected error occurred." are left out. A failing write is not modelled. The only throws modelled are those the code itself raises on its data: the object-shaped enrollment in `rescheduleStudent`, and an invalid start date in `createCourse`, on which `toISOString` throws.
- Dates and time: JavaScript `Date`, time zones and the current date are outside the model. The issue date of `mapStudentDocToFormData` and `getLocalYYYYMMDD` are among them. Dates are day numbers, with `YYYY-MM-DD` text for years 0000-9999. The slot order of `findMissingLessons` compares day numbers.
- Stored dates are always days, so the code's paths for a missing date cannot arise in the model: the `|| ""` fallback at src/hooks/useAdminData.ts:440 and the `a.dateStr?.` guard at src/hooks/useAdminData.ts:252.
- Calendar.AddDaysText: a result outside the years 0000-9999 gives None, where `toISOString` writes an expanded year ("+010000-01-03"). Lesson dates themselves are day numbers and have no such limit.
- Steps.CreateStep: a start text that is not `YYYY-MM-DD` counts as an invalid date, so the call throws. V8's `new Date` also reads some other forms (such as "2024-1-5", as a local date), and for those the source creates the course.
- AdminData.Engine.CreateCourse: the same; it returns None for every start text that is not `YYYY-MM-DD`.
- Sync.SortByDate: dates compare as day numbers. This is the `localeCompare` order of their texts for four-digit years only; an expanded-year text would sort first in the source.
- `localeCompare` is code-point order on the text. `toLowerCase`/`toUpperCase` map ASCII letters only. There is no Unicode case folding or collation.
- Regular expressions are written out as scanners for the patterns the code uses. These are the round suffix, `\d{2}:\d{2}` and the range form, the lowercase receipt suffix, and the capitals of `formatLabel`. There is no general regex engine.
- `Number()`, `parseInt` and `String()` are modelled for digit strings and whole numbers only.
- `Object.values` order: an object-shaped enrollment is a list in the order its values are given.
- Student documents carry only the name and the enrollment. The other personal fields the forms write are constants with no effect on the engine. Potential documents leave out `status` and `createdAt`.
- The requests list's sort by submit time is not modelled; only the handling of one request is.
- `getNextReceiptNo`'s store query failure (the catch that falls back to the first suffix) is not modelled; the receipts are passed in.
- StudentFirebase.NextReceiptNo: the prefix is matched literally. The source builds `new RegExp(prefix + "([a-z]*)", "i")` from the unescaped student id, and ids are free text. For an id with regex metacharacters the two differ. "S+1" never matches its own receipt "KIDSS+1a", so the source issues "KIDSS+1a" again. An id with "(" makes the pattern invalid, and the catch returns the prefix followed by "a" whatever receipts exist.
- StudentFirebase.MatchedSuffix: the same literal match; for ids with metacharacters the source's match differs.
- StudentFirebase.NextReceiptMatches: holds of the source only for ids without regex metacharacters.
- StudentFirebase.ReceiptsIncrease: holds of the source only for ids without regex metacharacters; for "S+1" the source repeats numbers.
- StudentsTab.Grouped: groups come in order of first appearance before the stable name sort. `Object.values` lists integer-like keys first, in numeric order. This changes the order only among groups whose course names are equal.
- StudentsTab.GroupEnrollment: the same order of groups with equal names.
- UI-only behaviour is not modelled. This covers modal state, `setTimeout(resetForm)`, the filter-reset effect of the timetable, `pickCourseSuggestion`, and the promote dialog of the enrollment tab. The `if (!onAddPotential) return` guard is treated as always passing.
- Steps.AddPotentialStep: the document id is whatever the store assigns and is a parameter. The id typed into the enrollment form is passed by the tab but not used by the hook; the model does not carry it.
- Loading.Hydrate: lesson groups in a stored enrollment are not flattened at load time, as in the code. Each stored item reads as one entry, and the student list keeps these entries until the student's next sync.

## Findings

| source | as written | input that shows it | evidently intended | confidence | as-written member | corrected member |
|---|---|---|---|---|---|---|
| src/hooks/useAdminData.ts:92 | the saved course's category is recomputed as the id up to its first "_" | createCourse("Drama", time, date, "1"): category "DRAM" in memory, stored as "Drama", reloaded as "Drama" | save the category the course already has (getCategoryFromId at line 518), so a reload shows the course where it was created | not executed | Loading.SavedCategoryDiffers | Loading.CreatedCourseReloads |
| src/components/dashboard/TimetableTab.tsx:203-212 | after creating, the category filter moves to the name's text before its first "-" | name "Robotics-A": the engine files the course under "ROBO", the filter moves to "Robotics", and the new course is hidden | move the filter to the category createCourse gave the course, so the course just created is shown | not executed | TimetableTab.CreatedCourseHidden | TimetableTab.CreatedCourseShown |
