# Course-offering backend rules, in Dafny

This project models the business rules of a university course-offering
backend. The original runs on Mongoose over a document database. Each
collection is modelled as an in-memory map from document id to record.

- **Offered courses.** `createOfferedCourse`, `updateOfferedCourse`,
  `getSingleOfferedCourse` and `deleteOfferedCourse` each run a fixed chain of
  guards and then write the offered-course collection at most once. The guards
  are existence checks, the department-belongs-to-faculty check, the unique
  section, the schedule-conflict test and the registration status gate.
  - The collection is a class with map fields. The guard chains are the pure
    functions `CreateCheck`, `UpdateCheck` and `DeleteCheck` over a database
    snapshot `Db`.
  - Each method is proved to throw exactly the error its check names and to
    write nothing on failure. On success it makes exactly the stated change.
- **User ids.** `generateStudentId` and `generateFacultyId` build sequential
  ids. The lookup of the newest user's id is an input. The model includes the
  JavaScript semantics the code relies on:
  - `substring` clamps its bounds;
  - the empty string is falsy;
  - `Number("")` is 0;
  - `padStart(4, "0")` never truncates.
- **Academic semesters.** A create is guarded by the semester name-to-code
  mapping. Reads and a partial update come with it.
- **Academic departments.** The schema requires `name`, and `academicFaculty`
  is optional. The pre-save hook rejects a name already stored. The
  pre-`findOneAndUpdate` hook rejects a query that matches nothing. The unique
  index on `name` backs both. These keep names unique as a class invariant.
- **Validation errors.** `handleValidationError` shapes a validation failure
  into a 400 "Validation Error" response with one `{path, message}` document
  per field error.

### Behaviour of the code worth knowing

- `createOfferedCourse` does not check the registration's status; only update
  and delete refuse a registration that is not UPCOMING
  (`src/app/modules/OfferedCourse/OfferedCourse.service.ts:135-144` and
  `:200-209`). The model has no status guard on create (`CreateCheck`).
- An update's conflict check does not exclude the record being updated
  (`OfferedCourse.service.ts:146-150`): the schedules it fetches are all of
  the faculty's schedules in that registration, the record's own included.
  - `OfferedCourses.UpdateSeesOwnSchedule` shows the record's own schedule is
    among those checked.
  - `OfferedCourses.UnchangedScheduleConflictsWithItself` shows the effect.
    With a conflict test that reports every overlap, an update that keeps the
    same faculty and schedule is refused with Conflict. Whether
    `hasTimeConflict` behaves so is outside this model, so this is stated as
    a consequence rather than listed as a finding.
- The service never checks that the stored offered courses are consistent
  (unique sections, existing references, a department inside its academic
  faculty). Other writers, such as a department update or two concurrent
  creates, can break that. The service's operations therefore run on any
  store, and each write keeps `StoreConsistent` only when it held before.

## Model

| member | source | states |
|---|---|---|
| ValidationErrors.ErrorDocsOf | src/app/errors/handleValidationError.ts:8-15 | one error document per field error, in order, each with that error's path and message |
| ValidationErrors.HandleValidationError | src/app/errors/handleValidationError.ts:4-22 | status code 400, message "Validation Error", and `errorDocs[i]` is `{path, message}` of the i-th field error; the input is a value and is left as it is |
| ValidationErrors.HandleValidationErrorKeepsPaths | src/app/errors/handleValidationError.ts:8-15 | the response names exactly the failing paths, in the same order, with none dropped or repeated |
| ValidationErrors.HandleValidationErrorAppend | src/app/errors/handleValidationError.ts:8-15 | shaping is compositional: the documents for a + b are those for a followed by those for b |
| AcademicSemesters.ApplyPatch | src/app/modules/academicSemester/academicSemester.service.ts:26-33 | each field given in the partial data replaces the stored one; the others are kept, and an empty patch changes nothing |
| AcademicSemesters.UpdateCanBreakCodeMapping | src/app/modules/academicSemester/academicSemester.service.ts:26-35 | the update does not re-check the name-to-code mapping: renaming a matching semester can leave a stored record whose code no longer matches |
| AcademicSemesters.SemesterTable.Create | src/app/modules/academicSemester/academicSemester.service.ts:7-14 | rejected with NotAcceptable "Invalid Semester Code" exactly when the mapping does not give the payload's code; a rejection writes nothing; an accepted payload is stored unchanged under a fresh id; all stored codes keep matching |
| AcademicSemesters.SemesterTable.GetAll | src/app/modules/academicSemester/academicSemester.service.ts:16-19 | returns the whole collection |
| AcademicSemesters.SemesterTable.GetSingle | src/app/modules/academicSemester/academicSemester.service.ts:21-24 | returns the record, or null (not an error) exactly when the id is unknown |
| AcademicSemesters.SemesterTable.Update | src/app/modules/academicSemester/academicSemester.service.ts:26-35 | an unknown id yields null and changes nothing; otherwise the record becomes the patched record, which is returned |
| UserIds.Substring | src/app/modules/user/user.utils.ts:15-16 | `substring(start, end)` clamps both bounds to the length, giving a result of the clamped length; within the string it is `s[start..end]`, and past its end it is the rest from `start` |
| UserIds.SubstringFrom | src/app/modules/user/user.utils.ts:25 | `substring(start)` is the rest from start, or "" past the end |
| UserIds.NumberOfToDecimal | src/app/modules/user/user.utils.ts:27 | parsing the decimal spelling of a number gives the number back |
| UserIds.NumberIgnoresLeadingZeros | src/app/modules/user/user.utils.ts:27 | leading zeros do not change the value `Number` reads |
| UserIds.PadStartZeros | src/app/modules/user/user.utils.ts:27 | `padStart(width, "0")` keeps the string as its suffix, puts only zeros in front and never truncates |
| UserIds.SequenceSuffix | src/app/modules/user/user.utils.ts:27 | the padded sequence number is a digit string denoting exactly the number, at least four long, and exactly four long iff the number is below 10000; from 10000 on it is the plain decimal spelling, so a sequence reaching 10000 gets five digits and no leading zero |
| UserIds.SequenceSuffixUnique | src/app/modules/user/user.utils.ts:27 | below 10000 the padded spelling is the one four-digit string denoting the number |
| UserIds.NextStudentSequence | src/app/modules/user/user.utils.ts:12-27 | the next student sequence number is one more than the newest id's number from index 6 on when that id continues the semester, and 1 otherwise |
| UserIds.GenerateStudentId | src/app/modules/user/user.utils.ts:11-30 | the id is the semester's year and code followed by at least four digits, whose value is the newest id's chars [6..] plus one when that id has the same year (chars [0,4)) and code (chars [4,6)), else 1 |
| UserIds.StudentSequenceRestarts | src/app/modules/user/user.utils.ts:12-28 | without a matching predecessor (none, or another year or code) the id is year + code + "0001" |
| UserIds.StudentIdsContinue | src/app/modules/user/user.utils.ts:15-28 | for a four-character year and two-character code, the generated id is recognised as the predecessor of the next one, whose sequence number is one larger |
| UserIds.StudentIdFromTail | src/app/modules/user/user.utils.ts:25-28 | the student id spelt from the value of the predecessor's chars [6..] |
| UserIds.FindLastFacultyId | src/app/modules/user/user.utils.ts:32-38 | the lookup yields the newest faculty id with its first two characters dropped, or nothing when there is no non-empty id |
| UserIds.FacultyCurrentId | src/app/modules/user/user.utils.ts:41-46 | the number string incremented is the stored id from index 4 on when the lookup's remainder is non-empty, else "0" |
| UserIds.FacultyNextNumber | src/app/modules/user/user.utils.ts:41-48 | the number handed out next is the value of the stored id from index 4 on, plus one (1 without a stored id) |
| UserIds.GenerateFacultyId | src/app/modules/user/user.utils.ts:40-53 | "F-" followed by at least four digits whose value is the stored id's value from index 4 on, plus one |
| UserIds.FacultyIdFromTail | src/app/modules/user/user.utils.ts:37-50 | for a six-character stored id only its characters 4 and 5 count: the id is "F-" + the padded successor of their two-digit value |
| UserIds.FacultyIdResets | src/app/modules/user/user.utils.ts:37-45 | any stored id whose characters from index 4 on denote zero is followed by the same id the first faculty gets |
| UserIds.GenerateFacultyIdCorrected | src/app/modules/user/user.utils.ts:37-53 | the corrected generator (only the "F-" prefix dropped): "F-" and at least four digits whose value is the stored number plus one |
| UserIds.CorrectedFacultyIdsIncrease | src/app/modules/user/user.utils.ts:37-53 | with the correction each generated id is accepted as the next predecessor and continues from a number exactly one larger |
| UserIds.CorrectedNthId | src/app/modules/user/user.utils.ts:37-53 | with the correction the (i+1)-th of a run of successive hires carries the starting number plus i + 1 |
| UserIds.CorrectedIdsNeverRepeat | src/app/modules/user/user.utils.ts:37-53 | with the correction no two hires of a run receive the same id |
| UserIdExamples.StudentIdAfter2025010007 | src/app/modules/user/user.utils.ts:11-30 | in semester 2025/01, "2025010007" is followed by "2025010008" |
| UserIdExamples.StudentIdAfter2024020009 | src/app/modules/user/user.utils.ts:20-28 | a predecessor from semester 2024/02 restarts semester 2025/01 at "2025010001" |
| UserIdExamples.FirstFacultyId | src/app/modules/user/user.utils.ts:41-50 | with no (non-empty) stored faculty id the first id is "F-0001" |
| UserIdExamples.FacultyIdAfter0042 | src/app/modules/user/user.utils.ts:40-53 | "F-0042" is followed by "F-0043" |
| UserIdExamples.FacultyIdAfter0123 | src/app/modules/user/user.utils.ts:37-48 | "F-0123" is followed by "F-0024": only "23" is incremented |
| UserIdExamples.FacultyIdAfter0099 | src/app/modules/user/user.utils.ts:40-53 | "F-0099" is followed by "F-0100" |
| UserIdExamples.FacultyIdRepeatsAfter0100 | src/app/modules/user/user.utils.ts:37-48 | "F-0100" is followed by the id the first faculty received |
| AcademicDepartments.OnlyNameIsRequired | src/app/modules/academicDepartment/academicDepartment.model.ts:6-7 | a document passes the schema exactly when it has a name, whatever its faculty reference |
| AcademicDepartments.NamelessDepartmentResponse | src/app/modules/academicDepartment/academicDepartment.model.ts:6 | a nameless department is answered with a 400 "Validation Error" whose one error document names the `name` path |
| AcademicDepartments.SaveCheck | src/app/modules/academicDepartment/academicDepartment.model.ts:6-18 | a save passes iff the name is present and no stored department has it; otherwise the validator's error or "This Department is already exist!" |
| AcademicDepartments.ResaveWithSameNameRejected | src/app/modules/academicDepartment/academicDepartment.model.ts:12-16 | saving a stored department again under its own name always fails: the hook finds the document itself |
| AcademicDepartments.SaveKeepsNamesUnique | src/app/modules/academicDepartment/academicDepartment.model.ts:6-18 | a save the checks let through keeps names pairwise distinct |
| AcademicDepartments.SaveAll | src/app/modules/academicDepartment/academicDepartment.model.ts:12-18 | a series of saves under identifiers above every stored one never overwrites a stored department, and uses only identifiers below the first one plus the number of documents |
| AcademicDepartments.SavesKeepNamesUnique | src/app/modules/academicDepartment/academicDepartment.model.ts:6-18 | after any series of saves department names are pairwise distinct |
| AcademicDepartments.MatchingIds | src/app/modules/academicDepartment/academicDepartment.model.ts:21-22 | the departments the update's query matches |
| AcademicDepartments.Patched | src/app/modules/academicDepartment/academicDepartment.model.ts:4-8 | an update sets the given fields and keeps the others |
| AcademicDepartments.UpdateCheck | src/app/modules/academicDepartment/academicDepartment.model.ts:6 | the unique index refuses, with a duplicate-key error, a name another department already has |
| AcademicDepartments.UpdateKeepsNamesUnique | src/app/modules/academicDepartment/academicDepartment.model.ts:6-27 | an update that gets through keeps names unique, and one that leaves the name alone always gets through |
| AcademicDepartments.DepartmentCollection.Save | src/app/modules/academicDepartment/academicDepartment.model.ts:12-18 | refused exactly as SaveCheck says, writing nothing; otherwise stored under a fresh id; names stay unique |
| AcademicDepartments.DepartmentCollection.Resave | src/app/modules/academicDepartment/academicDepartment.model.ts:12-18 | the same validator and hook run before the write, so keeping the name is refused; a document no longer stored is reported missing; a refused save writes nothing |
| AcademicDepartments.DepartmentCollection.FindOneAndUpdate | src/app/modules/academicDepartment/academicDepartment.model.ts:20-27 | "This Department doesn't exist!" exactly when the query matches nothing; otherwise one matching department is patched unless the unique index refuses; a refused update writes nothing |
| OfferedCourses.StatusCode | src/app/modules/OfferedCourse/OfferedCourse.service.ts:28-109 | errors are answered with 404, 400 or 409: 404 exactly for the not-found errors, 409 exactly for the conflict error, 400 exactly for the bad-request and status-gate errors |
| OfferedCourses.AssignedSchedules | src/app/modules/OfferedCourse/OfferedCourse.service.ts:92-96 | the schedules of exactly the offered courses of that faculty under that registration |
| OfferedCourses.CreateCheck | src/app/modules/OfferedCourse/OfferedCourse.service.ts:28-109 | create passes iff every reference exists, the department belongs to the academic faculty, the section is free and the conflict test reports nothing; it fails with NotFound exactly when a reference is missing, and with Conflict "This Faculty is not available …" exactly when all earlier guards pass and the conflict test reports a clash |
| OfferedCourses.CreateReportsFirstMissingReference | src/app/modules/OfferedCourse/OfferedCourse.service.ts:28-67 | each NotFound message is reported exactly when its document is the first missing one, in the order registration, academic faculty, academic department, faculty, course |
| OfferedCourses.ForeignDepartmentRejected | src/app/modules/OfferedCourse/OfferedCourse.service.ts:69-79 | when both exist but the department belongs elsewhere, create fails with BadRequest naming both |
| OfferedCourses.DuplicateSectionBeforeConflict | src/app/modules/OfferedCourse/OfferedCourse.service.ts:81-89 | a taken (registration, course, section) is reported as BadRequest before, and whatever, the conflict test says |
| OfferedCourses.NewRecord | src/app/modules/OfferedCourse/OfferedCourse.service.ts:39-111 | the created record is the payload with the registration's academic semester copied in |
| OfferedCourses.UpdateCheck | src/app/modules/OfferedCourse/OfferedCourse.service.ts:121-163 | update passes iff the record and the faculty exist, the registration is UPCOMING and the conflict test reports nothing; an unknown id is NotFound "Offered Course not found!", a known id with an unknown faculty is NotFound "Faculty not found!", and it fails with Conflict "This Faculty is not available …" exactly when the earlier guards pass and the conflict test reports a clash |
| OfferedCourses.Rescheduled | src/app/modules/OfferedCourse/OfferedCourse.service.ts:165-167 | only faculty, days, startTime and endTime change |
| OfferedCourses.DeleteCheck | src/app/modules/OfferedCourse/OfferedCourse.service.ts:191-209 | delete passes iff the record exists and its registration is UPCOMING; an unknown id is NotFound |
| OfferedCourses.StatusGateRejects | src/app/modules/OfferedCourse/OfferedCourse.service.ts:135-209 | update and delete are refused with the 400 status gate whenever the registration is not UPCOMING, a missing registration included |
| OfferedCourses.UpdateSeesOwnSchedule | src/app/modules/OfferedCourse/OfferedCourse.service.ts:146-150 | the schedules an update is checked against include the record's own when the faculty stays the same |
| OfferedCourses.UnchangedScheduleConflictsWithItself | src/app/modules/OfferedCourse/OfferedCourse.service.ts:146-163 | with a conflict test that reports overlaps, an update keeping faculty and a non-empty schedule fails with Conflict |
| OfferedCourses.CreateKeepsStoreConsistent | src/app/modules/OfferedCourse/OfferedCourse.service.ts:69-111 | a create that passes keeps sections unique and every record's references, department and copied academic semester consistent |
| OfferedCourses.UpdateKeepsStoreConsistent | src/app/modules/OfferedCourse/OfferedCourse.service.ts:127-167 | an update that passes keeps the collection consistent |
| OfferedCourses.DeleteKeepsStoreConsistent | src/app/modules/OfferedCourse/OfferedCourse.service.ts:211 | a delete keeps the collection consistent |
| OfferedCourses.OfferedCourseService.Create | src/app/modules/OfferedCourse/OfferedCourse.service.ts:13-113 | fails exactly as CreateCheck says and then writes nothing; otherwise adds exactly one record, NewRecord, under a fresh id; a consistent store stays consistent |
| OfferedCourses.OfferedCourseService.Update | src/app/modules/OfferedCourse/OfferedCourse.service.ts:115-170 | fails exactly as UpdateCheck says and then writes nothing; otherwise only that record changes, to the rescheduled record, which is returned; a consistent store stays consistent |
| OfferedCourses.OfferedCourseService.GetSingle | src/app/modules/OfferedCourse/OfferedCourse.service.ts:183-189 | the stored record, or NotFound "Offered Course not found" exactly for an unknown id |
| OfferedCourses.OfferedCourseService.Delete | src/app/modules/OfferedCourse/OfferedCourse.service.ts:191-214 | fails exactly as DeleteCheck says and then removes nothing; otherwise removes and returns exactly that record, leaving every other one; a consistent store stays consistent |

## Left out

- `getAllOfferedCourse`: it relies entirely on the query builder, which is not part of this model.
- The body of `hasTimeConflict` is not part of this model. It is a parameter `(assigned schedules, new schedule) -> bool`.
- OfferedCourses.AssignedSchedules: the assigned schedules are passed keyed by id. The order of the query's result array is not modelled.
- The malformed `days: {$in: {days}}` filter is not modelled. The assigned schedules are those of the same faculty and registration; day matching is left to the conflict test.
- The status-gate messages (`NotUpcoming` errors) interpolate the looked-up registration document. The model keeps the document and the text around it, not the rendered string.
- The `academicSemesterNameCodeMapper` constant is not part of this model; it is a parameter of `SemesterTable.Create`.
- AcademicSemesters.SemesterTable.Update: `runValidators` runs the semester schema's validators on update. That schema is not part of this model, so the update applies the partial data unchecked.
- User lookups (`findLastStudentId`, the query inside `findLastFacultyId`) read the database. The newest stored id is an input instead.
- `Number()` on a string that is not all digits (NaN) is not modelled. The generators require the parsed part to be digits, and an empty part reads as 0.
- UserIds.Number: no JavaScript float precision. Numbers are unbounded.
- Stored department names and ids are plain strings and naturals. Mongoose casting, ObjectIds, timestamps and `lean()` are not modelled.
- AcademicDepartments.DepartmentCollection.FindOneAndUpdate: which matching document is updated (the first in natural order) is left open. The update's return value (the document before the update) is not modelled; it returns the id.
- AcademicDepartments.SchemaErrors: a missing and an empty name are both the empty string, which the required-string validator rejects alike.
- Asynchrony, the read-then-write races between guards and writes, and `console.log` are not modelled. Each operation runs alone.
- The HTTP layer (controllers, routes, the error-rendering middleware) is not part of this model.

## Findings

| source | as written | input that shows it | evidently intended | confidence | as-written member | corrected member |
|---|---|---|---|---|---|---|
| src/app/modules/user/user.utils.ts:37-45 | `findLastFacultyId` drops two characters and `generateFacultyId` drops two more, so only the stored id from index 4 on is incremented | "F-0099" is followed by "F-0100", which is followed by "F-0001", the first faculty's id again | increment the whole number after "F-", so ids never repeat | not executed | UserIds.FacultyIdResets, UserIdExamples.FacultyIdRepeatsAfter0100 | UserIds.GenerateFacultyIdCorrected, UserIds.CorrectedIdsNeverRepeat |
