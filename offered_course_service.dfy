/** The offered-course service: each write runs a fixed chain of guards
    against the stored registrations, faculties, departments and courses and
    then changes the offered-course collection at most once. The schedule
    conflict test is a parameter of the operations that use it. */
module OfferedCourses {
  import opened Common
  import AcademicDepartments

  datatype RegistrationStatus = Upcoming | Ongoing | Ended

  /** A semester registration: the academic semester it opens and its status. */
  datatype SemesterRegistration = SemesterRegistration(academicSemester: Id, status: RegistrationStatus)

  datatype AcademicFaculty = AcademicFaculty(name: string)
  datatype Faculty = Faculty(name: string)
  datatype Course = Course(title: string)

  datatype Day = Sat | Sun | Mon | Tue | Wed | Thu | Fri

  /** When a course meets: its week days and its "HH:mm" start and end. */
  datatype Schedule = Schedule(days: seq<Day>, startTime: string, endTime: string)

  /** What a client submits to create an offered course. */
  datatype OfferedCoursePayload = OfferedCoursePayload(
    semesterRegistration: Id,
    academicFaculty: Id,
    academicDepartment: Id,
    course: Id,
    faculty: Id,
    section: int,
    days: seq<Day>,
    startTime: string,
    endTime: string)

  /** A stored offered course: the payload plus the academic semester copied
      from its registration. */
  datatype OfferedCourse = OfferedCourse(
    semesterRegistration: Id,
    academicSemester: Id,
    academicFaculty: Id,
    academicDepartment: Id,
    course: Id,
    faculty: Id,
    section: int,
    days: seq<Day>,
    startTime: string,
    endTime: string)

  /** What a client submits to reschedule an offered course. */
  datatype ScheduleUpdate = ScheduleUpdate(faculty: Id, days: seq<Day>, startTime: string, endTime: string)

  /** The errors the service throws. `NotUpcoming` is the 400 error of the
      status gate, whose message is `prefix`, then the looked-up registration
      as the template literal renders it, then `suffix`. */
  datatype ApiError =
    | NotFound(message: string)
    | BadRequest(message: string)
    | Conflict(message: string)
    | NotUpcoming(prefix: string, registration: Option<SemesterRegistration>, suffix: string)

  /** The HTTP status each error is answered with. */
  function StatusCode(e: ApiError): (code: int)
    ensures code in {400, 404, 409}
    ensures code == 404 <==> e.NotFound?
    ensures code == 409 <==> e.Conflict?
    ensures code == 400 <==> e.BadRequest? || e.NotUpcoming?
  {
    match e
    case NotFound(_) => 404
    case BadRequest(_) => 400
    case Conflict(_) => 409
    case NotUpcoming(_, _, _) => 400
  }

  const RegistrationNotFound: string := "Semester Registration not found!"
  const AcademicFacultyNotFound: string := "Academic Faculty not found!"
  const AcademicDepartmentNotFound: string := "Academic Department not found!"
  const FacultyIsNotFound: string := "Faculty is not found!"
  const CourseNotFound: string := "Course not found!"
  const SameSectionExists: string := "Offered Course with Same Section is already exists!"
  const FacultyUnavailable: string := "This Faculty is not available at that time ! Please Choose other time or day"
  const OfferedCourseNotFoundOnUpdate: string := "Offered Course not found!"
  const FacultyNotFound: string := "Faculty not found!"
  const UpdateGatePrefix: string := "You can not update this offered Course as it is "
  const OfferedCourseNotFound: string := "Offered Course not found"
  const DeleteGatePrefix: string := "Offered course can not update ! because the semester "

  /** The BadRequest message for a department outside the given faculty. */
  function NotBelongMessage(department: AcademicDepartments.Department, faculty: AcademicFaculty): string
  {
    "This " + department.name + " is not belong to this " + faculty.name
  }

  /** A snapshot of the collections the service reads. */
  datatype Db = Db(
    registrations: map<Id, SemesterRegistration>,
    academicFaculties: map<Id, AcademicFaculty>,
    departments: map<Id, AcademicDepartments.Department>,
    faculties: map<Id, Faculty>,
    courses: map<Id, Course>,
    offeredCourses: map<Id, OfferedCourse>)

  /** `hasTimeConflict(assignedSchedules, newSchedule)`. */
  type ConflictTest = (map<Id, Schedule>, Schedule) -> bool

  function ScheduleOf(o: OfferedCourse): Schedule
  {
    Schedule(o.days, o.startTime, o.endTime)
  }

  /** The schedules of every offered course the faculty teaches under the
      registration, keyed by offered-course id. */
  function AssignedSchedules(offeredCourses: map<Id, OfferedCourse>, registration: Id, faculty: Id): (m: map<Id, Schedule>)
    ensures forall k :: k in m <==>
              k in offeredCourses && offeredCourses[k].semesterRegistration == registration && offeredCourses[k].faculty == faculty
    ensures forall k :: k in m ==> m[k] == ScheduleOf(offeredCourses[k])
  {
    map k | k in offeredCourses && offeredCourses[k].semesterRegistration == registration && offeredCourses[k].faculty == faculty
      :: ScheduleOf(offeredCourses[k])
  }

  /** An offered course of the same registration, course and section is stored. */
  predicate SectionTaken(offeredCourses: map<Id, OfferedCourse>, registration: Id, course: Id, section: int)
  {
    exists k :: k in offeredCourses && offeredCourses[k].semesterRegistration == registration
                && offeredCourses[k].course == course && offeredCourses[k].section == section
  }

  /** Every reference of a create payload names a stored document. */
  predicate ReferencesExist(db: Db, p: OfferedCoursePayload)
  {
    && p.semesterRegistration in db.registrations
    && p.academicFaculty in db.academicFaculties
    && p.academicDepartment in db.departments
    && p.faculty in db.faculties
    && p.course in db.courses
  }

  /** The verdict of `createOfferedCourse`'s guards, in the order the service
      runs them. */
  function CreateCheck(db: Db, p: OfferedCoursePayload, hasTimeConflict: ConflictTest): (o: Outcome<ApiError>)
    ensures o.Pass? <==>
              && ReferencesExist(db, p)
              && db.departments[p.academicDepartment].academicFaculty == Some(p.academicFaculty)
              && !SectionTaken(db.offeredCourses, p.semesterRegistration, p.course, p.section)
              && !hasTimeConflict(AssignedSchedules(db.offeredCourses, p.semesterRegistration, p.faculty),
                                  Schedule(p.days, p.startTime, p.endTime))
    ensures o.Fail? && o.error.NotFound? <==> !ReferencesExist(db, p)
    ensures o.Fail? && o.error.Conflict? <==>
              && ReferencesExist(db, p)
              && db.departments[p.academicDepartment].academicFaculty == Some(p.academicFaculty)
              && !SectionTaken(db.offeredCourses, p.semesterRegistration, p.course, p.section)
              && hasTimeConflict(AssignedSchedules(db.offeredCourses, p.semesterRegistration, p.faculty),
                                 Schedule(p.days, p.startTime, p.endTime))
    ensures o.Fail? && o.error.Conflict? ==> o.error == Conflict(FacultyUnavailable)
  {
    if p.semesterRegistration !in db.registrations then Fail(NotFound(RegistrationNotFound))
    else if p.academicFaculty !in db.academicFaculties then Fail(NotFound(AcademicFacultyNotFound))
    else if p.academicDepartment !in db.departments then Fail(NotFound(AcademicDepartmentNotFound))
    else if p.faculty !in db.faculties then Fail(NotFound(FacultyIsNotFound))
    else if p.course !in db.courses then Fail(NotFound(CourseNotFound))
    else if db.departments[p.academicDepartment].academicFaculty != Some(p.academicFaculty) then
      Fail(BadRequest(NotBelongMessage(db.departments[p.academicDepartment], db.academicFaculties[p.academicFaculty])))
    else if SectionTaken(db.offeredCourses, p.semesterRegistration, p.course, p.section) then
      Fail(BadRequest(SameSectionExists))
    else if hasTimeConflict(AssignedSchedules(db.offeredCourses, p.semesterRegistration, p.faculty),
                            Schedule(p.days, p.startTime, p.endTime)) then
      Fail(Conflict(FacultyUnavailable))
    else Pass
  }

  /** The existence checks run strictly in the order registration, academic
      faculty, academic department, faculty, course: each NotFound message is
      reported exactly when its document is the first one missing. */
  lemma CreateReportsFirstMissingReference(db: Db, p: OfferedCoursePayload, hasTimeConflict: ConflictTest)
    ensures var o := CreateCheck(db, p, hasTimeConflict);
            && (o == Fail(NotFound(RegistrationNotFound)) <==> p.semesterRegistration !in db.registrations)
            && (o == Fail(NotFound(AcademicFacultyNotFound)) <==>
                  p.semesterRegistration in db.registrations && p.academicFaculty !in db.academicFaculties)
            && (o == Fail(NotFound(AcademicDepartmentNotFound)) <==>
                  && p.semesterRegistration in db.registrations && p.academicFaculty in db.academicFaculties
                  && p.academicDepartment !in db.departments)
            && (o == Fail(NotFound(FacultyIsNotFound)) <==>
                  && p.semesterRegistration in db.registrations && p.academicFaculty in db.academicFaculties
                  && p.academicDepartment in db.departments && p.faculty !in db.faculties)
            && (o == Fail(NotFound(CourseNotFound)) <==>
                  && p.semesterRegistration in db.registrations && p.academicFaculty in db.academicFaculties
                  && p.academicDepartment in db.departments && p.faculty in db.faculties
                  && p.course !in db.courses)
  {
  }

  /** A create never succeeds when the department does not belong to the
      given academic faculty, even though both exist: it fails with
      BadRequest naming both, before the section and schedule checks. */
  lemma ForeignDepartmentRejected(db: Db, p: OfferedCoursePayload, hasTimeConflict: ConflictTest)
    requires ReferencesExist(db, p)
    requires db.departments[p.academicDepartment].academicFaculty != Some(p.academicFaculty)
    ensures CreateCheck(db, p, hasTimeConflict)
         == Fail(BadRequest(NotBelongMessage(db.departments[p.academicDepartment], db.academicFaculties[p.academicFaculty])))
  {
  }

  /** A taken (registration, course, section) is reported before, and
      whatever, the schedule conflict test says. */
  lemma DuplicateSectionBeforeConflict(db: Db, p: OfferedCoursePayload, hasTimeConflict: ConflictTest)
    requires ReferencesExist(db, p)
    requires db.departments[p.academicDepartment].academicFaculty == Some(p.academicFaculty)
    requires SectionTaken(db.offeredCourses, p.semesterRegistration, p.course, p.section)
    ensures CreateCheck(db, p, hasTimeConflict) == Fail(BadRequest(SameSectionExists))
  {
  }

  /** The record a successful create stores: the payload, with the academic
      semester copied from the registration. */
  function NewRecord(db: Db, p: OfferedCoursePayload): (o: OfferedCourse)
    requires p.semesterRegistration in db.registrations
    ensures o.academicSemester == db.registrations[p.semesterRegistration].academicSemester
    ensures o.semesterRegistration == p.semesterRegistration && o.academicFaculty == p.academicFaculty
    ensures o.academicDepartment == p.academicDepartment && o.course == p.course && o.faculty == p.faculty
    ensures o.section == p.section && ScheduleOf(o) == Schedule(p.days, p.startTime, p.endTime)
  {
    OfferedCourse(p.semesterRegistration, db.registrations[p.semesterRegistration].academicSemester,
                  p.academicFaculty, p.academicDepartment, p.course, p.faculty, p.section,
                  p.days, p.startTime, p.endTime)
  }

  /** The registration an offered course belongs to, as the status gate looks it up. */
  function LookupRegistration(db: Db, registration: Id): (r: Option<SemesterRegistration>)
    ensures r.Some? <==> registration in db.registrations
    ensures r.Some? ==> r.value == db.registrations[registration]
  {
    if registration in db.registrations then Some(db.registrations[registration]) else None
  }

  /** `registration?.status === "UPCOMING"`: false for a missing registration. */
  predicate IsUpcoming(r: Option<SemesterRegistration>)
  {
    r.Some? && r.value.status == Upcoming
  }

  /** The verdict of `updateOfferedCourse`'s guards. The schedules checked
      for a conflict are all of the new faculty's schedules under the
      record's registration, the record's own included. */
  function UpdateCheck(db: Db, id: Id, u: ScheduleUpdate, hasTimeConflict: ConflictTest): (o: Outcome<ApiError>)
    ensures id !in db.offeredCourses ==> o == Fail(NotFound(OfferedCourseNotFoundOnUpdate))
    ensures id in db.offeredCourses && u.faculty !in db.faculties ==> o == Fail(NotFound(FacultyNotFound))
    ensures o.Fail? && o.error.Conflict? <==>
              && id in db.offeredCourses
              && u.faculty in db.faculties
              && IsUpcoming(LookupRegistration(db, db.offeredCourses[id].semesterRegistration))
              && hasTimeConflict(AssignedSchedules(db.offeredCourses, db.offeredCourses[id].semesterRegistration, u.faculty),
                                 Schedule(u.days, u.startTime, u.endTime))
    ensures o.Fail? && o.error.Conflict? ==> o.error == Conflict(FacultyUnavailable)
    ensures o.Pass? <==>
              && id in db.offeredCourses
              && u.faculty in db.faculties
              && IsUpcoming(LookupRegistration(db, db.offeredCourses[id].semesterRegistration))
              && !hasTimeConflict(AssignedSchedules(db.offeredCourses, db.offeredCourses[id].semesterRegistration, u.faculty),
                                  Schedule(u.days, u.startTime, u.endTime))
  {
    if id !in db.offeredCourses then Fail(NotFound(OfferedCourseNotFoundOnUpdate))
    else if u.faculty !in db.faculties then Fail(NotFound(FacultyNotFound))
    else
      var registration := db.offeredCourses[id].semesterRegistration;
      var found := LookupRegistration(db, registration);
      if !IsUpcoming(found) then Fail(NotUpcoming(UpdateGatePrefix, found, "!"))
      else if hasTimeConflict(AssignedSchedules(db.offeredCourses, registration, u.faculty),
                              Schedule(u.days, u.startTime, u.endTime)) then
        Fail(Conflict(FacultyUnavailable))
      else Pass
  }

  /** The record after a successful update: faculty and schedule replaced,
      every other field kept. */
  function Rescheduled(o: OfferedCourse, u: ScheduleUpdate): (t: OfferedCourse)
    ensures t.faculty == u.faculty && ScheduleOf(t) == Schedule(u.days, u.startTime, u.endTime)
    ensures t.semesterRegistration == o.semesterRegistration && t.academicSemester == o.academicSemester
    ensures t.academicFaculty == o.academicFaculty && t.academicDepartment == o.academicDepartment
    ensures t.course == o.course && t.section == o.section
  {
    o.(faculty := u.faculty, days := u.days, startTime := u.startTime, endTime := u.endTime)
  }

  /** The verdict of `deleteOfferedCourse`'s guards. */
  function DeleteCheck(db: Db, id: Id): (o: Outcome<ApiError>)
    ensures o.Pass? <==>
              id in db.offeredCourses && IsUpcoming(LookupRegistration(db, db.offeredCourses[id].semesterRegistration))
    ensures id !in db.offeredCourses ==> o == Fail(NotFound(OfferedCourseNotFound))
  {
    if id !in db.offeredCourses then Fail(NotFound(OfferedCourseNotFound))
    else
      var found := LookupRegistration(db, db.offeredCourses[id].semesterRegistration);
      if !IsUpcoming(found) then Fail(NotUpcoming(DeleteGatePrefix, found, ""))
      else Pass
  }

  /** Update and delete of a stored record are refused with the 400 status
      gate whenever its registration is not UPCOMING, a missing registration
      included; for an update this happens once the faculty is known. */
  lemma StatusGateRejects(db: Db, id: Id, u: ScheduleUpdate, hasTimeConflict: ConflictTest)
    requires id in db.offeredCourses
    requires !IsUpcoming(LookupRegistration(db, db.offeredCourses[id].semesterRegistration))
    ensures var found := LookupRegistration(db, db.offeredCourses[id].semesterRegistration);
            && DeleteCheck(db, id) == Fail(NotUpcoming(DeleteGatePrefix, found, ""))
            && StatusCode(DeleteCheck(db, id).error) == 400
            && (u.faculty in db.faculties ==>
                  UpdateCheck(db, id, u, hasTimeConflict) == Fail(NotUpcoming(UpdateGatePrefix, found, "!")))
  {
  }

  /** The schedules an update is checked against include the record's own
      current schedule whenever the faculty stays the same. */
  lemma UpdateSeesOwnSchedule(db: Db, id: Id, u: ScheduleUpdate)
    requires id in db.offeredCourses && u.faculty == db.offeredCourses[id].faculty
    ensures var m := AssignedSchedules(db.offeredCourses, db.offeredCourses[id].semesterRegistration, u.faculty);
            id in m && m[id] == ScheduleOf(db.offeredCourses[id])
  {
  }

  /** `a` sorts strictly before `b`, character by character. */
  predicate LexLess(a: string, b: string)
  {
    if a == [] then b != []
    else b != [] && (a[0] < b[0] || (a[0] == b[0] && LexLess(a[1..], b[1..])))
  }

  /** Two schedules share a day and their [start, end) ranges overlap. */
  predicate Overlaps(a: Schedule, b: Schedule)
  {
    && (exists d :: d in a.days && d in b.days)
    && LexLess(a.startTime, b.endTime) && LexLess(b.startTime, a.endTime)
  }

  /** A conflict test that reports every overlap with an assigned schedule. */
  ghost predicate DetectsOverlaps(hasTimeConflict: ConflictTest)
  {
    forall m: map<Id, Schedule>, s: Schedule, k: Id :: k in m && Overlaps(m[k], s) ==> hasTimeConflict(m, s)
  }

  /** Because the record is not excluded from its own conflict check, a
      conflict test that reports overlaps makes every update that keeps the
      faculty and a non-empty schedule unchanged fail with Conflict, once the
      earlier guards pass. */
  lemma UnchangedScheduleConflictsWithItself(db: Db, id: Id, hasTimeConflict: ConflictTest)
    requires DetectsOverlaps(hasTimeConflict)
    requires id in db.offeredCourses
    requires var o := db.offeredCourses[id]; o.faculty in db.faculties && o.days != [] && LexLess(o.startTime, o.endTime)
    requires IsUpcoming(LookupRegistration(db, db.offeredCourses[id].semesterRegistration))
    ensures var o := db.offeredCourses[id];
            (UpdateCheck(db, id, ScheduleUpdate(o.faculty, o.days, o.startTime, o.endTime), hasTimeConflict)
               == Fail(Conflict(FacultyUnavailable)))
  {
    var o := db.offeredCourses[id];
    var u := ScheduleUpdate(o.faculty, o.days, o.startTime, o.endTime);
    UpdateSeesOwnSchedule(db, id, u);
    var m := AssignedSchedules(db.offeredCourses, o.semesterRegistration, o.faculty);
    assert o.days[0] in o.days;
    assert Overlaps(m[id], ScheduleOf(o));
  }

  /** No two stored offered courses share registration, course and section. */
  ghost predicate SectionsUnique(offeredCourses: map<Id, OfferedCourse>)
  {
    forall a, b :: a in offeredCourses && b in offeredCourses
      && offeredCourses[a].semesterRegistration == offeredCourses[b].semesterRegistration
      && offeredCourses[a].course == offeredCourses[b].course
      && offeredCourses[a].section == offeredCourses[b].section
      ==> a == b
  }

  /** A stored record's references exist, its department belongs to its
      academic faculty, and its academic semester is its registration's. */
  predicate RecordConsistent(db: Db, o: OfferedCourse)
  {
    && o.semesterRegistration in db.registrations
    && o.academicSemester == db.registrations[o.semesterRegistration].academicSemester
    && o.academicFaculty in db.academicFaculties
    && o.academicDepartment in db.departments
    && db.departments[o.academicDepartment].academicFaculty == Some(o.academicFaculty)
    && o.faculty in db.faculties
    && o.course in db.courses
  }

  /** The invariant the guards maintain over the offered-course collection. */
  ghost predicate StoreConsistent(db: Db)
  {
    && SectionsUnique(db.offeredCourses)
    && (forall k :: k in db.offeredCourses ==> RecordConsistent(db, db.offeredCourses[k]))
  }

  /** A create the guards let through keeps the collection consistent. */
  lemma CreateKeepsStoreConsistent(db: Db, p: OfferedCoursePayload, hasTimeConflict: ConflictTest, id: Id)
    requires StoreConsistent(db)
    requires CreateCheck(db, p, hasTimeConflict).Pass?
    requires id !in db.offeredCourses
    ensures StoreConsistent(db.(offeredCourses := db.offeredCourses[id := NewRecord(db, p)]))
  {
    var r := NewRecord(db, p);
    var oc := db.offeredCourses[id := r];
    forall a, b | a in oc && b in oc && oc[a].semesterRegistration == oc[b].semesterRegistration
                  && oc[a].course == oc[b].course && oc[a].section == oc[b].section
      ensures a == b
    {
      if a != id && b != id {
        assert db.offeredCourses[a].section == db.offeredCourses[b].section;
      }
    }
  }

  /** An update the guards let through keeps the collection consistent: it
      never changes registration, course or section, and its faculty exists. */
  lemma UpdateKeepsStoreConsistent(db: Db, id: Id, u: ScheduleUpdate, hasTimeConflict: ConflictTest)
    requires StoreConsistent(db)
    requires UpdateCheck(db, id, u, hasTimeConflict).Pass?
    ensures StoreConsistent(db.(offeredCourses := db.offeredCourses[id := Rescheduled(db.offeredCourses[id], u)]))
  {
    var oc := db.offeredCourses[id := Rescheduled(db.offeredCourses[id], u)];
    forall a, b | a in oc && b in oc && oc[a].semesterRegistration == oc[b].semesterRegistration
                  && oc[a].course == oc[b].course && oc[a].section == oc[b].section
      ensures a == b
    {
      assert db.offeredCourses[a].section == db.offeredCourses[b].section;
    }
  }

  /** Deleting a record keeps the collection consistent. */
  lemma DeleteKeepsStoreConsistent(db: Db, id: Id)
    requires StoreConsistent(db)
    ensures StoreConsistent(db.(offeredCourses := db.offeredCourses - {id}))
  {
  }

  /** The offered-course service over its collections. Only the
      offered-course collection is written; the others are read. The service
      never checks StoreConsistent itself: its operations run on any store,
      and each write keeps the invariant whenever it held before. */
  class OfferedCourseService {
    var registrations: map<Id, SemesterRegistration>
    var academicFaculties: map<Id, AcademicFaculty>
    var departments: map<Id, AcademicDepartments.Department>
    var faculties: map<Id, Faculty>
    var courses: map<Id, Course>
    var offeredCourses: map<Id, OfferedCourse>
    var nextId: Id

    function Store(): Db
      reads this
    {
      Db(registrations, academicFaculties, departments, faculties, courses, offeredCourses)
    }

    /** Every stored id lies below the counter, so the counter is fresh. */
    ghost predicate Valid()
      reads this
    {
      forall k :: k in offeredCourses ==> k < nextId
    }

    constructor (registrations: map<Id, SemesterRegistration>, academicFaculties: map<Id, AcademicFaculty>,
                 departments: map<Id, AcademicDepartments.Department>, faculties: map<Id, Faculty>, courses: map<Id, Course>)
      ensures Valid() && StoreConsistent(Store())
      ensures Store() == Db(registrations, academicFaculties, departments, faculties, courses, map[])
    {
      this.registrations := registrations;
      this.academicFaculties := academicFaculties;
      this.departments := departments;
      this.faculties := faculties;
      this.courses := courses;
      offeredCourses := map[];
      nextId := 0;
    }

    /** `createOfferedCourse`: the first failing guard is thrown and nothing
        is written; otherwise exactly one record, the payload with its
        registration's academic semester, is added under a fresh id. */
    method Create(p: OfferedCoursePayload, hasTimeConflict: ConflictTest) returns (r: Result<Id, ApiError>)
      requires Valid()
      modifies this`offeredCourses, this`nextId
      ensures Valid()
      ensures old(StoreConsistent(Store())) ==> StoreConsistent(Store())
      ensures r.Err? <==> CreateCheck(old(Store()), p, hasTimeConflict).Fail?
      ensures r.Err? ==> Fail(r.error) == CreateCheck(old(Store()), p, hasTimeConflict)
      ensures r.Err? ==> offeredCourses == old(offeredCourses)
      ensures r.Ok? ==> r.value !in old(offeredCourses)
      ensures r.Ok? ==> offeredCourses == old(offeredCourses)[r.value := NewRecord(old(Store()), p)]
    {
      if p.semesterRegistration !in registrations {
        return Err(NotFound(RegistrationNotFound));
      }
      var academicSemester := registrations[p.semesterRegistration].academicSemester;
      if p.academicFaculty !in academicFaculties {
        return Err(NotFound(AcademicFacultyNotFound));
      }
      if p.academicDepartment !in departments {
        return Err(NotFound(AcademicDepartmentNotFound));
      }
      if p.faculty !in faculties {
        return Err(NotFound(FacultyIsNotFound));
      }
      if p.course !in courses {
        return Err(NotFound(CourseNotFound));
      }
      var department := departments[p.academicDepartment];
      if department.academicFaculty != Some(p.academicFaculty) {
        return Err(BadRequest(NotBelongMessage(department, academicFaculties[p.academicFaculty])));
      }
      if SectionTaken(offeredCourses, p.semesterRegistration, p.course, p.section) {
        return Err(BadRequest(SameSectionExists));
      }
      var schedules := AssignedSchedules(offeredCourses, p.semesterRegistration, p.faculty);
      if hasTimeConflict(schedules, Schedule(p.days, p.startTime, p.endTime)) {
        return Err(Conflict(FacultyUnavailable));
      }
      var record := OfferedCourse(p.semesterRegistration, academicSemester, p.academicFaculty,
                                  p.academicDepartment, p.course, p.faculty, p.section,
                                  p.days, p.startTime, p.endTime);
      if StoreConsistent(Store()) {
        CreateKeepsStoreConsistent(Store(), p, hasTimeConflict, nextId);
      }
      var id := nextId;
      offeredCourses := offeredCourses[id := record];
      nextId := nextId + 1;
      r := Ok(id);
    }

    /** `updateOfferedCourse`: the first failing guard is thrown and nothing
        is written; otherwise the record gets the new faculty and schedule,
        keeps every other field, and is returned. */
    method Update(id: Id, u: ScheduleUpdate, hasTimeConflict: ConflictTest) returns (r: Result<OfferedCourse, ApiError>)
      requires Valid()
      modifies this`offeredCourses
      ensures Valid()
      ensures old(StoreConsistent(Store())) ==> StoreConsistent(Store())
      ensures r.Err? <==> UpdateCheck(old(Store()), id, u, hasTimeConflict).Fail?
      ensures r.Err? ==> Fail(r.error) == UpdateCheck(old(Store()), id, u, hasTimeConflict)
      ensures r.Err? ==> offeredCourses == old(offeredCourses)
      ensures r.Ok? ==> r.value == Rescheduled(old(offeredCourses)[id], u)
      ensures r.Ok? ==> offeredCourses == old(offeredCourses)[id := r.value]
    {
      if id !in offeredCourses {
        return Err(NotFound(OfferedCourseNotFoundOnUpdate));
      }
      if u.faculty !in faculties {
        return Err(NotFound(FacultyNotFound));
      }
      var registration := offeredCourses[id].semesterRegistration;
      var found := if registration in registrations then Some(registrations[registration]) else None;
      if !(found.Some? && found.value.status == Upcoming) {
        return Err(NotUpcoming(UpdateGatePrefix, found, "!"));
      }
      var schedules := AssignedSchedules(offeredCourses, registration, u.faculty);
      if hasTimeConflict(schedules, Schedule(u.days, u.startTime, u.endTime)) {
        return Err(Conflict(FacultyUnavailable));
      }
      if StoreConsistent(Store()) {
        UpdateKeepsStoreConsistent(Store(), id, u, hasTimeConflict);
      }
      var updated := offeredCourses[id].(faculty := u.faculty, days := u.days,
                                         startTime := u.startTime, endTime := u.endTime);
      offeredCourses := offeredCourses[id := updated];
      r := Ok(updated);
    }

    /** `getSingleOfferedCourse`: the record, or NotFound for an unknown id. */
    method GetSingle(id: Id) returns (r: Result<OfferedCourse, ApiError>)
      ensures r.Err? <==> id !in offeredCourses
      ensures r.Err? ==> r.error == NotFound(OfferedCourseNotFound)
      ensures r.Ok? ==> r.value == offeredCourses[id]
    {
      if id !in offeredCourses {
        return Err(NotFound(OfferedCourseNotFound));
      }
      r := Ok(offeredCourses[id]);
    }

    /** `deleteOfferedCourse`: the first failing guard is thrown and nothing
        is removed; otherwise exactly that record is removed and returned. */
    method Delete(id: Id) returns (r: Result<OfferedCourse, ApiError>)
      requires Valid()
      modifies this`offeredCourses
      ensures Valid()
      ensures old(StoreConsistent(Store())) ==> StoreConsistent(Store())
      ensures r.Err? <==> DeleteCheck(old(Store()), id).Fail?
      ensures r.Err? ==> Fail(r.error) == DeleteCheck(old(Store()), id)
      ensures r.Err? ==> offeredCourses == old(offeredCourses)
      ensures r.Ok? ==> r.value == old(offeredCourses)[id] && offeredCourses == old(offeredCourses) - {id}
    {
      if id !in offeredCourses {
        return Err(NotFound(OfferedCourseNotFound));
      }
      var record := offeredCourses[id];
      var registration := record.semesterRegistration;
      var found := if registration in registrations then Some(registrations[registration]) else None;
      if !(found.Some? && found.value.status == Upcoming) {
        return Err(NotUpcoming(DeleteGatePrefix, found, ""));
      }
      if StoreConsistent(Store()) {
        DeleteKeepsStoreConsistent(Store(), id);
      }
      offeredCourses := offeredCourses - {id};
      r := Ok(record);
    }
  }
}
