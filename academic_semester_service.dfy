/** The academic-semester service: a create guarded by the name-to-code
    mapping, plus plain reads and an unguarded partial update. */
module AcademicSemesters {
  import opened Common

  datatype SemesterName = Autumn | Summer | Fall

  datatype Month =
    | January | February | March | April | May | June
    | July | August | September | October | November | December

  /** An academic semester record; `year` and `code` are strings ("2025", "01"). */
  datatype AcademicSemester = AcademicSemester(
    name: SemesterName,
    year: string,
    code: string,
    startMonth: Month,
    endMonth: Month)

  /** A partial update: a field given as `None` is left as it is. */
  datatype SemesterPatch = SemesterPatch(
    name: Option<SemesterName>,
    year: Option<string>,
    code: Option<string>,
    startMonth: Option<Month>,
    endMonth: Option<Month>)

  datatype AppError = NotAcceptable(message: string)

  const InvalidSemesterCode: AppError := NotAcceptable("Invalid Semester Code")

  /** `mapper[name] === code`: a name missing from the mapping reads as
      `undefined`, which equals no code. */
  predicate CodeMatches(mapper: map<SemesterName, string>, s: AcademicSemester)
  {
    s.name in mapper && mapper[s.name] == s.code
  }

  /** Every stored semester agrees with the name-to-code mapping. */
  ghost predicate AllCodesMatch(mapper: map<SemesterName, string>, semesters: map<Id, AcademicSemester>)
  {
    forall id :: id in semesters ==> CodeMatches(mapper, semesters[id])
  }

  /** The record after a partial update: each given field replaces the stored
      one, every other field is kept. */
  function ApplyPatch(s: AcademicSemester, p: SemesterPatch): (t: AcademicSemester)
    ensures t.name == (if p.name.Some? then p.name.value else s.name)
    ensures t.year == (if p.year.Some? then p.year.value else s.year)
    ensures t.code == (if p.code.Some? then p.code.value else s.code)
    ensures t.startMonth == (if p.startMonth.Some? then p.startMonth.value else s.startMonth)
    ensures t.endMonth == (if p.endMonth.Some? then p.endMonth.value else s.endMonth)
    ensures p == SemesterPatch(None, None, None, None, None) ==> t == s
  {
    AcademicSemester(
      if p.name.Some? then p.name.value else s.name,
      if p.year.Some? then p.year.value else s.year,
      if p.code.Some? then p.code.value else s.code,
      if p.startMonth.Some? then p.startMonth.value else s.startMonth,
      if p.endMonth.Some? then p.endMonth.value else s.endMonth)
  }

  /** The update path does not re-check the mapping: renaming a semester whose
      code matched can leave a stored record whose code no longer matches. */
  lemma UpdateCanBreakCodeMapping(mapper: map<SemesterName, string>, s: AcademicSemester, to: SemesterName)
    requires CodeMatches(mapper, s)
    requires to in mapper && mapper[to] != mapper[s.name]
    ensures !CodeMatches(mapper, ApplyPatch(s, SemesterPatch(Some(to), None, None, None, None)))
  {
  }

  /** The semester collection. */
  class SemesterTable {
    var semesters: map<Id, AcademicSemester>
    var nextId: Id

    ghost predicate Valid()
      reads this
    {
      forall id :: id in semesters ==> id < nextId
    }

    constructor ()
      ensures Valid() && semesters == map[]
    {
      semesters := map[];
      nextId := 0;
    }

    /** `createAcademicSemster`: rejected with "Invalid Semester Code" exactly
        when the mapping does not give the payload's code for its name; a
        rejected create writes nothing, an accepted one stores the payload
        unchanged under a fresh id. */
    method Create(payload: AcademicSemester, mapper: map<SemesterName, string>)
      returns (r: Result<Id, AppError>)
      requires Valid()
      modifies this
      ensures Valid()
      ensures r.Err? <==> !CodeMatches(mapper, payload)
      ensures r.Err? ==> r.error == InvalidSemesterCode && semesters == old(semesters)
      ensures r.Ok? ==> r.value !in old(semesters) && semesters == old(semesters)[r.value := payload]
      ensures old(AllCodesMatch(mapper, semesters)) ==> AllCodesMatch(mapper, semesters)
    {
      if !(payload.name in mapper && mapper[payload.name] == payload.code) {
        return Err(InvalidSemesterCode);
      }
      var id := nextId;
      semesters := semesters[id := payload];
      nextId := nextId + 1;
      r := Ok(id);
    }

    /** `getAllAcademicSemesters`: the whole collection. */
    method GetAll() returns (all: map<Id, AcademicSemester>)
      ensures all.Keys == semesters.Keys
      ensures forall id :: id in all ==> all[id] == semesters[id]
    {
      all := semesters;
    }

    /** `getSingleAcademicSemester`: the record, or `null` (not an error) for an
        unknown id. */
    method GetSingle(id: Id) returns (r: Option<AcademicSemester>)
      ensures r.None? <==> id !in semesters
      ensures r.Some? ==> r.value == semesters[id]
    {
      if id in semesters {
        r := Some(semesters[id]);
      } else {
        r := None;
      }
    }

    /** `updateAcademicSemester`: applies the partial data to the record with
        that id, without consulting the name-to-code mapping, and returns the
        new record; an unknown id yields `null` and changes nothing. */
    method Update(id: Id, patch: SemesterPatch) returns (r: Option<AcademicSemester>)
      requires Valid()
      modifies this`semesters
      ensures Valid()
      ensures r.None? <==> id !in old(semesters)
      ensures r.None? ==> semesters == old(semesters)
      ensures r.Some? ==> r.value == ApplyPatch(old(semesters)[id], patch)
      ensures r.Some? ==> semesters == old(semesters)[id := r.value]
    {
      if id !in semesters {
        return None;
      }
      var updated := ApplyPatch(semesters[id], patch);
      semesters := semesters[id := updated];
      r := Some(updated);
    }
  }
}
