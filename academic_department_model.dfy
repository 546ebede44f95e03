/** The academic-department collection together with its schema and its two
    middleware hooks: a save is validated against the schema (a name is
    required, the faculty reference is optional) and then rejected when a
    department of that name is already stored; a find-one-and-update is
    rejected when its query matches no department, and the unique index on
    `name` refuses an update that would duplicate a name. */
module AcademicDepartments {
  import opened Common
  import opened ValidationErrors

  /** A stored department: its name and the academic faculty it belongs to, if any. */
  datatype Department = Department(name: string, academicFaculty: Option<Id>)

  /** Why a write to the collection was refused. */
  datatype DepartmentError =
    | ValidationFailed(errors: seq<FieldError>)  // the schema validator's verdict
    | HookRejected(message: string)              // an error thrown by a hook
    | DuplicateKey(name: string)                 // the unique index on `name`
    | DocumentNotFound(id: Id)                   // re-saving a document no longer stored

  const AlreadyExists: string := "This Department is already exist!"
  const DoesNotExist: string := "This Department doesn't exist!"
  const NameRequired: string := "Path `name` is required."

  /** The schema's field errors for a document: only `name` is required (an
      empty string counts as missing); `academicFaculty` may be absent. */
  function SchemaErrors(d: Department): (errors: seq<FieldError>)
  {
    if d.name == "" then [ValidatorError("name", NameRequired)] else []
  }

  /** A document passes the schema exactly when it has a name, whatever its
      faculty reference. */
  lemma OnlyNameIsRequired(d: Department)
    ensures SchemaErrors(d) == [] <==> d.name != ""
    ensures SchemaErrors(d) == SchemaErrors(Department(d.name, None))
  {
  }

  /** A nameless document is answered with a 400 "Validation Error" whose one
      error document names the `name` path. */
  lemma NamelessDepartmentResponse(d: Department)
    requires d.name == ""
    ensures HandleValidationError(SchemaErrors(d))
         == GenericErrorResponse(400, "Validation Error", [ErrorDoc("name", NameRequired)])
  {
    var r := HandleValidationError(SchemaErrors(d));
    assert r.errorDocs[0] == ErrorDoc("name", NameRequired);
  }

  /** Some stored department carries this name (`findOne({name})` finds one). */
  predicate NameTaken(departments: map<Id, Department>, name: string)
  {
    exists k :: k in departments && departments[k].name == name
  }

  /** No two stored departments share a name. */
  ghost predicate NamesUnique(departments: map<Id, Department>)
  {
    forall a, b :: a in departments && b in departments && departments[a].name == departments[b].name ==> a == b
  }

  /** The verdict on saving a document: schema validation first, then the
      pre-save hook, which throws when any stored department (the document
      itself included) already has that name. */
  function SaveCheck(departments: map<Id, Department>, d: Department): (o: Outcome<DepartmentError>)
    ensures o.Pass? <==> d.name != "" && !NameTaken(departments, d.name)
    ensures d.name == "" ==> o == Fail(ValidationFailed([ValidatorError("name", NameRequired)]))
    ensures d.name != "" && NameTaken(departments, d.name) ==> o == Fail(HookRejected(AlreadyExists))
  {
    var errors := SchemaErrors(d);
    if errors != [] then Fail(ValidationFailed(errors))
    else if NameTaken(departments, d.name) then Fail(HookRejected(AlreadyExists))
    else Pass
  }

  /** Saving a stored department again without renaming it always fails: the
      hook finds the document itself. */
  lemma ResaveWithSameNameRejected(departments: map<Id, Department>, id: Id, d: Department)
    requires id in departments && departments[id].name == d.name
    ensures SaveCheck(departments, d).Fail?
    ensures d.name != "" ==> SaveCheck(departments, d) == Fail(HookRejected(AlreadyExists))
  {
  }

  /** A save the checks let through keeps names unique. */
  lemma SaveKeepsNamesUnique(departments: map<Id, Department>, id: Id, d: Department)
    requires NamesUnique(departments)
    requires SaveCheck(departments, d).Pass?
    ensures NamesUnique(departments[id := d])
  {
    var ds := departments[id := d];
    forall a, b | a in ds && b in ds && ds[a].name == ds[b].name
      ensures a == b
    {
      if a != id && b != id {
        assert departments[a].name == departments[b].name;
      }
    }
  }

  /** The collection after a series of first saves, each under the next
      identifier, which lies above every stored one; a rejected save stores
      nothing and consumes no identifier. A save never overwrites a stored
      department, and every identifier used lies below `next + |docs|`. */
  function SaveAll(departments: map<Id, Department>, next: Id, docs: seq<Department>): (ds: map<Id, Department>)
    requires forall k :: k in departments ==> k < next
    ensures forall k :: k in departments ==> k in ds && ds[k] == departments[k]
    ensures forall k :: k in ds ==> k < next + |docs|
    decreases |docs|
  {
    if docs == [] then departments
    else if SaveCheck(departments, docs[0]).Pass? then
      SaveAll(departments[next := docs[0]], next + 1, docs[1..])
    else
      SaveAll(departments, next, docs[1..])
  }

  /** After any series of saves, department names are pairwise distinct. */
  lemma {:induction false} SavesKeepNamesUnique(departments: map<Id, Department>, next: Id, docs: seq<Department>)
    requires forall k :: k in departments ==> k < next
    requires NamesUnique(departments)
    ensures NamesUnique(SaveAll(departments, next, docs))
    decreases |docs|
  {
    if docs != [] {
      if SaveCheck(departments, docs[0]).Pass? {
        SaveKeepsNamesUnique(departments, next, docs[0]);
        SavesKeepNamesUnique(departments[next := docs[0]], next + 1, docs[1..]);
      } else {
        SavesKeepNamesUnique(departments, next, docs[1..]);
      }
    }
  }

  /** The query of a find-one-and-update: an optional id and an optional name. */
  datatype DepartmentFilter = DepartmentFilter(id: Option<Id>, name: Option<string>)

  predicate Matches(f: DepartmentFilter, id: Id, d: Department)
  {
    (f.id.None? || f.id.value == id) && (f.name.None? || f.name.value == d.name)
  }

  /** The departments a query matches. */
  function MatchingIds(departments: map<Id, Department>, f: DepartmentFilter): (ids: set<Id>)
    ensures forall k :: k in ids <==> k in departments && Matches(f, k, departments[k])
  {
    set k | k in departments && Matches(f, k, departments[k])
  }

  /** The fields an update sets; the others are kept. */
  datatype DepartmentPatch = DepartmentPatch(name: Option<string>, academicFaculty: Option<Id>)

  function Patched(d: Department, p: DepartmentPatch): (e: Department)
    ensures e.name == (if p.name.Some? then p.name.value else d.name)
    ensures e.academicFaculty == (if p.academicFaculty.Some? then p.academicFaculty else d.academicFaculty)
  {
    Department(
      if p.name.Some? then p.name.value else d.name,
      if p.academicFaculty.Some? then p.academicFaculty else d.academicFaculty)
  }

  /** Another stored department already carries this name. */
  predicate NameClash(departments: map<Id, Department>, id: Id, name: string)
  {
    exists k :: k in departments && k != id && departments[k].name == name
  }

  /** The verdict on writing a patch to the department the query selected:
      the unique index refuses a name another department already has. */
  function UpdateCheck(departments: map<Id, Department>, id: Id, p: DepartmentPatch): (o: Outcome<DepartmentError>)
    requires id in departments
    ensures o.Pass? <==> !NameClash(departments, id, Patched(departments[id], p).name)
    ensures o.Fail? ==> o.error == DuplicateKey(Patched(departments[id], p).name)
  {
    var name := Patched(departments[id], p).name;
    if NameClash(departments, id, name) then Fail(DuplicateKey(name)) else Pass
  }

  /** An update the index lets through keeps names unique; in particular one
      that does not touch the name always goes through. */
  lemma UpdateKeepsNamesUnique(departments: map<Id, Department>, id: Id, p: DepartmentPatch)
    requires NamesUnique(departments) && id in departments
    ensures p.name.None? ==> UpdateCheck(departments, id, p).Pass?
    ensures UpdateCheck(departments, id, p).Pass? ==>
              NamesUnique(departments[id := Patched(departments[id], p)])
  {
    var e := Patched(departments[id], p);
    var ds := departments[id := e];
    if p.name.None? {
      forall k | k in departments && k != id
        ensures departments[k].name != e.name
      {
        assert e.name == departments[id].name;
      }
    }
    if UpdateCheck(departments, id, p).Pass? {
      forall a, b | a in ds && b in ds && ds[a].name == ds[b].name
        ensures a == b
      {
        if a != id && b != id {
          assert departments[a].name == departments[b].name;
        }
      }
    }
  }

  /** The department collection with its unique index on `name`. */
  class DepartmentCollection {
    var departments: map<Id, Department>
    var nextId: Id

    ghost predicate Valid()
      reads this
    {
      && (forall k :: k in departments ==> k < nextId)
      && NamesUnique(departments)
    }

    constructor ()
      ensures Valid() && departments == map[]
    {
      departments := map[];
      nextId := 0;
    }

    /** `new AcademicDepartment(d).save()`: rejected by the validator or by
        the pre-save hook without writing anything; otherwise stored under a
        fresh id. */
    method Save(d: Department) returns (r: Result<Id, DepartmentError>)
      requires Valid()
      modifies this
      ensures Valid()
      ensures r.Err? <==> SaveCheck(old(departments), d).Fail?
      ensures r.Err? ==> r.error == SaveCheck(old(departments), d).error && departments == old(departments)
      ensures r.Ok? ==> r.value !in old(departments) && departments == old(departments)[r.value := d]
    {
      var errors := SchemaErrors(d);
      if errors != [] {
        return Err(ValidationFailed(errors));
      }
      if NameTaken(departments, d.name) {
        return Err(HookRejected(AlreadyExists));
      }
      SaveKeepsNamesUnique(departments, nextId, d);
      var id := nextId;
      departments := departments[id := d];
      nextId := nextId + 1;
      r := Ok(id);
    }

    /** `doc.save()` on the stored document `id` after setting its contents to
        `d`: the same validator and hook run first (so keeping the name is
        always refused), then a document that is no longer stored is reported
        missing. */
    method Resave(id: Id, d: Department) returns (r: Result<Id, DepartmentError>)
      requires Valid()
      modifies this`departments
      ensures Valid()
      ensures SaveCheck(old(departments), d).Fail? ==>
                r == Err(SaveCheck(old(departments), d).error)
      ensures SaveCheck(old(departments), d).Pass? && id !in old(departments) ==>
                r == Err(DocumentNotFound(id))
      ensures r.Err? ==> departments == old(departments)
      ensures r.Ok? <==> SaveCheck(old(departments), d).Pass? && id in old(departments)
      ensures r.Ok? ==> r.value == id && departments == old(departments)[id := d]
    {
      var errors := SchemaErrors(d);
      if errors != [] {
        return Err(ValidationFailed(errors));
      }
      if NameTaken(departments, d.name) {
        return Err(HookRejected(AlreadyExists));
      }
      if id !in departments {
        return Err(DocumentNotFound(id));
      }
      SaveKeepsNamesUnique(departments, id, d);
      departments := departments[id := d];
      r := Ok(id);
    }

    /** `findOneAndUpdate(f, p)`: the pre hook throws when the query matches
        nothing; otherwise one matching department is patched, unless the
        unique index refuses the new name. A refused update writes nothing. */
    method FindOneAndUpdate(f: DepartmentFilter, p: DepartmentPatch) returns (r: Result<Id, DepartmentError>)
      requires Valid()
      modifies this`departments
      ensures Valid()
      ensures MatchingIds(old(departments), f) == {} <==> r == Err(HookRejected(DoesNotExist))
      ensures r.Err? ==> departments == old(departments)
      ensures r.Err? && MatchingIds(old(departments), f) != {} ==>
                exists k :: k in MatchingIds(old(departments), f) && Fail(r.error) == UpdateCheck(old(departments), k, p)
      ensures r.Ok? ==> && r.value in MatchingIds(old(departments), f)
                        && UpdateCheck(old(departments), r.value, p).Pass?
                        && departments == old(departments)[r.value := Patched(old(departments)[r.value], p)]
    {
      if MatchingIds(departments, f) == {} {
        return Err(HookRejected(DoesNotExist));
      }
      var id :| id in MatchingIds(departments, f);
      var check := UpdateCheck(departments, id, p);
      if check.Fail? {
        return Err(check.error);
      }
      UpdateKeepsNamesUnique(departments, id, p);
      departments := departments[id := Patched(departments[id], p)];
      r := Ok(id);
    }
  }
}
