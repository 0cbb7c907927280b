/**
 * `SchoolService`: school rules written directly against the context's school set.
 * Post refuses an id below 1, a taken id and a taken name (Deleted schools
 * included); Put, Delete and GetSchoolDetail refuse a missing or Deleted school;
 * Delete removes the row.
 */
module SchoolService {
  import opened Wrappers
  import opened Entities
  import opened Store
  import SchoolRepository

  /** The query predicate `s => s.Name.Equals(name)`, which does not look at the status. */
  function SchoolNamed(name: string): School -> bool {
    (s: School) => s.name == name
  }

  function NotDeleted(): School -> bool {
    (s: School) => s.status != Deleted
  }

  function WithId(id: int): School -> bool {
    (s: School) => s.id == id
  }

  function StudentOf(schoolId: int): Student -> bool {
    (s: Student) => s.schoolId == schoolId
  }

  /** The address Post writes onto the saved school before adding it a second time. */
  const PostedAddress := "123"

  /**
   * Post. After the save, the address is changed and the same school added again;
   * the context is not saved a second time, so that insert stays pending.
   */
  function PostOutcome(st: TableState<School>, view: SchoolView, data: School): (Result<int>, TableState<School>) {
    if FindRow(st.rows, SchoolId, view.id).Some? || view.id < 1 then (Ok(-1), st)
    else if FirstWhere(st.rows, SchoolNamed(view.name)).Some? then (Ok(-1), st)
    else
      var (added, staged) := StageAdd(st, data, SchoolId, SchoolWithId);
      var (saved, after) := Save(staged, SchoolId);
      if saved.Err? then (Err(saved.error), after)
      else
        var readded := added.(address := PostedAddress);
        (Ok(readded.id), StageAdd(after, readded, SchoolId, SchoolWithId).1)
  }

  /** An id below 1, a taken id or a taken name, even a Deleted school's, answers -1 and changes nothing. */
  lemma PostRefuses(st: TableState<School>, view: SchoolView, data: School)
    requires view.id < 1
          || (exists i :: 0 <= i < |st.rows| && st.rows[i].id == view.id)
          || (exists i :: 0 <= i < |st.rows| && st.rows[i].name == view.name)
    ensures PostOutcome(st, view, data) == (Ok(-1), st)
  {
    if exists i :: 0 <= i < |st.rows| && st.rows[i].name == view.name {
      var i :| 0 <= i < |st.rows| && st.rows[i].name == view.name;
      assert SchoolNamed(view.name)(st.rows[i]);
    }
    if exists i :: 0 <= i < |st.rows| && st.rows[i].id == view.id {
      var i :| 0 <= i < |st.rows| && st.rows[i].id == view.id;
      assert SchoolId(st.rows[i]) == view.id;
    }
  }

  /**
   * A new id and name store the mapped school as it was mapped, answer its id, and
   * leave one pending insert of the same school with the address "123".
   */
  lemma PostStoresSchool(st: TableState<School>, view: SchoolView, data: School)
    requires st.pending == [] && view.id >= 1 && data.id == view.id
    requires forall i :: 0 <= i < |st.rows| ==> st.rows[i].id != view.id && st.rows[i].name != view.name
    ensures var (r, after) := PostOutcome(st, view, data);
      r == Ok(view.id) && after.rows == st.rows + [data]
      && after.pending == [Added(data.(address := PostedAddress))]
  {
    assert forall i :: 0 <= i < |st.rows| ==> SchoolId(st.rows[i]) != view.id;
    assert forall i :: 0 <= i < |st.rows| ==> !SchoolNamed(view.name)(st.rows[i]);
    var (added, staged) := StageAdd(st, data, SchoolId, SchoolWithId);
    assert added == data && staged.pending == [Added(data)];
    assert IndexOf(st.rows, SchoolId, data.id) < 0;
    SaveOne(staged, SchoolId, Added(data));
  }

  /** Put: -1 for a missing or Deleted school; else the view mapped onto it is saved and its id answered. */
  function PutOutcome(st: TableState<School>, view: SchoolView, mapOnto: (SchoolView, School) -> School)
    : (Result<int>, TableState<School>)
  {
    var stored := FindRow(st.rows, SchoolId, view.id);
    if stored.None? || stored.value.status == Deleted then (Ok(-1), st)
    else
      var mapped := mapOnto(view, stored.value).(id := stored.value.id);
      var (saved, after) := Save(Stage(st, Modified(mapped)), SchoolId);
      (AfterSave(saved, mapped.id), after)
  }

  lemma PutRefusesMissingOrDeleted(st: TableState<School>, view: SchoolView, mapOnto: (SchoolView, School) -> School)
    requires DistinctIds(st.rows, SchoolId)
    requires (forall i :: 0 <= i < |st.rows| ==> st.rows[i].id != view.id)
          || (exists i :: 0 <= i < |st.rows| && st.rows[i].id == view.id && st.rows[i].status == Deleted)
    ensures PutOutcome(st, view, mapOnto) == (Ok(-1), st)
  {
    if exists i :: 0 <= i < |st.rows| && st.rows[i].id == view.id && st.rows[i].status == Deleted {
      var i :| 0 <= i < |st.rows| && st.rows[i].id == view.id && st.rows[i].status == Deleted;
      FindRowUnique(st.rows, SchoolId, i);
    } else {
      assert forall i :: 0 <= i < |st.rows| ==> SchoolId(st.rows[i]) != view.id;
    }
  }

  /** A live school is overwritten in place by the mapped view and keeps its id. */
  lemma PutWritesMappedSchool(st: TableState<School>, view: SchoolView, mapOnto: (SchoolView, School) -> School, k: int)
    requires DistinctIds(st.rows, SchoolId) && st.pending == []
    requires 0 <= k < |st.rows| && st.rows[k].id == view.id && st.rows[k].status != Deleted
    ensures PutOutcome(st, view, mapOnto) ==
              (Ok(view.id), TableState(st.rows[k := mapOnto(view, st.rows[k]).(id := view.id)], [], st.nextId))
  {
    FindRowUnique(st.rows, SchoolId, k);
    var mapped := mapOnto(view, st.rows[k]).(id := view.id);
    ApplySingle(st.rows, SchoolId, Modified(mapped));
    assert Stage(st, Modified(mapped)).pending == [Modified(mapped)];
  }

  /** Delete: -1 for a missing or Deleted school; else the row is removed and its id answered. */
  function DeleteOutcome(st: TableState<School>, id: int): (Result<int>, TableState<School>) {
    var stored := FindRow(st.rows, SchoolId, id);
    if stored.None? || stored.value.status == Deleted then (Ok(-1), st)
    else
      var (saved, after) := Save(Stage(st, Removed(stored.value.id)), SchoolId);
      (AfterSave(saved, stored.value.id), after)
  }

  /** A Deleted school is not removed: Delete answers -1 for it too. */
  lemma DeleteRefusesDeleted(st: TableState<School>, k: int)
    requires DistinctIds(st.rows, SchoolId) && 0 <= k < |st.rows| && st.rows[k].status == Deleted
    ensures DeleteOutcome(st, st.rows[k].id) == (Ok(-1), st)
  {
    FindRowUnique(st.rows, SchoolId, k);
  }

  /** A live school is removed, and only that row; its id is answered. */
  lemma DeleteRemovesSchool(st: TableState<School>, k: int)
    requires DistinctIds(st.rows, SchoolId) && st.pending == []
    requires 0 <= k < |st.rows| && st.rows[k].status != Deleted
    ensures var (r, after) := DeleteOutcome(st, st.rows[k].id);
      r == Ok(st.rows[k].id) && after.pending == [] && |after.rows| == |st.rows| - 1
      && (forall x :: x in after.rows ==> x in st.rows && x.id != st.rows[k].id)
      && (forall x :: x in st.rows && x.id != st.rows[k].id ==> x in after.rows)
  {
    var id := st.rows[k].id;
    FindRowUnique(st.rows, SchoolId, k);
    ApplySingle(st.rows, SchoolId, Removed(id));
    assert Stage(st, Removed(id)).pending == [Removed(id)];
    assert IndexOf(st.rows, SchoolId, id) == k;
    assert DeleteOutcome(st, id) == (Ok(id), TableState(RemoveAt(st.rows, k), [], st.nextId));
    RemoveAtMembers(st.rows, SchoolId, k);
  }

  /** `SchoolStudentViewModel`: the school with its loaded `Students` collection. */
  datatype SchoolDetail = SchoolDetail(school: School, students: seq<Student>)

  /**
   * GetSchoolDetail: null for a missing or Deleted school; else the school with every
   * student whose school it is, whatever the student's status.
   */
  function Detail(schools: seq<School>, students: seq<Student>, schoolId: int): (r: Option<SchoolDetail>)
    ensures r.Some? ==> r.value.school in schools && r.value.school.id == schoolId && r.value.school.status != Deleted
    ensures r.Some? ==> forall s :: s in r.value.students <==> s in students && s.schoolId == schoolId
  {
    var school := FindRow(schools, SchoolId, schoolId);
    if school.None? || school.value.status == Deleted then None
    else Some(SchoolDetail(school.value, Where(students, StudentOf(schoolId))))
  }

  /** The detail is null exactly for a missing or a Deleted school. */
  lemma DetailNullIff(schools: seq<School>, students: seq<Student>, schoolId: int)
    requires DistinctIds(schools, SchoolId)
    ensures Detail(schools, students, schoolId).None? <==>
              forall i :: 0 <= i < |schools| && schools[i].id == schoolId ==> schools[i].status == Deleted
  {
    if exists i :: 0 <= i < |schools| && schools[i].id == schoolId {
      var i :| 0 <= i < |schools| && schools[i].id == schoolId;
      FindRowUnique(schools, SchoolId, i);
    } else {
      assert forall i :: 0 <= i < |schools| ==> SchoolId(schools[i]) != schoolId;
    }
  }

  class SchoolService {
    /** `_context.School`. */
    const schools: Table<School>
    /** `_context.Students`, which the detail view loads from. */
    const students: Table<Student>
    /** `_mapper.Map<School>(school)` for a new school. */
    const mapCreate: SchoolView -> School
    /** `_mapper.Map(school, data)` onto a stored school. */
    const mapOnto: (SchoolView, School) -> School

    ghost predicate Valid()
      reads this, schools
    {
      schools.Valid() && schools.idOf == SchoolId && schools.withId == SchoolWithId
    }

    constructor (schools: Table<School>, students: Table<Student>, mapCreate: SchoolView -> School,
                 mapOnto: (SchoolView, School) -> School)
      requires schools.Valid() && schools.idOf == SchoolId && schools.withId == SchoolWithId
      ensures Valid() && this.schools == schools && this.students == students
      ensures this.mapCreate == mapCreate && this.mapOnto == mapOnto
    {
      this.schools := schools;
      this.students := students;
      this.mapCreate := mapCreate;
      this.mapOnto := mapOnto;
    }

    /** The schools that are not Deleted, and with an id only that one. */
    method GetSchools(schoolId: Option<int>) returns (r: seq<School>)
      ensures r == SchoolRepository.GetSchoolsAsync(schools.rows, schoolId)
    {
      var query := Where(schools.rows, NotDeleted());
      if schoolId.Some? {
        query := Where(query, WithId(schoolId.value));
        WhereWhere(schools.rows, NotDeleted(), WithId(schoolId.value), SchoolRepository.NotDeletedWithId(schoolId));
      } else {
        WhereSame(schools.rows, NotDeleted(), SchoolRepository.NotDeletedWithId(None));
      }
      r := query;
    }

    method Post(school: SchoolView) returns (r: Result<int>)
      requires Valid()
      modifies schools
      ensures Valid()
      ensures (r, schools.State()) == PostOutcome(old(schools.State()), school, mapCreate(school))
    {
      var dupId := schools.Find(school.id);
      if dupId.Some? || school.id < 1 {
        return Ok(-1);
      }
      var existingSchool := FirstWhere(schools.rows, SchoolNamed(school.name));
      if existingSchool.Some? {
        return Ok(-1);
      }
      var data := mapCreate(school);
      data := schools.Add(data);
      var saved := schools.SaveChanges();
      if saved.Err? {
        return Err(saved.error);
      }
      data := data.(address := PostedAddress);
      var _ := schools.Add(data);
      r := Ok(data.id);
    }

    method Put(school: SchoolView) returns (r: Result<int>)
      requires Valid()
      modifies schools
      ensures Valid()
      ensures (r, schools.State()) == PutOutcome(old(schools.State()), school, mapOnto)
    {
      var data := schools.Find(school.id);
      if data.None? || data.value.status == Deleted {
        return Ok(-1);
      }
      var mapped := mapOnto(school, data.value).(id := data.value.id);
      schools.Update(mapped);
      var saved := schools.SaveChanges();
      r := AfterSave(saved, mapped.id);
    }

    method Delete(schoolId: int) returns (r: Result<int>)
      requires Valid()
      modifies schools
      ensures Valid()
      ensures (r, schools.State()) == DeleteOutcome(old(schools.State()), schoolId)
    {
      var data := schools.Find(schoolId);
      if data.None? || data.value.status == Deleted {
        return Ok(-1);
      }
      schools.Remove(data.value.id);
      var saved := schools.SaveChanges();
      r := AfterSave(saved, data.value.id);
    }

    method GetSchoolDetail(schoolId: int) returns (r: Option<SchoolDetail>)
      requires Valid()
      ensures r == Detail(schools.rows, students.rows, schoolId)
    {
      var school := schools.Find(schoolId);
      if school.None? || school.value.status == Deleted {
        return None;
      }
      var loaded := Where(students.rows, StudentOf(schoolId));
      r := Some(SchoolDetail(school.value, loaded));
    }
  }
}
