/**
 * `CourseRepo.CourseRepository`: course queries and writes over the context's
 * course set, answering -1 for a missing course instead of throwing.
 */
module CourseRepo {
  import opened Wrappers
  import opened Entities
  import opened Store
  import opened GenericRepository

  /** UpdateCourseAsync: -1 for a missing id; else the stored course takes the new values and its id is answered. */
  function UpdateCourseOutcome(st: TableState<Course>, c: Course): (Result<int>, TableState<Course>) {
    if FindRow(st.rows, CourseId, c.id).None? then (Ok(-1), st)
    else
      var (saved, after) := Save(Stage(st, Modified(c)), CourseId);
      (if saved.Ok? then Ok(c.id) else Err(saved.error), after)
  }

  /** DeleteCourseAsync: -1 for a missing id; else the course is removed and its id answered. */
  function DeleteCourseOutcome(st: TableState<Course>, id: int): (Result<int>, TableState<Course>) {
    if FindRow(st.rows, CourseId, id).None? then (Ok(-1), st)
    else
      var (saved, after) := Save(Stage(st, Removed(id)), CourseId);
      (if saved.Ok? then Ok(id) else Err(saved.error), after)
  }

  lemma UpdateCourseMissing(st: TableState<Course>, c: Course)
    requires forall i :: 0 <= i < |st.rows| ==> st.rows[i].id != c.id
    ensures UpdateCourseOutcome(st, c) == (Ok(-1), st)
  {
  }

  /** A stored course takes every value of the argument; no other row changes. */
  lemma UpdateCoursePresent(st: TableState<Course>, c: Course)
    requires st.pending == [] && FindRow(st.rows, CourseId, c.id).Some?
    ensures var (r, after) := UpdateCourseOutcome(st, c);
      var k := IndexOf(st.rows, CourseId, c.id);
      r == Ok(c.id) && after == TableState(st.rows[k := c], [], st.nextId)
  {
    ApplySingle(st.rows, CourseId, Modified(c));
    assert Stage(st, Modified(c)).pending == [Modified(c)];
  }

  lemma DeleteCourseMissing(st: TableState<Course>, id: int)
    requires forall i :: 0 <= i < |st.rows| ==> st.rows[i].id != id
    ensures DeleteCourseOutcome(st, id) == (Ok(-1), st)
  {
  }

  /** A stored course is removed, and only that course; its id is answered. */
  lemma DeleteCoursePresent(st: TableState<Course>, id: int)
    requires DistinctIds(st.rows, CourseId) && st.pending == [] && FindRow(st.rows, CourseId, id).Some?
    ensures DeleteCourseOutcome(st, id).0 == Ok(id)
    ensures var after := DeleteCourseOutcome(st, id).1;
      after.pending == [] && |after.rows| == |st.rows| - 1
      && (forall x :: x in after.rows ==> x in st.rows && x.id != id)
      && (forall x :: x in st.rows && x.id != id ==> x in after.rows)
  {
    var k := IndexOf(st.rows, CourseId, id);
    ApplySingle(st.rows, CourseId, Removed(id));
    assert Stage(st, Removed(id)).pending == [Removed(id)];
    assert DeleteCourseOutcome(st, id) == (Ok(id), TableState(RemoveAt(st.rows, k), [], st.nextId));
    RemoveAtMembers(st.rows, CourseId, k);
  }

  class CourseRepository {
    const courses: Table<Course>

    ghost predicate Valid()
      reads this, courses
    {
      courses.Valid() && courses.idOf == CourseId
    }

    constructor (courses: Table<Course>)
      requires courses.Valid() && courses.idOf == CourseId
      ensures Valid() && this.courses == courses
    {
      this.courses := courses;
    }

    /** With an id only that course, or empty; without one every course, Deleted ones included. */
    method GetCourses(id: Option<int>) returns (r: seq<Course>)
      ensures r == GetAll(courses.rows, courses.idOf, id)
    {
      if id.Some? {
        r := RowsWithId(courses.rows, courses.idOf, id.value);
        if |r| == 0 {
          return [];
        }
      } else {
        r := courses.rows;
      }
    }

    /** `FirstOrDefault` by exact name. */
    method GetCourseByNameAsync(name: string) returns (r: Option<Course>)
      ensures r.Some? ==> r.value in courses.rows && r.value.name == name
      ensures r.None? <==> forall i :: 0 <= i < |courses.rows| ==> courses.rows[i].name != name
      ensures r == FirstWhere(courses.rows, CourseNamed(name))
    {
      r := FirstWhere(courses.rows, CourseNamed(name));
    }

    /** `FirstOrDefault` by id, which with unique ids is the row with that id. */
    method GetCourseById(id: int) returns (r: Option<Course>)
      requires Valid()
      ensures r == FindRow(courses.rows, CourseId, id)
    {
      r := courses.Find(id);
    }

    method AddCourseAsync(c: Course) returns (r: Result<int>)
      requires Valid()
      modifies courses
      ensures Valid()
      ensures (r, courses.State()) == AddOutcome(old(courses.State()), c, CourseId, courses.withId)
    {
      var added := courses.Add(c);
      var saved := courses.SaveChanges();
      r := if saved.Ok? then Ok(added.id) else Err(saved.error);
    }

    /** `FindAsync` by id; with unique ids it answers what `GetCourseById` does, as in the code. */
    method GetCourseByIdAsync(id: int) returns (r: Option<Course>)
      requires Valid()
      ensures r == FindRow(courses.rows, CourseId, id)
    {
      r := courses.Find(id);
    }

    method UpdateCourseAsync(c: Course) returns (r: Result<int>)
      requires Valid()
      modifies courses
      ensures Valid()
      ensures (r, courses.State()) == UpdateCourseOutcome(old(courses.State()), c)
    {
      var existing := courses.Find(c.id);
      if existing.None? {
        return Ok(-1);
      }
      courses.Update(c);
      var saved := courses.SaveChanges();
      r := if saved.Ok? then Ok(existing.value.id) else Err(saved.error);
    }

    method DeleteCourseAsync(id: int) returns (r: Result<int>)
      requires Valid()
      modifies courses
      ensures Valid()
      ensures (r, courses.State()) == DeleteCourseOutcome(old(courses.State()), id)
    {
      var existing := courses.Find(id);
      if existing.None? {
        return Ok(-1);
      }
      courses.Remove(id);
      var saved := courses.SaveChanges();
      r := if saved.Ok? then Ok(existing.value.id) else Err(saved.error);
    }
  }
}
