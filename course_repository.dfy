/**
 * `CourseRepository` in the repositories namespace: `GenericRepository<Course>`
 * plus a lookup by name. The inherited operations are those of the wrapped
 * generic repository, which the class exposes unchanged as `generic`.
 */
module CourseRepository {
  import opened Wrappers
  import opened Entities
  import opened Store
  import opened GenericRepository

  /** `SingleOrDefault` by exact name. */
  function CourseByName(rows: seq<Course>, name: string): (r: Result<Option<Course>>)
    ensures r.Ok? && r.value.Some? ==> r.value.value in rows && r.value.value.name == name
  {
    SingleWhere(rows, CourseNamed(name))
  }

  /** No course of that name: null. */
  lemma {:induction false} ByNameNone(rows: seq<Course>, name: string)
    requires forall i :: 0 <= i < |rows| ==> rows[i].name != name
    ensures CourseByName(rows, name) == Ok(None)
  {
    WhereNone(rows, CourseNamed(name));
  }

  /** Exactly one course of that name: that course. */
  lemma {:induction false} ByNameUnique(rows: seq<Course>, name: string, i: int)
    requires 0 <= i < |rows| && rows[i].name == name
    requires forall j :: 0 <= j < |rows| && j != i ==> rows[j].name != name
    ensures CourseByName(rows, name) == Ok(Some(rows[i]))
  {
    WhereOne(rows, CourseNamed(name), i);
  }

  /** Two courses of that name: the lookup fails. */
  lemma {:induction false} ByNameAmbiguous(rows: seq<Course>, name: string, i: int, j: int)
    requires 0 <= i < j < |rows| && rows[i].name == name && rows[j].name == name
    ensures CourseByName(rows, name) == Err(MoreThanOneMatch)
  {
    WhereTwo(rows, CourseNamed(name), i, j);
  }

  class CourseRepository {
    const generic: GenericRepository<Course>

    constructor (generic: GenericRepository<Course>)
      ensures this.generic == generic
    {
      this.generic := generic;
    }

    /** Read-only: nothing is modified. */
    method GetCourseByNameAsync(name: string) returns (r: Result<Option<Course>>)
      ensures r == CourseByName(generic.table.rows, name)
    {
      var matches := Where(generic.table.rows, CourseNamed(name));
      if |matches| == 0 {
        r := Ok(None);
      } else if |matches| == 1 {
        r := Ok(Some(matches[0]));
      } else {
        r := Err(MoreThanOneMatch);
      }
    }
  }
}
