/**
 * `StudentRepository` in the repositories namespace: the generic repository
 * interface over the context's students, with a soft-delete filter on reads and
 * three operations that are not implemented.
 */
module StudentRepository {
  import opened Wrappers
  import opened Entities
  import opened Store
  import opened GenericRepository
  import opened StudentQuery

  class StudentRepository {
    const students: Table<Student>

    ghost predicate Valid()
      reads this, students
    {
      students.Valid()
    }

    constructor (students: Table<Student>)
      ensures this.students == students
    {
      this.students := students;
    }

    /**
     * Read-only: the students that are not Deleted, and with an id only those with
     * that id; the include expression only loads related data.
     */
    method GetAllAsync(id: Option<int>, navigation: Option<string>) returns (r: seq<Student>)
      ensures r == VisibleStudents(students.rows, id)
    {
      r := VisibleStudents(students.rows, id);
    }

    /** Inserts, saves, and answers the student's id. */
    method AddAsync(s: Student) returns (r: Result<int>)
      requires Valid()
      modifies students
      ensures Valid()
      ensures (r, students.State()) == AddOutcome(old(students.State()), s, students.idOf, students.withId)
    {
      var added := students.Add(s);
      var saved := students.SaveChanges();
      r := if saved.Ok? then Ok(students.idOf(added)) else Err(saved.error);
    }

    // DeleteAsync, GetByIdAsync and UpdateAsync are three stubs that throw
    // `NotImplementedException`, the same in the code.
    method DeleteAsync(id: int) returns (r: Result<int>)
      ensures r == Err(NotImplemented)
    {
      r := Err(NotImplemented);
    }

    method GetByIdAsync(id: int) returns (r: Result<Option<Student>>)
      ensures r == Err(NotImplemented)
    {
      r := Err(NotImplemented);
    }

    method UpdateAsync(s: Student) returns (r: Result<int>)
      ensures r == Err(NotImplemented)
    {
      r := Err(NotImplemented);
    }
  }
}
