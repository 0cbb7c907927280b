/**
 * `CourseService`: course rules over `CourseRepo.CourseRepository`. A taken name,
 * a missing course and a Deleted course are answered with -1; soft delete keeps
 * the row and marks it Deleted, while delete removes it.
 */
module CourseService {
  import opened Wrappers
  import opened Entities
  import opened Store
  import opened GenericRepository
  import opened CourseRepo

  /** Post: -1 when any course, Deleted or not, has the name; else the mapped course is added. */
  function PostOutcome(st: TableState<Course>, name: string, data: Course): (Result<int>, TableState<Course>) {
    if FirstWhere(st.rows, CourseNamed(name)).Some? then (Ok(-1), st)
    else AddOutcome(st, data, CourseId, CourseWithId)
  }

  /** PutAsync: -1 for a missing or Deleted course; else the view mapped onto it is saved. */
  function PutOutcome(st: TableState<Course>, view: CourseView, mapOnto: (CourseView, Course) -> Course)
    : (Result<int>, TableState<Course>)
  {
    var stored := FindRow(st.rows, CourseId, view.courseId);
    if stored.None? || stored.value.status == Deleted then (Ok(-1), st)
    else UpdateCourseOutcome(st, Remapped(view, stored.value, mapOnto))
  }

  /** `_mapper.Map(course, oldCourse)` on the tracked course, whose key stays as it is. */
  function Remapped(view: CourseView, stored: Course, mapOnto: (CourseView, Course) -> Course): (c: Course)
    ensures c.id == stored.id
  {
    mapOnto(view, stored).(id := stored.id)
  }

  /** SoftDeleteAsync: -1 for a missing or already Deleted course; else it is saved as Deleted. */
  function SoftDeleteOutcome(st: TableState<Course>, id: int): (Result<int>, TableState<Course>) {
    var stored := FindRow(st.rows, CourseId, id);
    if stored.None? || stored.value.status == Deleted then (Ok(-1), st)
    else UpdateCourseOutcome(st, stored.value.(status := Deleted))
  }

  /** A name already stored, even on a Deleted course, answers -1 and adds nothing. */
  lemma PostRefusesTakenName(st: TableState<Course>, name: string, data: Course, i: int)
    requires 0 <= i < |st.rows| && st.rows[i].name == name
    ensures PostOutcome(st, name, data) == (Ok(-1), st)
  {
    assert CourseNamed(name)(st.rows[i]);
  }

  /** A free name adds the mapped course at the end under the next id, and answers that id. */
  lemma PostAddsCourse(st: TableState<Course>, name: string, data: Course)
    requires st.pending == [] && data.id == 0
    requires forall i :: 0 <= i < |st.rows| ==> st.rows[i].name != name && st.rows[i].id != st.nextId
    ensures PostOutcome(st, name, data) ==
              (Ok(st.nextId), TableState(st.rows + [data.(id := st.nextId)], [], st.nextId + 1))
  {
    assert forall i :: 0 <= i < |st.rows| ==> !CourseNamed(name)(st.rows[i]);
    assert forall i :: 0 <= i < |st.rows| ==> CourseId(st.rows[i]) != st.nextId;
    AddPersists(st, data, CourseId, CourseWithId);
  }

  /** A missing or Deleted course answers -1 and changes nothing. */
  lemma PutRefusesMissingOrDeleted(st: TableState<Course>, view: CourseView, mapOnto: (CourseView, Course) -> Course)
    requires DistinctIds(st.rows, CourseId)
    requires (forall i :: 0 <= i < |st.rows| ==> st.rows[i].id != view.courseId)
          || (exists i :: 0 <= i < |st.rows| && st.rows[i].id == view.courseId && st.rows[i].status == Deleted)
    ensures PutOutcome(st, view, mapOnto) == (Ok(-1), st)
  {
    if exists i :: 0 <= i < |st.rows| && st.rows[i].id == view.courseId && st.rows[i].status == Deleted {
      var i :| 0 <= i < |st.rows| && st.rows[i].id == view.courseId && st.rows[i].status == Deleted;
      FindRowUnique(st.rows, CourseId, i);
    } else {
      assert forall i :: 0 <= i < |st.rows| ==> CourseId(st.rows[i]) != view.courseId;
    }
  }

  /** A live course is overwritten in place by the mapped view, and its id answered. */
  lemma PutWritesMappedCourse(st: TableState<Course>, view: CourseView, mapOnto: (CourseView, Course) -> Course, k: int)
    requires DistinctIds(st.rows, CourseId) && st.pending == []
    requires 0 <= k < |st.rows| && st.rows[k].id == view.courseId && st.rows[k].status != Deleted
    ensures PutOutcome(st, view, mapOnto) ==
              (Ok(view.courseId), TableState(st.rows[k := Remapped(view, st.rows[k], mapOnto)], [], st.nextId))
  {
    FindRowUnique(st.rows, CourseId, k);
    UpdateCoursePresent(st, Remapped(view, st.rows[k], mapOnto));
  }

  /**
   * Soft delete keeps the row and changes only its status; a second soft delete of
   * the same course answers -1 and leaves it Deleted.
   */
  lemma SoftDeleteMarksDeleted(st: TableState<Course>, k: int)
    requires DistinctIds(st.rows, CourseId) && st.pending == []
    requires 0 <= k < |st.rows| && st.rows[k].status != Deleted
    ensures var (r, after) := SoftDeleteOutcome(st, st.rows[k].id);
      r == Ok(st.rows[k].id)
      && after == TableState(st.rows[k := st.rows[k].(status := Deleted)], [], st.nextId)
      && SoftDeleteOutcome(after, st.rows[k].id) == (Ok(-1), after)
  {
    var id := st.rows[k].id;
    var marked := st.rows[k].(status := Deleted);
    FindRowUnique(st.rows, CourseId, k);
    UpdateCoursePresent(st, marked);
    IndexOfUpdate(st.rows, CourseId, id, marked);
  }

  /** Delete removes a course whatever its status, a soft-deleted one included. */
  lemma DeleteRemovesSoftDeleted(st: TableState<Course>, k: int)
    requires DistinctIds(st.rows, CourseId) && st.pending == []
    requires 0 <= k < |st.rows| && st.rows[k].status != Deleted
    ensures var (_, marked) := SoftDeleteOutcome(st, st.rows[k].id);
      var (r, after) := DeleteCourseOutcome(marked, st.rows[k].id);
      r == Ok(st.rows[k].id) && |after.rows| == |st.rows| - 1
      && forall x :: x in after.rows ==> x in st.rows && x.id != st.rows[k].id
  {
    var id := st.rows[k].id;
    SoftDeleteMarksDeleted(st, k);
    var marked := SoftDeleteOutcome(st, id).1;
    assert marked.rows[k].id == id;
    assert DistinctIds(marked.rows, CourseId) by {
      forall i, j | 0 <= i < j < |marked.rows| ensures CourseId(marked.rows[i]) != CourseId(marked.rows[j]) {
        assert CourseId(marked.rows[i]) == CourseId(st.rows[i]);
        assert CourseId(marked.rows[j]) == CourseId(st.rows[j]);
      }
    }
    FindRowUnique(marked.rows, CourseId, k);
    DeleteCoursePresent(marked, id);
    forall x | x in DeleteCourseOutcome(marked, id).1.rows ensures x in st.rows {
      var i :| 0 <= i < |marked.rows| && marked.rows[i] == x;
      assert i != k;
      assert x == st.rows[i];
    }
  }

  class CourseService {
    const courseRepository: CourseRepository
    /** `_mapper.Map<Course>(course)` for a new course. */
    const mapCreate: CourseView -> Course
    /** `_mapper.Map(course, oldCourse)` onto a stored course. */
    const mapOnto: (CourseView, Course) -> Course

    ghost predicate Valid()
      reads this, courseRepository, courseRepository.courses
    {
      courseRepository.Valid() && courseRepository.courses.withId == CourseWithId
    }

    constructor (courseRepository: CourseRepository, mapCreate: CourseView -> Course,
                 mapOnto: (CourseView, Course) -> Course)
      requires courseRepository.Valid() && courseRepository.courses.withId == CourseWithId
      ensures Valid() && this.courseRepository == courseRepository && this.mapCreate == mapCreate && this.mapOnto == mapOnto
    {
      this.courseRepository := courseRepository;
      this.mapCreate := mapCreate;
      this.mapOnto := mapOnto;
    }

    method GetCourses(courseId: Option<int>) returns (r: seq<Course>)
      requires Valid()
      ensures r == GetAll(courseRepository.courses.rows, CourseId, courseId)
    {
      r := courseRepository.GetCourses(courseId);
    }

    method Post(course: CourseView) returns (r: Result<int>)
      requires Valid()
      modifies courseRepository.courses
      ensures Valid()
      ensures (r, courseRepository.courses.State()) ==
                PostOutcome(old(courseRepository.courses.State()), course.courseName, mapCreate(course))
    {
      var dupCourseName := courseRepository.GetCourseByNameAsync(course.courseName);
      if dupCourseName.Some? {
        return Ok(-1);
      }
      var data := mapCreate(course);
      r := courseRepository.AddCourseAsync(data);
    }

    method PutAsync(course: CourseView) returns (r: Result<int>)
      requires Valid()
      modifies courseRepository.courses
      ensures Valid()
      ensures (r, courseRepository.courses.State()) == PutOutcome(old(courseRepository.courses.State()), course, mapOnto)
    {
      var oldCourse := courseRepository.GetCourseByIdAsync(course.courseId);
      if oldCourse.None? || oldCourse.value.status == Deleted {
        return Ok(-1);
      }
      var mapped := Remapped(course, oldCourse.value, mapOnto);
      r := courseRepository.UpdateCourseAsync(mapped);
    }

    method SoftDeleteAsync(courseId: int) returns (r: Result<int>)
      requires Valid()
      modifies courseRepository.courses
      ensures Valid()
      ensures (r, courseRepository.courses.State()) == SoftDeleteOutcome(old(courseRepository.courses.State()), courseId)
    {
      var oldCourse := courseRepository.GetCourseByIdAsync(courseId);
      if oldCourse.None? || oldCourse.value.status == Deleted {
        return Ok(-1);
      }
      var marked := oldCourse.value.(status := Deleted);
      r := courseRepository.UpdateCourseAsync(marked);
    }

    /** A hard delete, with no status check. */
    method DeleteAsync(courseId: int) returns (r: Result<int>)
      requires Valid()
      modifies courseRepository.courses
      ensures Valid()
      ensures (r, courseRepository.courses.State()) == DeleteCourseOutcome(old(courseRepository.courses.State()), courseId)
    {
      r := courseRepository.DeleteCourseAsync(courseId);
    }
  }
}
