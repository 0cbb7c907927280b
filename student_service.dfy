/**
 * `StudentService`: the student list with its school filter, sort string and
 * paging defaults; the one-word and many-word search; and the create, update and
 * delete rules, which work on the context's student set directly and through a
 * `GenericRepository<Student>` over the same set.
 */
module StudentService {
  import opened Wrappers
  import opened Text
  import opened Entities
  import opened Store
  import opened StudentQuery
  import opened GenericRepository
  import SchoolRepository

  function DuplicateIdMessage(id: int): string {
    "Student ID: " + IntToString(id) + " already exists or is invalid."
  }

  function UnknownSchoolMessage(name: string): string {
    "School with name " + name + " does not exist."
  }

  function MissingStudentMessage(id: int): string {
    "Student with ID " + IntToString(id) + " does not exist."
  }

  /** `StudentPagingViewModel`: the query the page is read from, and the page count. */
  datatype StudentPage = StudentPage(students: Plan, totalPages: int)

  /** The guard: a size or an index that is present and not positive. A null never trips it. */
  predicate PagingRejected(pageSize: Option<int>, pageIndex: Option<int>) {
    (pageSize.Some? && pageSize.value <= 0) || (pageIndex.Some? && pageIndex.value <= 0)
  }

  function NotDeleted(): Student -> bool {
    (s: Student) => s.status != Deleted
  }

  function InSchool(schoolId: int): Student -> bool {
    (s: Student) => s.schoolId == schoolId
  }

  /**
   * GetStudents. The count behind the page total is the whole student set, Deleted
   * students and other schools included.
   */
  function StudentsPage(rows: seq<Student>, schoolId: Option<int>, sortBy: Option<string>, isDescending: bool,
                        pageSize: Option<int>, pageIndex: Option<int>): (r: StudentPage)
    ensures PagingRejected(pageSize, pageIndex) <==> r == StudentPage(Rows([]), 0)
    ensures !PagingRejected(pageSize, pageIndex) ==>
              r.students.Paged?
              && r.students.source == Sorted(Rows(StudentsOfSchool(rows, schoolId)), isDescending, ParseSortBy(sortBy))
              && (r.students.pageIndex, r.students.pageSize) == NormalisePaging(pageIndex, pageSize)
    ensures !PagingRejected(pageSize, pageIndex) && pageSize.None? && pageIndex.None? ==> r.totalPages == 1
    ensures !PagingRejected(pageSize, pageIndex) && pageSize.Some? ==>
              r.totalPages == TotalPages(|rows|, pageSize.value)
    ensures !PagingRejected(pageSize, pageIndex) && pageSize.None? && pageIndex.Some? ==>
              r.totalPages == TotalPages(|rows|, 5)
  {
    if PagingRejected(pageSize, pageIndex) then StudentPage(Rows([]), 0)
    else
      var (index, size) := NormalisePaging(pageIndex, pageSize);
      var query := Paged(Sorted(Rows(StudentsOfSchool(rows, schoolId)), isDescending, ParseSortBy(sortBy)), index, size);
      StudentPage(query, if size.None? then 1 else TotalPages(|rows|, size.value))
  }

  /** The page total counts the whole set: any two sets of the same size give the same total. */
  lemma PageTotalIgnoresFilters(rows1: seq<Student>, rows2: seq<Student>, schoolId1: Option<int>, schoolId2: Option<int>,
                                sortBy1: Option<string>, sortBy2: Option<string>, desc1: bool, desc2: bool,
                                pageSize: Option<int>, pageIndex: Option<int>)
    requires |rows1| == |rows2|
    ensures StudentsPage(rows1, schoolId1, sortBy1, desc1, pageSize, pageIndex).totalPages
         == StudentsPage(rows2, schoolId2, sortBy2, desc2, pageSize, pageIndex).totalPages
  {
  }

  /** A set of Deleted students only lists nobody and still reports at least one page. */
  lemma DeletedStudentsStillCount(rows: seq<Student>, schoolId: Option<int>, sortBy: Option<string>, isDescending: bool,
                                  pageSize: Option<int>, pageIndex: Option<int>)
    requires rows != [] && forall i :: 0 <= i < |rows| ==> rows[i].status == Deleted
    requires !PagingRejected(pageSize, pageIndex)
    ensures StudentsOfSchool(rows, schoolId) == []
    ensures StudentsPage(rows, schoolId, sortBy, isDescending, pageSize, pageIndex).totalPages >= 1
  {
    NoneListed(rows, schoolId);
    var size := NormalisePaging(pageIndex, pageSize).1;
    if size.Some? {
      var pages := TotalPages(|rows|, size.value);
      assert pages * size.value >= |rows| > 0;
    }
  }

  lemma NoneListed(rows: seq<Student>, schoolId: Option<int>)
    requires forall i :: 0 <= i < |rows| ==> rows[i].status == Deleted
    ensures StudentsOfSchool(rows, schoolId) == []
  {
    WhereNone(rows, NotDeletedInSchool(schoolId));
  }

  /** Eleven students in pages of five make three pages; an index alone pages by five. */
  lemma PageTotalExample(rows: seq<Student>)
    requires |rows| == 11
    ensures StudentsPage(rows, None, None, false, Some(5), None).totalPages == 3
    ensures StudentsPage(rows, None, None, false, None, Some(2)).totalPages == 3
    ensures StudentsPage(rows, None, None, false, Some(4), Some(1)).totalPages == 3
    ensures StudentsPage(rows, None, None, false, Some(11), Some(1)).totalPages == 1
  {
  }

  /** SearchStudents: the search applied to the students that are not Deleted. */
  function SearchPlan(rows: seq<Student>, searchTerm: string): (r: Plan)
    ensures r.Rows? ==> r.rows == []
    ensures r.Searched? || r.RelatedSearched? ==>
              r.source == Rows(VisibleStudents(rows, None)) && r.term == searchTerm
    ensures !r.Paged? && !r.Sorted?
  {
    var tokens := SplitRemoveEmpty(searchTerm, ' ');
    var query := Rows(VisibleStudents(rows, None));
    if |tokens| > 1 then RelatedSearched(query, searchTerm)
    else if |tokens| == 1 then Searched(query, searchTerm)
    else Rows([])
  }

  /** The search answers nothing exactly when the term is spaces only, the empty term included. */
  lemma BlankTermFindsNothing(rows: seq<Student>, searchTerm: string)
    ensures SearchPlan(rows, searchTerm) == Rows([]) <==> forall i :: 0 <= i < |searchTerm| ==> searchTerm[i] == ' '
  {
    SplitRemoveEmptyNone(searchTerm, ' ');
  }

  /** One word is the plain search. */
  lemma OneWordSearches(rows: seq<Student>, word: string)
    requires word != "" && ' ' !in word
    ensures SearchPlan(rows, word) == Searched(Rows(VisibleStudents(rows, None)), word)
  {
    SplitRemoveEmptyOneWord(word, ' ');
  }

  /** Two words are the related search, over the whole term. */
  lemma TwoWordsSearchRelated(rows: seq<Student>, first: string, second: string)
    requires first != "" && second != "" && ' ' !in first && ' ' !in second
    ensures SearchPlan(rows, first + " " + second) ==
              RelatedSearched(Rows(VisibleStudents(rows, None)), first + " " + second)
  {
    SplitRemoveEmptyTwoWords(first, second, ' ');
  }

  /**
   * PostAsync up to the student record it builds: a taken id and an unknown school
   * are refused in that order. `Age`, `Balance` and `Status` keep their defaults.
   */
  function PostData(rows: seq<Student>, schools: seq<School>, view: StudentView): Result<Student> {
    if FindRow(rows, StudentId, view.id).Some? then Err(InvalidOperation(DuplicateIdMessage(view.id)))
    else
      var name := Split(view.fullName, ' ');
      match SchoolRepository.GetSchoolByNameAsync(schools, view.schoolName)
      case None => Err(InvalidOperation(UnknownSchoolMessage(view.schoolName)))
      case Some(school) => Ok(Student(view.id, name[0], Join(" ", name[1..]), 0, 0, school.id, Active))
  }

  /** The duplicate-id refusal happens exactly when a stored student has the id. */
  lemma PostDuplicateIff(rows: seq<Student>, schools: seq<School>, view: StudentView)
    ensures PostData(rows, schools, view) == Err(InvalidOperation(DuplicateIdMessage(view.id)))
        <==> exists i :: 0 <= i < |rows| && rows[i].id == view.id
  {
    assert DuplicateIdMessage(view.id)[1] == 't';
    assert UnknownSchoolMessage(view.schoolName)[1] == 'c';
    if exists i :: 0 <= i < |rows| && rows[i].id == view.id {
      var i :| 0 <= i < |rows| && rows[i].id == view.id;
      assert StudentId(rows[i]) == view.id;
    }
  }

  /** A free id with no school of that name that is not Deleted is refused as an unknown school. */
  lemma PostRejectsUnknownSchool(rows: seq<Student>, schools: seq<School>, view: StudentView)
    requires forall i :: 0 <= i < |rows| ==> rows[i].id != view.id
    requires forall j :: 0 <= j < |schools| ==> schools[j].name != view.schoolName || schools[j].status == Deleted
    ensures PostData(rows, schools, view) == Err(InvalidOperation(UnknownSchoolMessage(view.schoolName)))
  {
    assert FindRow(rows, StudentId, view.id).None? by {
      forall i | 0 <= i < |rows| ensures StudentId(rows[i]) != view.id {}
    }
  }

  /**
   * With a free id and a school of that name, the record keeps the id, points at the
   * first such school, and splits the full name at the first space.
   */
  lemma PostBuildsStudent(rows: seq<Student>, schools: seq<School>, view: StudentView, j: int)
    requires forall i :: 0 <= i < |rows| ==> rows[i].id != view.id
    requires 0 <= j < |schools| && schools[j].name == view.schoolName && schools[j].status != Deleted
    ensures var r := PostData(rows, schools, view);
      r.Ok? && r.value.id == view.id && r.value.status == Active
      && r.value.schoolId == SchoolRepository.GetSchoolByNameAsync(schools, view.schoolName).value.id
      && ' ' !in r.value.firstName
      && (' ' in view.fullName ==> r.value.firstName + " " + r.value.lastName == view.fullName)
      && (' ' !in view.fullName ==> r.value.firstName == view.fullName && r.value.lastName == "")
  {
    assert FindRow(rows, StudentId, view.id).None? by {
      forall i | 0 <= i < |rows| ensures StudentId(rows[i]) != view.id {}
    }
    assert SchoolRepository.GetSchoolByNameAsync(schools, view.schoolName).Some?;
    var name := Split(view.fullName, ' ');
    SplitCount(view.fullName, ' ');
    JoinSplit(view.fullName, ' ');
    JoinFirst(" ", name);
    if ' ' !in view.fullName {
      SplitNoSeparator(view.fullName, ' ');
    }
  }

  /**
   * PutAsync: -1 for a missing or Deleted student; otherwise the view mapped onto
   * the stored row is saved through the repository and its id answered.
   */
  function PutOutcome(st: TableState<Student>, view: StudentView, mapView: (StudentView, Student) -> Student)
    : (Result<int>, TableState<Student>)
  {
    var data := FindRow(st.rows, StudentId, view.id);
    if data.None? || data.value.status == Deleted then (Ok(-1), st)
    else
      var mapped := mapView(view, data.value).(id := data.value.id);
      var (saved, after) := UpdateOutcome(st, mapped, StudentId, StudentWithId);
      (AfterSave(saved, mapped.id), after)
  }

  /** No stored student with the id, or a Deleted one, answers -1 and changes nothing. */
  lemma PutRefusesMissingOrDeleted(st: TableState<Student>, view: StudentView, mapView: (StudentView, Student) -> Student)
    requires DistinctIds(st.rows, StudentId)
    requires (forall i :: 0 <= i < |st.rows| ==> st.rows[i].id != view.id)
          || (exists i :: 0 <= i < |st.rows| && st.rows[i].id == view.id && st.rows[i].status == Deleted)
    ensures PutOutcome(st, view, mapView) == (Ok(-1), st)
  {
    if exists i :: 0 <= i < |st.rows| && st.rows[i].id == view.id && st.rows[i].status == Deleted {
      var i :| 0 <= i < |st.rows| && st.rows[i].id == view.id && st.rows[i].status == Deleted;
      FindRowUnique(st.rows, StudentId, i);
    } else {
      assert forall i :: 0 <= i < |st.rows| ==> StudentId(st.rows[i]) != view.id;
    }
  }

  /**
   * A live student is overwritten in place by the mapped view, and the answer is its
   * id, not a count. (A stored id of 0 is an unset key to `DbSet.Update`, which
   * inserts instead: see GenericRepository.UpdateUnsetKeyInserts.)
   */
  lemma PutWritesMappedRow(st: TableState<Student>, view: StudentView, mapView: (StudentView, Student) -> Student, k: int)
    requires DistinctIds(st.rows, StudentId) && st.pending == [] && view.id != 0
    requires 0 <= k < |st.rows| && st.rows[k].id == view.id && st.rows[k].status != Deleted
    ensures PutOutcome(st, view, mapView) ==
              (Ok(view.id), TableState(st.rows[k := mapView(view, st.rows[k]).(id := view.id)], [], st.nextId))
  {
    FindRowUnique(st.rows, StudentId, k);
    var mapped := mapView(view, st.rows[k]).(id := view.id);
    assert IndexOf(st.rows, StudentId, view.id) == k;
    UpdateCount(st, mapped, StudentId, StudentWithId);
  }

  /** DeleteAsync: an unknown id is refused; any stored student, Deleted or not, is removed. */
  function DeleteStudentOutcome(st: TableState<Student>, id: int): (Result<int>, TableState<Student>) {
    match FindRow(st.rows, StudentId, id)
    case None => (Err(InvalidOperation(MissingStudentMessage(id))), st)
    case Some(data) => DeleteOutcome(st, data.id, StudentId)
  }

  lemma DeleteRefusesMissing(st: TableState<Student>, id: int)
    requires forall i :: 0 <= i < |st.rows| ==> st.rows[i].id != id
    ensures DeleteStudentOutcome(st, id) == (Err(InvalidOperation(MissingStudentMessage(id))), st)
  {
    assert forall i :: 0 <= i < |st.rows| ==> StudentId(st.rows[i]) != id;
  }

  /** A stored student is removed physically, whatever its status, and only that row. */
  lemma DeleteRemovesRow(st: TableState<Student>, k: int)
    requires DistinctIds(st.rows, StudentId) && st.pending == [] && 0 <= k < |st.rows|
    ensures var (r, after) := DeleteStudentOutcome(st, st.rows[k].id);
      r == Ok(1) && after.pending == [] && |after.rows| == |st.rows| - 1
      && (forall x :: x in after.rows ==> x in st.rows && x.id != st.rows[k].id)
      && (forall x :: x in st.rows && x.id != st.rows[k].id ==> x in after.rows)
  {
    var id := st.rows[k].id;
    FindRowUnique(st.rows, StudentId, k);
    DeletePresent(st, id, StudentId);
  }

  class StudentService {
    /** `_context.Students`, which the repository also works on. */
    const students: Table<Student>
    /** `_context.School`, read by `SchoolRepository`. */
    const schools: Table<School>
    const studentRepository: GenericRepository<Student>
    /** `_mapper.Map(student, data)`: a view mapped onto a stored student. */
    const mapView: (StudentView, Student) -> Student

    ghost predicate Valid()
      reads this, students
    {
      studentRepository.table == students && students.Valid() && students.idOf == StudentId
      && students.withId == StudentWithId
    }

    constructor (students: Table<Student>, schools: Table<School>, mapView: (StudentView, Student) -> Student)
      requires students.Valid() && students.idOf == StudentId && students.withId == StudentWithId
      ensures Valid() && this.students == students && this.schools == schools && this.mapView == mapView
      ensures fresh(studentRepository) && studentRepository.calls == []
    {
      this.students := students;
      this.schools := schools;
      this.mapView := mapView;
      studentRepository := new GenericRepository(students);
    }

    /** GetStudentsAsync: the repository's GetAllAsync with `School` as the include. */
    method GetStudentsAsync(studentId: Option<int>) returns (r: seq<Student>)
      requires Valid()
      modifies studentRepository`calls
      ensures r == GetAll(students.rows, StudentId, studentId)
    {
      r := studentRepository.GetAllAsync(studentId, Some("School"));
    }

    method GetStudents(schoolId: Option<int>, sortBy: Option<string>, isDescending: bool,
                       pageSize: Option<int>, pageIndex: Option<int>) returns (r: StudentPage)
      ensures r == StudentsPage(students.rows, schoolId, sortBy, isDescending, pageSize, pageIndex)
    {
      if PagingRejected(pageSize, pageIndex) {
        return StudentPage(Rows([]), 0);
      }
      var query := Where(students.rows, NotDeleted());
      if schoolId.Some? {
        query := Where(query, InSchool(schoolId.value));
        WhereWhere(students.rows, NotDeleted(), InSchool(schoolId.value), NotDeletedInSchool(schoolId));
      } else {
        WhereSame(students.rows, NotDeleted(), NotDeletedInSchool(None));
      }
      var sortSelectors := ParseSortBy(sortBy);
      var index, size := pageIndex, pageSize;
      if size.Some? && index.None? {
        index := Some(1);
      }
      if index.Some? && size.None? {
        size := Some(5);
      }
      var plan := Paged(Sorted(Rows(query), isDescending, sortSelectors), index, size);
      var totalPage: int;
      if size.None? {
        totalPage := 1;
      } else {
        totalPage := TotalPages(|students.rows|, size.value);
      }
      r := StudentPage(plan, totalPage);
    }

    method SearchStudents(searchTerm: string) returns (r: Plan)
      ensures r == SearchPlan(students.rows, searchTerm)
    {
      var tokens := SplitRemoveEmpty(searchTerm, ' ');
      var query := Rows(VisibleStudents(students.rows, None));
      if |tokens| > 1 {
        query := RelatedSearched(query, searchTerm);
      } else if |tokens| == 1 {
        query := Searched(query, searchTerm);
      } else {
        return Rows([]);
      }
      r := query;
    }

    /** PostAsync up to the record it builds; the write that follows is not part of this model. */
    method PostAsync(student: StudentView) returns (r: Result<Student>)
      requires Valid()
      modifies studentRepository`calls
      ensures r == PostData(students.rows, schools.rows, student)
    {
      var dupId := studentRepository.GetByIdAsync(student.id);
      if dupId.Some? {
        return Err(InvalidOperation(DuplicateIdMessage(student.id)));
      }
      var name := Split(student.fullName, ' ');
      var school := SchoolRepository.GetSchoolByNameAsync(schools.rows, student.schoolName);
      if school.None? {
        return Err(InvalidOperation(UnknownSchoolMessage(student.schoolName)));
      }
      var data := Student(student.id, name[0], Join(" ", name[1..]), 0, 0, school.value.id, Active);
      r := Ok(data);
    }

    /** The school lookup is not awaited, so the null check after it never refuses. */
    method PutAsync(student: StudentView) returns (r: Result<int>)
      requires Valid()
      modifies students, studentRepository`calls
      ensures Valid()
      ensures (r, students.State()) == PutOutcome(old(students.State()), student, mapView)
    {
      var data := students.Find(student.id);
      if data.None? || data.value.status == Deleted {
        return Ok(-1);
      }
      var mapped := mapView(student, data.value).(id := data.value.id);
      var saved := studentRepository.UpdateAsync(mapped);
      r := AfterSave(saved, mapped.id);
    }

    method DeleteAsync(studentId: int) returns (r: Result<int>)
      requires Valid()
      modifies students, studentRepository`calls
      ensures Valid()
      ensures (r, students.State()) == DeleteStudentOutcome(old(students.State()), studentId)
    {
      var data := studentRepository.GetByIdAsync(studentId);
      if data.None? {
        return Err(InvalidOperation(MissingStudentMessage(studentId)));
      }
      r := studentRepository.DeleteAsync(data.value.id);
    }
  }
}
