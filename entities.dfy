/** The persisted entities, their soft-delete status, and the view models the services accept. */
module Entities {

  /** `Constants.Enums.Status`: the lifecycle of a soft-deletable record. */
  datatype Status = Active | NotStarted | InProgress | Finished | Canceled | Unverified | Deleted

  /** The entity types the unit of work hands out repositories for. */
  datatype EntityType =
    | ToDoType | StudentType | CourseType | CourseStudentType | SchoolType | GradeType
    | QuestionType | ExamType | ExamQuestionType | ExamSubmissionType
    | ExamSubmissionDetailType | UserType | RefreshTokenType | AuditLogType

  function TypeName(t: EntityType): string {
    match t
    case ToDoType => "ToDo"
    case StudentType => "Student"
    case CourseType => "Course"
    case CourseStudentType => "CourseStudent"
    case SchoolType => "School"
    case GradeType => "Grade"
    case QuestionType => "Question"
    case ExamType => "Exam"
    case ExamQuestionType => "ExamQuestion"
    case ExamSubmissionType => "ExamSubmission"
    case ExamSubmissionDetailType => "ExamSubmissionDetail"
    case UserType => "User"
    case RefreshTokenType => "RefreshToken"
    case AuditLogType => "AuditLog"
  }

  /** `typeof(T).FullName`: the entity classes live in `TodoWeb.Domains.Entities`. */
  function FullName(t: EntityType): (s: string)
    ensures |s| > 0 && s[0] == 'T'
  {
    "TodoWeb.Domains.Entities." + TypeName(t)
  }

  /**
   * A student; `schoolId` is the foreign key `SId`. A read of `School.Id` through a
   * loaded navigation gives the same value; a write to it changes the school's key.
   */
  datatype Student = Student(
    id: int, firstName: string, lastName: string, age: int, balance: int,
    schoolId: int, status: Status)

  datatype School = School(id: int, name: string, address: string, status: Status)

  /** `startDate` is a `DateTime`, kept as a tick count. */
  datatype Course = Course(id: int, name: string, startDate: int, status: Status)

  datatype ToDo = ToDo(id: int, description: string, isCompleted: bool)

  function StudentId(s: Student): int { s.id }
  function StudentWithId(s: Student, id: int): Student { s.(id := id) }
  function SchoolId(s: School): int { s.id }
  function SchoolWithId(s: School, id: int): School { s.(id := id) }
  function CourseId(c: Course): int { c.id }
  function CourseWithId(c: Course, id: int): Course { c.(id := id) }
  function ToDoId(t: ToDo): int { t.id }
  function ToDoWithId(t: ToDo, id: int): ToDo { t.(id := id) }

  /** The query predicate `course => course.Name == name`. */
  function CourseNamed(name: string): Course -> bool {
    (c: Course) => c.name == name
  }

  /** `StudentViewModel`, the fields the services read. */
  datatype StudentView = StudentView(id: int, fullName: string, schoolName: string)

  /** `StudentCreateViewModel`, the field the services read. */
  datatype StudentCreate = StudentCreate(schoolId: int, firstName: string, lastName: string, balance: int)

  /** `SchoolViewModel`. */
  datatype SchoolView = SchoolView(id: int, name: string, address: string)

  /** `CourseViewModel` and `PostCourseViewModel`. */
  datatype CourseView = CourseView(courseId: int, courseName: string, startDate: int)

  /** `ToDoViewModel`. */
  datatype ToDoView = ToDoView(description: string)
}
