/**
 * `TestableCodeExamples`: the course-creation validator with its ordered,
 * short-circuit checks, the course-name check, the storage path lookup and the
 * enrolment rule. The clock, the file system, the environment, the HTTP client
 * and the random source are injected services; here they are the `Oracles` value
 * the class is built with.
 */
module TestableCodeExamples {
  import opened Wrappers
  import opened Text
  import opened Entities
  import opened Store
  import opened GenericRepository
  import opened CourseRepository

  /** The injected services, as the answers they give. */
  datatype Oracles = Oracles(
    now: int,                              // IDateTimeProvider.Now, as a tick count
    currentDirectory: string,              // IEnvironmentService.CurrentDirectory
    combine: (string, string) -> string,   // IFileService.Combine
    fileExists: string -> bool,               // IFileService.Exists
    variable: string -> Option<string>,    // IEnvironmentService.GetEnvironmentVariable
    responseOk: string -> bool,            // IHttpService.GetResponseAsync(url).IsSuccessStatusCode
    next: (int, int) -> int)               // IRandomService.Next

  /** A service the validator consults, in the order it consults them. */
  datatype Oracle = Clock | Repository | ConfigFile

  /** What the enrolment rule writes to the logger or the console. */
  datatype Output =
    | LogInformation(message: string)
    | LogToFile(message: string, path: string)
    | WriteLine(line: string)

  const BlankNameError := "Course name cannot be empty"
  const PastStartError := "Course start date must be in the future"
  const MissingConfigError := "Course configuration file not found"
  const DefaultStoragePath := "C:\\DefaultPath"

  function DuplicateNameError(name: string): string {
    "Course with name '" + name + "' already exists"
  }

  /**
   * ValidateCourseCreationAsync: the errors collected, or the exception the name
   * lookup raised. Each failing check adds its error and returns, so later checks
   * do not run.
   */
  function CreationErrors(name: string, startDate: int, now: int, byName: Result<Option<Course>>, configExists: bool)
    : (r: Result<seq<string>>)
    ensures r.Ok? ==> |r.value| <= 1
    ensures r.Err? ==> byName.Err? && r.error == byName.error
  {
    if IsNullOrWhiteSpace(Some(name)) then Ok([BlankNameError])
    else if startDate <= now then Ok([PastStartError])
    else if byName.Err? then Err(byName.error)
    else if byName.value.Some? then Ok([DuplicateNameError(name)])
    else if !configExists then Ok([MissingConfigError])
    else Ok([])
  }

  /** The services ValidateCourseCreationAsync consults before it returns. */
  function Consulted(name: string, startDate: int, now: int, byName: Result<Option<Course>>): seq<Oracle> {
    if IsNullOrWhiteSpace(Some(name)) then []
    else if startDate <= now then [Clock]
    else if byName.Err? || byName.value.Some? then [Clock, Repository]
    else [Clock, Repository, ConfigFile]
  }

  /** A blank name is refused before any service is asked, whatever they would answer. */
  lemma BlankNameFirst(name: string, startDate: int, now: int, byName: Result<Option<Course>>, configExists: bool,
                       startDate': int, now': int, byName': Result<Option<Course>>, configExists': bool)
    requires forall i :: 0 <= i < |name| ==> IsWhiteSpace(name[i])
    ensures CreationErrors(name, startDate, now, byName, configExists) == Ok([BlankNameError])
    ensures CreationErrors(name, startDate, now, byName, configExists)
         == CreationErrors(name, startDate', now', byName', configExists')
    ensures Consulted(name, startDate, now, byName) == []
  {
  }

  /** A start date not after now is refused before the repository or the file is asked. */
  lemma PastStartSecond(name: string, startDate: int, now: int, byName: Result<Option<Course>>, configExists: bool,
                        byName': Result<Option<Course>>, configExists': bool)
    requires !IsNullOrWhiteSpace(Some(name)) && startDate <= now
    ensures CreationErrors(name, startDate, now, byName, configExists) == Ok([PastStartError])
    ensures CreationErrors(name, startDate, now, byName, configExists)
         == CreationErrors(name, startDate, now, byName', configExists')
    ensures Repository !in Consulted(name, startDate, now, byName)
  {
  }

  /** A taken name is refused with its own text before the configuration file is asked. */
  lemma DuplicateThird(name: string, startDate: int, now: int, existing: Course, configExists: bool)
    requires !IsNullOrWhiteSpace(Some(name)) && startDate > now
    ensures CreationErrors(name, startDate, now, Ok(Some(existing)), configExists)
         == Ok(["Course with name '" + name + "' already exists"])
    ensures ConfigFile !in Consulted(name, startDate, now, Ok(Some(existing)))
  {
  }

  /** The repository is queried exactly when the name is not blank and the date is in the future. */
  lemma RepositoryQueriedIff(name: string, startDate: int, now: int, byName: Result<Option<Course>>)
    ensures Repository in Consulted(name, startDate, now, byName) <==> !IsNullOrWhiteSpace(Some(name)) && startDate > now
  {
  }

  /** No error at all exactly when every check passes. */
  lemma NoErrorsIff(name: string, startDate: int, now: int, byName: Result<Option<Course>>, configExists: bool)
    ensures CreationErrors(name, startDate, now, byName, configExists) == Ok([]) <==>
              !IsNullOrWhiteSpace(Some(name)) && startDate > now && byName == Ok(None) && configExists
  {
  }

  /** ValidateCourseName: at least four UTF-16 code units and the validation file present. */
  function CourseNameValid(courseName: Option<string>, o: Oracles): (r: bool)
    ensures r ==> courseName.Some? && Utf16Length(courseName.value) >= 4
  {
    !IsNullOrEmpty(courseName) && Utf16Length(courseName.value) > 3
    && o.fileExists(o.combine(o.currentDirectory, "validation.txt"))
  }

  /** The empty-name test is subsumed by the length test. */
  lemma CourseNameValidIff(courseName: string, o: Oracles)
    ensures CourseNameValid(Some(courseName), o) <==>
              Utf16Length(courseName) > 3 && o.fileExists(o.combine(o.currentDirectory, "validation.txt"))
  {
  }

  /** Two characters outside the Basic Multilingual Plane are four code units, long enough. */
  lemma TwoAstralCharactersLongEnough(o: Oracles)
    ensures var name := [0x1F600 as char, 0x1F600 as char];
      CourseNameValid(Some(name), o) <==> o.fileExists(o.combine(o.currentDirectory, "validation.txt"))
  {
    var name := [0x1F600 as char, 0x1F600 as char];
    assert name[1..] == [0x1F600 as char];
    assert Utf16Length(name) == 4;
  }

  /** A name of ideographic spaces (U+3000) is blank, so it is refused first. */
  lemma IdeographicSpaceIsBlank(startDate: int, now: int, byName: Result<Option<Course>>, configExists: bool)
    ensures CreationErrors([0x3000 as char], startDate, now, byName, configExists) == Ok([BlankNameError])
    ensures Consulted([0x3000 as char], startDate, now, byName) == []
  {
  }

  lemma ShortNamesInvalid(o: Oracles)
    ensures !CourseNameValid(Some(""), o) && !CourseNameValid(Some("ab"), o) && !CourseNameValid(Some("abc"), o)
    ensures !CourseNameValid(None, o)
  {
  }

  /** GetCourseStoragePath: the variable when it is set and not empty, else the default path. */
  function StoragePath(o: Oracles): (r: string)
    ensures r != ""
    ensures IsNullOrEmpty(o.variable("COURSE_STORAGE_PATH")) ==> r == DefaultStoragePath
    ensures !IsNullOrEmpty(o.variable("COURSE_STORAGE_PATH")) ==> Some(r) == o.variable("COURSE_STORAGE_PATH")
  {
    var basePath := o.variable("COURSE_STORAGE_PATH");
    if !IsNullOrEmpty(basePath) then basePath.value else DefaultStoragePath
  }

  function StudentUrl(studentId: int): string {
    "https://api.example.com/students/" + IntToString(studentId)
  }

  /** EnrollStudentInCourseAsync: whether the student was enrolled, and the one line it writes. */
  function Enrollment(courses: seq<Course>, studentId: int, courseId: int, o: Oracles): (bool, Output) {
    if FindRow(courses, CourseId, courseId).None? then
      (false, LogInformation("Course " + IntToString(courseId) + " not found"))
    else if !o.responseOk(StudentUrl(studentId)) then
      (false, LogToFile("Student " + IntToString(studentId) + " not found", "enrollment_errors.txt"))
    else
      var number := o.next(100000, 999999);
      (true, WriteLine("Student " + IntToString(studentId) + " enrolled in course " + IntToString(courseId)
                       + " with number " + IntToString(number)))
  }

  /** Enrolled exactly when the course is stored and the student lookup succeeds. */
  lemma EnrolledIff(courses: seq<Course>, studentId: int, courseId: int, o: Oracles)
    ensures Enrollment(courses, studentId, courseId, o).0 <==>
              (exists i :: 0 <= i < |courses| && courses[i].id == courseId) && o.responseOk(StudentUrl(studentId))
  {
    if exists i :: 0 <= i < |courses| && courses[i].id == courseId {
      var i :| 0 <= i < |courses| && courses[i].id == courseId;
      assert CourseId(courses[i]) == courseId;
    }
  }

  /** `ValidationResult`: a flag and the list of errors. */
  class ValidationResult {
    var isValid: bool
    var errors: seq<string>

    constructor ()
      ensures !isValid && errors == []
    {
      isValid := false;
      errors := [];
    }

    method AddError(error: string)
      modifies this
      ensures errors == old(errors) + [error] && !isValid
    {
      errors := errors + [error];
      isValid := false;
    }
  }

  class TestableCodeExamples {
    const courseRepository: CourseRepository
    const oracles: Oracles
    /** The services asked so far, in order. */
    ghost var consulted: seq<Oracle>
    /** What the logger and the console received so far. */
    var output: seq<Output>

    ghost predicate Valid()
      reads this, courseRepository, courseRepository.generic, courseRepository.generic.table
    {
      courseRepository.generic.Valid() && courseRepository.generic.table.idOf == CourseId
    }

    constructor (courseRepository: CourseRepository, oracles: Oracles)
      ensures this.courseRepository == courseRepository && this.oracles == oracles
      ensures consulted == [] && output == []
    {
      this.courseRepository := courseRepository;
      this.oracles := oracles;
      consulted := [];
      output := [];
    }

    method ValidateCourseCreationAsync(courseName: string, startDate: int) returns (r: Result<ValidationResult>)
      modifies this`consulted
      ensures var expected := CreationErrors(courseName, startDate, oracles.now,
                                             CourseByName(courseRepository.generic.table.rows, courseName),
                                             oracles.fileExists(oracles.combine(oracles.currentDirectory, "course_config.json")));
        (r.Ok? <==> expected.Ok?)
        && (r.Ok? ==> fresh(r.value) && r.value.errors == expected.value && (r.value.isValid <==> r.value.errors == []))
        && (r.Err? ==> r.error == expected.error)
      ensures consulted == old(consulted) + Consulted(courseName, startDate, oracles.now,
                                                      CourseByName(courseRepository.generic.table.rows, courseName))
    {
      var result := new ValidationResult();
      if IsNullOrWhiteSpace(Some(courseName)) {
        result.AddError(BlankNameError);
        return Ok(result);
      }
      consulted := consulted + [Clock];
      if startDate <= oracles.now {
        result.AddError(PastStartError);
        return Ok(result);
      }
      consulted := consulted + [Repository];
      var existingCourse := courseRepository.GetCourseByNameAsync(courseName);
      if existingCourse.Err? {
        return Err(existingCourse.error);
      }
      if existingCourse.value.Some? {
        result.AddError(DuplicateNameError(courseName));
        return Ok(result);
      }
      consulted := consulted + [ConfigFile];
      var configPath := oracles.combine(oracles.currentDirectory, "course_config.json");
      if !oracles.fileExists(configPath) {
        result.AddError(MissingConfigError);
        return Ok(result);
      }
      result.isValid := true;
      r := Ok(result);
    }

    method EnrollStudentInCourseAsync(studentId: int, courseId: int) returns (r: bool)
      requires Valid()
      modifies this`output, courseRepository.generic`calls
      ensures (r, output) == (Enrollment(courseRepository.generic.table.rows, studentId, courseId, oracles).0,
                              old(output) + [Enrollment(courseRepository.generic.table.rows, studentId, courseId, oracles).1])
    {
      var course := courseRepository.generic.GetByIdAsync(courseId);
      if course.None? {
        output := output + [LogInformation("Course " + IntToString(courseId) + " not found")];
        return false;
      }
      var studentResponse := oracles.responseOk(StudentUrl(studentId));
      if !studentResponse {
        output := output + [LogToFile("Student " + IntToString(studentId) + " not found", "enrollment_errors.txt")];
        return false;
      }
      var enrollmentNumber := oracles.next(100000, 999999);
      output := output + [WriteLine("Student " + IntToString(studentId) + " enrolled in course " + IntToString(courseId)
                                    + " with number " + IntToString(enrollmentNumber))];
      r := true;
    }
  }
}
