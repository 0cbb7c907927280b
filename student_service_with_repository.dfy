/**
 * `StudentServiceWithRepository`: student operations through the unit of work,
 * with the all-students list cached under "StudentKey". `_mapper.Map` is the pair
 * of mapping functions the service is built with.
 */
module StudentServiceWithRepository {
  import opened Wrappers
  import opened Text
  import opened Entities
  import opened Store
  import opened Caching
  import opened UnitOfWork
  import StudentQuery
  import SchoolRepository

  const StudentKey := "StudentKey"
  const SchoolMissing := "School not found or has been deleted"

  /** What the service did, in order, including its cache removals. */
  datatype Step =
    | QueryStep
    | BeginStep
    | UpdateStep(student: Student)
    | SaveStep(saved: Result<int>)
    | CommitStep
    | RollbackStep
    | EvictStep(key: string)

  /** The school-id check: an existing school that is not Deleted. */
  function ActiveSchool(s: ContextState, schoolId: int): Option<School> {
    FirstWhere(s.schools.rows, SchoolRepository.NotDeletedWithId(Some(schoolId)))
  }

  /** The student stored under `id` if it exists and is not Deleted. */
  function LiveStudent(s: ContextState, id: int): Option<Student> {
    match FindRow(s.students.rows, StudentId, id)
    case None => None
    case Some(st) => if st.status == Deleted then None else Some(st)
  }

  /**
   * `PostStudentAsync`: an unknown or Deleted school throws before anything is
   * staged; otherwise the mapped student (no id yet) is added as Unverified.
   */
  function PostStudentOutcome(s: ContextState, schoolId: int, mapped: Student): (Result<int>, ContextState) {
    if ActiveSchool(s, schoolId).None? then (Err(Argument(SchoolMissing)), s)
    else
      var (added, students) := StageAdd(s.students, mapped.(id := 0, status := Unverified), StudentId, StudentWithId);
      var (saved, after) := SaveAll(s.(students := students));
      (AfterSave(saved, added.id), after)
  }

  /**
   * `UpdateStudentAsync`: false for a missing or Deleted student; the school is
   * checked only when the requested school id differs from the current one.
   */
  function UpdateStudentOutcome(s: ContextState, id: int, vm: StudentCreate,
                                mapOnto: (StudentCreate, Student) -> Student): (Result<bool>, ContextState)
  {
    match LiveStudent(s, id)
    case None => (Ok(false), s)
    case Some(e) =>
      if vm.schoolId != e.schoolId && ActiveSchool(s, vm.schoolId).None? then (Err(Argument(SchoolMissing)), s)
      else
        var (saved, after) := SaveAll(s.(students := Stage(s.students, Modified(Remapped(vm, e, mapOnto)))));
        (AfterSave(saved, true), after)
  }

  /** `_mapper.Map(vm, existing)` on the tracked entity: the view model has no id, so the id stays. */
  function Remapped(vm: StudentCreate, e: Student, mapOnto: (StudentCreate, Student) -> Student): Student {
    mapOnto(vm, e).(id := e.id)
  }

  /** `SoftDeleteStudentAsync`: false for a missing or Deleted student, otherwise mark it Deleted. */
  function SoftDeleteOutcome(s: ContextState, id: int): (Result<bool>, ContextState) {
    match LiveStudent(s, id)
    case None => (Ok(false), s)
    case Some(e) =>
      var (saved, after) := SaveAll(s.(students := Stage(s.students, Modified(e.(status := Deleted)))));
      (AfterSave(saved, true), after)
  }

  /**
   * The student moved to the new school, when both exist and neither is Deleted:
   * the transfer as intended, with the student's own school id set.
   */
  function MovedStudent(s: ContextState, studentId: int, newSchoolId: int): Option<Student> {
    match LiveStudent(s, studentId)
    case None => None
    case Some(st) =>
      match FindRow(s.schools.rows, SchoolId, newSchoolId)
      case None => None
      case Some(sc) => if sc.status == Deleted then None else Some(st.(schoolId := newSchoolId))
  }

  /** The context state a transfer saves: the moved student staged as modified. */
  function TransferStaged(s: ContextState, moved: Student): ContextState {
    s.(students := Stage(s.students, Modified(moved)))
  }

  /** What a run of a transfer answers, leaves in the context, and does, in order. */
  datatype TransferRun = TransferRun(
    result: Result<bool>, after: ContextState, steps: seq<Step>, events: seq<UowEvent>)

  /**
   * The tail of a transfer once both checks pass: Update and Save, then Commit and
   * clear "StudentKey", or Rollback and rethrow. A failed save leaves the state it
   * was given, whose rows are the ones the rollback restores.
   */
  function MoveRun(s: ContextState, moved: Student): TransferRun {
    var out := SaveAll(TransferStaged(s, moved));
    if out.0.Ok? then
      TransferRun(Ok(true), out.1, [UpdateStep(moved), SaveStep(out.0), CommitStep, EvictStep(StudentKey)],
                  [Saved(out.0), UowEvent.Committed])
    else
      TransferRun(Err(out.0.error), out.1, [UpdateStep(moved), SaveStep(out.0), RollbackStep],
                  [Saved(out.0), UowEvent.RolledBack])
  }

  /** Everything a transfer does after Begin: an early false, or the tail. */
  function AfterBegin(s: ContextState, studentId: int, newSchoolId: int): TransferRun {
    match MovedStudent(s, studentId, newSchoolId)
    case None => TransferRun(Ok(false), s, [], [])
    case Some(moved) => MoveRun(s, moved)
  }

  /** `TransferStudentToNewSchoolAsync`: Begin, then the rest. */
  function Transfer(s: ContextState, studentId: int, newSchoolId: int): TransferRun {
    var t := AfterBegin(s, studentId, newSchoolId);
    t.(steps := [BeginStep] + t.steps, events := [Began] + t.events)
  }

  /** The stored rows of a context state, as a transaction sees them at its start. */
  function RowsOf(s: ContextState): Snapshot {
    Snapshot(s.students.rows, s.schools.rows, s.todos.rows)
  }

  /** A rollback to `snap`: the stored rows are put back, the pending changes stay tracked. */
  function RolledBackTo(s: ContextState, snap: Snapshot): ContextState {
    s.(students := s.students.(rows := snap.students), schools := s.schools.(rows := snap.schools),
       todos := s.todos.(rows := snap.todos))
  }

  /**
   * `TransferStudentToNewSchoolAsync` on a unit of work whose slot may still hold an
   * open transaction, given by the rows it saw at its start. With one there, Begin
   * throws inside the try, and the catch rolls back that earlier transaction and
   * rethrows.
   */
  function TransferWithSlot(s: ContextState, slot: Option<Snapshot>, studentId: int, newSchoolId: int): TransferRun {
    match slot
    case None => Transfer(s, studentId, newSchoolId)
    case Some(snap) =>
      TransferRun(Err(InvalidOperation(TransactionAlreadyStarted)), RolledBackTo(s, snap),
                  [BeginStep, RollbackStep], [UowEvent.RolledBack])
  }

  /**
   * `UpdateStudentAsync` with line 89 as written: `existingStudent.School.Id` reads
   * through a navigation that `GetByIdAsync` does not load, so for a live student
   * the read throws before the school check unless the navigation is loaded.
   */
  function UpdateStudentAsWritten(s: ContextState, id: int, vm: StudentCreate,
                                  mapOnto: (StudentCreate, Student) -> Student, loaded: bool): (r: (Result<bool>, ContextState))
    ensures r.0 == Ok(true) ==> loaded
  {
    match LiveStudent(s, id)
    case None => (Ok(false), s)
    case Some(_) => if !loaded then (Err(NullReference), s) else UpdateStudentOutcome(s, id, vm, mapOnto)
  }

  /**
   * `TransferStudentToNewSchoolAsync` with line 175 as written: `student.School.Id =
   * newSchoolId` writes the key of the School the student refers to, and leaves the
   * student's own school id alone. When the navigation was not loaded the read
   * throws at once. When it was loaded and the id changes, the save refuses the
   * changed key. Either way the catch rolls back and rethrows. Only an unchanged
   * school id gets through, and then nothing moves.
   */
  function TransferAsWritten(s: ContextState, studentId: int, newSchoolId: int, loaded: bool): (run: TransferRun)
    ensures CommitStep in run.steps ==>
              LiveStudent(s, studentId).Some? && LiveStudent(s, studentId).value.schoolId == newSchoolId
  {
    var t := match MovedStudent(s, studentId, newSchoolId)
      case None => TransferRun(Ok(false), s, [], [])
      case Some(_) =>
        var st := LiveStudent(s, studentId).value;
        if !loaded then TransferRun(Err(NullReference), s, [RollbackStep], [UowEvent.RolledBack])
        else if st.schoolId == newSchoolId then MoveRun(s, st)
        else
          var refused: Result<int> := Err(KeyModified("School"));
          TransferRun(Err(refused.error), TransferStaged(s, st), [UpdateStep(st), SaveStep(refused), RollbackStep],
                      [Saved(refused), UowEvent.RolledBack]);
    t.(steps := [BeginStep] + t.steps, events := [Began] + t.events)
  }

  /** The `SearchStudentsAsync` filter: not Deleted, and the term in a name or the school's name. */
  function MatchesTerm(schools: seq<School>, term: string): Student -> bool {
    (s: Student) =>
      s.status != Deleted
      && (Contains(s.firstName, term) || Contains(s.lastName, term)
          || (FindRow(schools, SchoolId, s.schoolId).Some? && Contains(FindRow(schools, SchoolId, s.schoolId).value.name, term)))
  }

  function NotDeleted(): Student -> bool {
    (s: Student) => s.status != Deleted
  }

  /** The search: every non-deleted student for a blank term, the matching ones otherwise. */
  function Search(students: seq<Student>, schools: seq<School>, term: Option<string>): (r: seq<Student>)
    ensures forall x :: x in r ==> x in students && x.status != Deleted
    ensures IsNullOrWhiteSpace(term) ==> forall x :: x in students && x.status != Deleted ==> x in r
    ensures !IsNullOrWhiteSpace(term) ==> forall x :: x in r ==> MatchesTerm(schools, term.value)(x)
    ensures !IsNullOrWhiteSpace(term) ==> forall x :: x in students && MatchesTerm(schools, term.value)(x) ==> x in r
  {
    if IsNullOrWhiteSpace(term) then Where(students, NotDeleted()) else Where(students, MatchesTerm(schools, term.value))
  }

  /**
   * With a transaction still in the slot the transfer throws at Begin. The catch
   * rolls the earlier transaction back: the rows it saw are restored, pending
   * changes stay, nothing is updated or committed, and the cache is kept.
   */
  lemma TransferInOpenTransactionThrows(s: ContextState, snap: Snapshot, studentId: int, newSchoolId: int)
    ensures var run := TransferWithSlot(s, Some(snap), studentId, newSchoolId);
      run.result == Err(InvalidOperation(TransactionAlreadyStarted))
      && RowsOf(run.after) == snap
      && run.after.students.pending == s.students.pending && run.after.schools.pending == s.schools.pending
      && run.after.todos.pending == s.todos.pending
      && CommitStep !in run.steps && EvictStep(StudentKey) !in run.steps
      && (forall st :: UpdateStep(st) !in run.steps)
      && run.events == [UowEvent.RolledBack]
  {
  }

  /**
   * An early false leaves its transaction open, so the next transfer on the same
   * unit of work throws whatever it is asked, and its rollback returns the context
   * to where the first transfer began.
   */
  lemma {:induction false} SecondTransferAfterEarlyExit(s: ContextState, studentId: int, newSchoolId: int,
                                                        nextStudentId: int, nextSchoolId: int)
    requires MovedStudent(s, studentId, newSchoolId).None?
    ensures Transfer(s, studentId, newSchoolId).result == Ok(false)
    ensures var first := Transfer(s, studentId, newSchoolId);
      TransferWithSlot(first.after, Some(RowsOf(s)), nextStudentId, nextSchoolId)
        == TransferRun(Err(InvalidOperation(TransactionAlreadyStarted)), s, [BeginStep, RollbackStep], [UowEvent.RolledBack])
  {
    TransferEarlyExitOnlyBegins(s, studentId, newSchoolId);
    assert RolledBackTo(s, RowsOf(s)) == s;
  }

  /**
   * As written, updating a live student whose School navigation was not loaded
   * throws and changes nothing, even when the school id is kept; loaded, it is the
   * intended update.
   */
  lemma UpdateAsWrittenThrowsUnloaded(s: ContextState, id: int, vm: StudentCreate,
                                      mapOnto: (StudentCreate, Student) -> Student, loaded: bool)
    requires LiveStudent(s, id).Some?
    ensures !loaded ==> UpdateStudentAsWritten(s, id, vm, mapOnto, loaded) == (Err(NullReference), s)
    ensures loaded ==> UpdateStudentAsWritten(s, id, vm, mapOnto, loaded) == UpdateStudentOutcome(s, id, vm, mapOnto)
  {
  }

  /** A student unknown or Deleted is never posted against, updated or soft-deleted twice. */
  lemma RejectionsChangeNothing(s: ContextState, id: int, vm: StudentCreate,
                                mapOnto: (StudentCreate, Student) -> Student, mapped: Student)
    ensures ActiveSchool(s, mapped.schoolId).None? ==>
              PostStudentOutcome(s, mapped.schoolId, mapped) == (Err(Argument(SchoolMissing)), s)
    ensures LiveStudent(s, id).None? ==> UpdateStudentOutcome(s, id, vm, mapOnto) == (Ok(false), s)
    ensures LiveStudent(s, id).None? ==> SoftDeleteOutcome(s, id) == (Ok(false), s)
  {
  }

  /**
   * On a clean context with a usable school and an unused next id, posting stores
   * one new Unverified student under that id and answers it.
   */
  lemma PostStoresUnverified(s: ContextState, schoolId: int, mapped: Student)
    requires Clean(s) && ActiveSchool(s, schoolId).Some?
    requires FindRow(s.students.rows, StudentId, s.students.nextId).None?
    ensures PostStudentOutcome(s, schoolId, mapped).0 == Ok(s.students.nextId)
    ensures var after := PostStudentOutcome(s, schoolId, mapped).1;
      after.students.rows == s.students.rows + [mapped.(id := s.students.nextId, status := Unverified)]
      && after.schools == s.schools && after.todos == s.todos
  {
    var (added, students) := StageAdd(s.students, mapped.(id := 0, status := Unverified), StudentId, StudentWithId);
    assert added == mapped.(id := s.students.nextId, status := Unverified);
    SaveStudentChange(s.(students := students), Added(added));
  }

  /**
   * Keeping the current school id skips the school check: the update goes through
   * even when that school is missing or Deleted.
   */
  lemma UpdateKeepingSchoolSkipsCheck(s: ContextState, id: int, vm: StudentCreate,
                                      mapOnto: (StudentCreate, Student) -> Student)
    requires Clean(s) && LiveStudent(s, id).Some? && vm.schoolId == LiveStudent(s, id).value.schoolId
    ensures UpdateStudentOutcome(s, id, vm, mapOnto).0 == Ok(true)
    ensures var k := IndexOf(s.students.rows, StudentId, id);
      UpdateStudentOutcome(s, id, vm, mapOnto).1.students.rows
        == s.students.rows[k := Remapped(vm, s.students.rows[k], mapOnto)]
  {
    var e := LiveStudent(s, id).value;
    var c := Modified(Remapped(vm, e, mapOnto));
    SaveStudentChange(s.(students := Stage(s.students, c)), c);
  }

  /** Moving a live student to a school that is missing or Deleted throws and stages nothing. */
  lemma UpdateToUnknownSchoolThrows(s: ContextState, id: int, vm: StudentCreate,
                                    mapOnto: (StudentCreate, Student) -> Student)
    requires LiveStudent(s, id).Some? && vm.schoolId != LiveStudent(s, id).value.schoolId
    requires ActiveSchool(s, vm.schoolId).None?
    ensures UpdateStudentOutcome(s, id, vm, mapOnto) == (Err(Argument(SchoolMissing)), s)
  {
  }

  /** Soft delete keeps the row and marks it Deleted; a second soft delete answers false. */
  lemma SoftDeleteMarksDeleted(s: ContextState, id: int)
    requires Clean(s) && LiveStudent(s, id).Some?
    ensures SoftDeleteOutcome(s, id).0 == Ok(true)
    ensures var k := IndexOf(s.students.rows, StudentId, id);
      SoftDeleteOutcome(s, id).1.students.rows == s.students.rows[k := s.students.rows[k].(status := Deleted)]
    ensures var s1 := SoftDeleteOutcome(s, id).1;
      SoftDeleteOutcome(s1, id) == (Ok(false), s1)
  {
    var rows := s.students.rows;
    var k := IndexOf(rows, StudentId, id);
    var gone := rows[k].(status := Deleted);
    SaveStudentChange(s.(students := Stage(s.students, Modified(gone))), Modified(gone));
    var s1 := SoftDeleteOutcome(s, id).1;
    assert s1.students.rows == rows[k := gone];
    IndexOfUpdate(rows, StudentId, id, gone);
    assert FindRow(s1.students.rows, StudentId, id) == Some(gone);
  }

  /** The early false returns take no step after Begin: no update, no commit, no rollback. */
  lemma TransferEarlyExitOnlyBegins(s: ContextState, studentId: int, newSchoolId: int)
    requires MovedStudent(s, studentId, newSchoolId).None?
    ensures Transfer(s, studentId, newSchoolId) == TransferRun(Ok(false), s, [BeginStep], [Began])
  {
  }

  /**
   * On a clean context the intended transfer of a live student to a live school sets
   * the student's own school id, then saves, commits and clears "StudentKey", in that
   * order.
   */
  lemma TransferMovesStudent(s: ContextState, studentId: int, newSchoolId: int)
    requires Clean(s) && MovedStudent(s, studentId, newSchoolId).Some?
    ensures Transfer(s, studentId, newSchoolId).result == Ok(true)
    ensures var k := IndexOf(s.students.rows, StudentId, studentId);
      Transfer(s, studentId, newSchoolId).after.students.rows
        == s.students.rows[k := s.students.rows[k].(schoolId := newSchoolId)]
    ensures var moved := MovedStudent(s, studentId, newSchoolId).value;
      Transfer(s, studentId, newSchoolId).steps
        == [BeginStep, UpdateStep(moved), SaveStep(Ok(1)), CommitStep, EvictStep(StudentKey)]
  {
    var moved := MovedStudent(s, studentId, newSchoolId).value;
    SaveStudentChange(TransferStaged(s, moved), Modified(moved));
  }

  /** A failed save rolls back and rethrows: no commit and no cache removal. */
  lemma TransferFailureRollsBack(s: ContextState, studentId: int, newSchoolId: int)
    requires MovedStudent(s, studentId, newSchoolId).Some?
    requires SaveAll(TransferStaged(s, MovedStudent(s, studentId, newSchoolId).value)).0.Err?
    ensures var run := Transfer(s, studentId, newSchoolId);
      run.result.Err? && run.after == TransferStaged(s, MovedStudent(s, studentId, newSchoolId).value)
      && |run.steps| == 4 && run.steps[3] == RollbackStep
      && CommitStep !in run.steps && EvictStep(StudentKey) !in run.steps
      && run.events[2] == UowEvent.RolledBack
  {
  }

  /**
   * As written, moving a live student to a different live school never succeeds:
   * it throws, rolls back, and leaves every stored row as it was.
   */
  lemma TransferAsWrittenRollsBack(s: ContextState, studentId: int, newSchoolId: int, loaded: bool)
    requires MovedStudent(s, studentId, newSchoolId).Some?
    requires LiveStudent(s, studentId).value.schoolId != newSchoolId
    ensures var run := TransferAsWritten(s, studentId, newSchoolId, loaded);
      run.result.Err? && run.after.students.rows == s.students.rows && run.after.schools == s.schools
      && run.steps[|run.steps| - 1] == RollbackStep && run.events[|run.events| - 1] == UowEvent.RolledBack
      && CommitStep !in run.steps && EvictStep(StudentKey) !in run.steps
  {
  }

  /** Student 1 of school 1, and a live school 2. */
  function TransferExampleContext(): ContextState {
    ContextState(
      TableState([Student(1, "An", "Le", 20, 0, 1, Active)], [], 2),
      TableState([School(1, "North", "", Active), School(2, "South", "", Active)], [], 3),
      TableState([], [], 1))
  }

  /** Moving student 1 to school 2: the intended transfer commits the move, the written one throws. */
  lemma TransferExample(loaded: bool)
    ensures Transfer(TransferExampleContext(), 1, 2).result == Ok(true)
    ensures Transfer(TransferExampleContext(), 1, 2).after.students.rows == [Student(1, "An", "Le", 20, 0, 2, Active)]
    ensures TransferAsWritten(TransferExampleContext(), 1, 2, loaded).result.Err?
    ensures TransferAsWritten(TransferExampleContext(), 1, 2, loaded).after.students.rows
         == [Student(1, "An", "Le", 20, 0, 1, Active)]
  {
    var s := TransferExampleContext();
    assert FindRow(s.students.rows, StudentId, 1) == Some(s.students.rows[0]);
    assert FindRow(s.schools.rows, SchoolId, 2) == Some(s.schools.rows[1]);
    assert IndexOf(s.students.rows, StudentId, 1) == 0;
    TransferMovesStudent(s, 1, 2);
    TransferAsWrittenRollsBack(s, 1, 2, loaded);
  }

  class StudentServiceWithRepository {
    const uow: UnitOfWork
    const cache: MemoryCache<seq<Student>>
    /** `_mapper.Map<Student>(StudentCreateViewModel)`. */
    const mapCreate: StudentCreate -> Student
    /** `_mapper.Map(StudentCreateViewModel, Student)`. */
    const mapOnto: (StudentCreate, Student) -> Student

    ghost predicate Valid()
      reads uow, uow.Repr()
    {
      uow.Valid() && !uow.disposed
    }

    constructor (uow: UnitOfWork, cache: MemoryCache<seq<Student>>,
                 mapCreate: StudentCreate -> Student, mapOnto: (StudentCreate, Student) -> Student)
      requires uow.Valid() && !uow.disposed
      ensures Valid() && this.uow == uow && this.cache == cache
      ensures this.mapCreate == mapCreate && this.mapOnto == mapOnto
    {
      this.uow := uow;
      this.cache := cache;
      this.mapCreate := mapCreate;
      this.mapOnto := mapOnto;
    }

    /** `StudentRepository.Update(student)` followed by `SaveChangesAsync()`. */
    method UpdateAndSave(changed: Student) returns (saved: Result<int>)
      requires Valid()
      modifies uow.context.students, uow.context.schools, uow.context.todos, uow`log
      ensures Valid()
      ensures (saved, uow.context.State())
              == SaveAll(old(uow.context.State()).(students := Stage(old(uow.context.State()).students, Modified(changed))))
      ensures uow.log == old(uow.log) + [Saved(saved)]
    {
      uow.context.students.Update(changed);
      saved := uow.SaveChangesAsync();
    }

    /** Never a Deleted student; with an id, only that student. */
    method GetStudent(studentId: Option<int>) returns (r: seq<Student>)
      requires Valid()
      ensures r == StudentQuery.VisibleStudents(uow.context.students.rows, studentId)
      ensures forall x :: x in r ==> x in uow.context.students.rows && x.status != Deleted
      ensures forall x :: x in r && studentId.Some? ==> x.id == studentId.value
    {
      r := StudentQuery.VisibleStudents(uow.context.students.rows, studentId);
    }

    /** `GetOrCreate("StudentKey", GetAllStudent)`: a hit answers the cached list without a query. */
    method GetStudents() returns (r: seq<Student>, ghost steps: seq<Step>)
      requires Valid()
      modifies cache
      ensures StudentKey in old(cache.entries) ==>
                r == old(cache.entries)[StudentKey] && cache.entries == old(cache.entries) && steps == []
      ensures StudentKey !in old(cache.entries) ==>
                r == StudentQuery.VisibleStudents(uow.context.students.rows, None)
                && cache.entries == old(cache.entries)[StudentKey := r] && steps == [QueryStep]
    {
      var hit := cache.TryGetValue(StudentKey);
      if hit.Some? {
        return hit.value, [];
      }
      r := StudentQuery.VisibleStudents(uow.context.students.rows, None);
      steps := [QueryStep];
      cache.Set(StudentKey, r);
    }

    method PostStudentAsync(vm: StudentCreate) returns (r: Result<int>)
      requires Valid()
      modifies uow.context.students, uow.context.schools, uow.context.todos, uow`log
      ensures Valid()
      ensures (r, uow.context.State()) == PostStudentOutcome(old(uow.context.State()), vm.schoolId, mapCreate(vm))
      ensures ActiveSchool(old(uow.context.State()), vm.schoolId).None? ==> uow.log == old(uow.log)
    {
      ghost var s0 := uow.context.State();
      var school := ActiveSchool(uow.context.State(), vm.schoolId);
      if school.None? {
        return Err(Argument(SchoolMissing));
      }
      var newStudent := mapCreate(vm).(id := 0, status := Unverified);
      var added := uow.context.students.Add(newStudent);
      assert uow.context.State() == s0.(students := StageAdd(s0.students, newStudent, StudentId, StudentWithId).1);
      var saved := uow.SaveChangesAsync();
      r := AfterSave(saved, added.id);
    }

    method UpdateStudentAsync(id: int, vm: StudentCreate) returns (r: Result<bool>, ghost steps: seq<Step>)
      requires Valid()
      modifies uow.context.students, uow.context.schools, uow.context.todos, uow`log, cache
      ensures Valid()
      ensures (r, uow.context.State()) == UpdateStudentOutcome(old(uow.context.State()), id, vm, mapOnto)
      ensures cache.entries == if r == Ok(true) then old(cache.entries) - {StudentKey} else old(cache.entries)
      ensures r == Ok(true) ==>
                var e := LiveStudent(old(uow.context.State()), id).value;
                var c := Modified(Remapped(vm, e, mapOnto));
                var saved := SaveAll(old(uow.context.State()).(students := Stage(old(uow.context.State()).students, c))).0;
                steps == [UpdateStep(Remapped(vm, e, mapOnto)), SaveStep(saved), EvictStep(StudentKey)]
    {
      ghost var s0 := uow.context.State();
      var existing := uow.context.students.Find(id);
      if existing.None? || existing.value.status == Deleted {
        return Ok(false), [];
      }
      assert LiveStudent(s0, id) == existing;
      if vm.schoolId != existing.value.schoolId {
        var school := ActiveSchool(uow.context.State(), vm.schoolId);
        if school.None? {
          return Err(Argument(SchoolMissing)), [];
        }
      }
      r, steps := SaveAndEvict(Remapped(vm, existing.value, mapOnto));
    }

    /** The update's write: save the changed student and, once saved, evict the cached list. */
    method SaveAndEvict(changed: Student) returns (r: Result<bool>, ghost steps: seq<Step>)
      requires Valid()
      modifies uow.context.students, uow.context.schools, uow.context.todos, uow`log, cache
      ensures Valid()
      ensures var (saved, after) :=
                SaveAll(old(uow.context.State()).(students := Stage(old(uow.context.State()).students, Modified(changed))));
        r == AfterSave(saved, true) && uow.context.State() == after
        && steps == [UpdateStep(changed), SaveStep(saved)] + (if saved.Ok? then [EvictStep(StudentKey)] else [])
      ensures cache.entries == if r == Ok(true) then old(cache.entries) - {StudentKey} else old(cache.entries)
    {
      var saved := UpdateAndSave(changed);
      if saved.Err? {
        return Err(saved.error), [UpdateStep(changed), SaveStep(saved)];
      }
      cache.Remove(StudentKey);
      r, steps := Ok(true), [UpdateStep(changed), SaveStep(saved), EvictStep(StudentKey)];
    }

    method SoftDeleteStudentAsync(id: int) returns (r: Result<bool>)
      requires Valid()
      modifies uow.context.students, uow.context.schools, uow.context.todos, uow`log, cache
      ensures Valid()
      ensures (r, uow.context.State()) == SoftDeleteOutcome(old(uow.context.State()), id)
      ensures cache.entries == if r == Ok(true) then old(cache.entries) - {StudentKey} else old(cache.entries)
    {
      var student := uow.context.students.Find(id);
      if student.None? || student.value.status == Deleted {
        return Ok(false);
      }
      // SoftDeleteById(id) marks the stored student Deleted.
      var saved := UpdateAndSave(student.value.(status := Deleted));
      if saved.Err? {
        return Err(saved.error);
      }
      cache.Remove(StudentKey);
      r := Ok(true);
    }

    /** Null for a missing or Deleted student. */
    method GetStudentByIdAsync(id: int) returns (r: Option<Student>)
      requires Valid()
      ensures r == LiveStudent(uow.context.State(), id)
      ensures r.Some? ==> r.value in uow.context.students.rows && r.value.id == id && r.value.status != Deleted
      ensures r.None? <==>
                forall i :: 0 <= i < |uow.context.students.rows| && uow.context.students.rows[i].id == id ==>
                  uow.context.students.rows[IndexOf(uow.context.students.rows, StudentId, id)].status == Deleted
    {
      var student := uow.context.students.Find(id);
      if student.None? || student.value.status == Deleted {
        return None;
      }
      r := student;
    }

    method SearchStudentsAsync(searchTerm: Option<string>) returns (r: seq<Student>)
      requires Valid()
      ensures r == Search(uow.context.students.rows, uow.context.schools.rows, searchTerm)
    {
      if IsNullOrWhiteSpace(searchTerm) {
        r := Where(uow.context.students.rows, NotDeleted());
        return;
      }
      r := Where(uow.context.students.rows, MatchesTerm(uow.context.schools.rows, searchTerm.value));
    }

    /**
     * The tail of a transfer inside the open transaction: Update and Save, then
     * Commit and clear "StudentKey", or Rollback when the save throws.
     */
    method MoveAndCommit(moved: Student) returns (r: Result<bool>, ghost steps: seq<Step>)
      requires Valid() && uow.transaction.Some? && uow.transaction.value.snapshot == uow.context.Rows()
      modifies uow`transaction, uow`log, uow.context`inTransaction
      modifies uow.context.students, uow.context.schools, uow.context.todos
      modifies uow.transaction.value, cache
      ensures Valid() && uow.transaction.None?
      ensures var run := MoveRun(old(uow.context.State()), moved);
        r == run.result && uow.context.State() == run.after
        && steps == run.steps && uow.log == old(uow.log) + run.events
      ensures cache.entries == if r.Ok? then old(cache.entries) - {StudentKey} else old(cache.entries)
    {
      var saved := UpdateAndSave(moved);
      if saved.Err? {
        // catch: roll back, then rethrow.
        RollBackUnchanged();
        return Err(saved.error), [UpdateStep(moved), SaveStep(saved), RollbackStep];
      }
      CommitAndEvict();
      r, steps := Ok(true), [UpdateStep(moved), SaveStep(saved), CommitStep, EvictStep(StudentKey)];
    }

    /** Rolling back a transaction whose snapshot is the stored rows leaves the context as it is. */
    method RollBackUnchanged()
      requires Valid() && uow.transaction.Some? && uow.transaction.value.snapshot == uow.context.Rows()
      modifies uow`transaction, uow`log, uow.context`inTransaction
      modifies uow.context.students`rows, uow.context.schools`rows, uow.context.todos`rows
      modifies uow.transaction.value
      ensures Valid() && uow.transaction.None?
      ensures uow.context.State() == old(uow.context.State()) && uow.log == old(uow.log) + [UowEvent.RolledBack]
    {
      uow.RollbackTransactionAsync();
    }

    /** Commit, then evict the cached student list. */
    method CommitAndEvict()
      requires Valid() && uow.transaction.Some?
      modifies uow`transaction, uow`log, uow.context`inTransaction
      modifies uow.context.students`rows, uow.context.schools`rows, uow.context.todos`rows
      modifies uow.transaction.value, cache
      ensures Valid() && uow.transaction.None?
      ensures uow.context.State() == old(uow.context.State()) && uow.log == old(uow.log) + [UowEvent.Committed]
      ensures cache.entries == old(cache.entries) - {StudentKey}
    {
      uow.CommitTransactionAsync();
      cache.Remove(StudentKey);
    }

    /** The checks after Begin and, when both pass, the tail. */
    method CheckAndMove(studentId: int, newSchoolId: int) returns (r: Result<bool>, ghost steps: seq<Step>)
      requires Valid() && uow.transaction.Some? && uow.transaction.value.snapshot == uow.context.Rows()
      modifies uow`transaction, uow`log, uow.context`inTransaction
      modifies uow.context.students, uow.context.schools, uow.context.todos
      modifies uow.transaction.value, cache
      ensures Valid()
      ensures var run := AfterBegin(old(uow.context.State()), studentId, newSchoolId);
        r == run.result && uow.context.State() == run.after
        && steps == run.steps && uow.log == old(uow.log) + run.events
      ensures cache.entries == if r == Ok(true) then old(cache.entries) - {StudentKey} else old(cache.entries)
      ensures r == Ok(false) ==> uow.transaction == old(uow.transaction) && unchanged(uow.transaction.value)
      ensures r != Ok(false) ==> uow.transaction.None?
    {
      ghost var s0 := uow.context.State();
      var student := uow.context.students.Find(studentId);
      assert LiveStudent(s0, studentId) == if student.None? || student.value.status == Deleted then None else student;
      if student.None? || student.value.status == Deleted {
        return Ok(false), [];
      }
      var newSchool := uow.context.schools.Find(newSchoolId);
      if newSchool.None? || newSchool.value.status == Deleted {
        return Ok(false), [];
      }
      // The intended move: the student's own school id is set. Line 175 as written
      // writes the key of the student's School instead; see TransferAsWritten.
      var moved := student.value.(schoolId := newSchoolId);
      assert MovedStudent(s0, studentId, newSchoolId) == Some(moved);
      r, steps := MoveAndCommit(moved);
    }

    method TransferStudentToNewSchoolAsync(studentId: int, newSchoolId: int)
      returns (r: Result<bool>, ghost steps: seq<Step>)
      requires Valid()
      modifies uow`transaction, uow`log, uow.context`inTransaction
      modifies uow.context.students, uow.context.schools, uow.context.todos
      modifies if uow.transaction.Some? then {uow.transaction.value} else {}
      modifies cache
      ensures Valid()
      ensures var slot := if old(uow.transaction).Some? then Some(old(uow.transaction).value.snapshot) else None;
        var run := TransferWithSlot(old(uow.context.State()), slot, studentId, newSchoolId);
        r == run.result && uow.context.State() == run.after
        && steps == run.steps && uow.log == old(uow.log) + run.events
      ensures cache.entries == if r == Ok(true) then old(cache.entries) - {StudentKey} else old(cache.entries)
      ensures r == Ok(false) ==>
                uow.transaction.Some? && fresh(uow.transaction.value) && uow.transaction.value.state == Open
      ensures r != Ok(false) ==> uow.transaction.None?
    {
      var began := uow.BeginTransactionAsync();
      if began.Err? {
        // catch: roll back the transaction still in the slot, then rethrow.
        uow.RollbackTransactionAsync();
        return Err(began.error), [BeginStep, RollbackStep];
      }
      ghost var rest;
      r, rest := CheckAndMove(studentId, newSchoolId);
      steps := [BeginStep] + rest;
      ghost var events := AfterBegin(old(uow.context.State()), studentId, newSchoolId).events;
      assert old(uow.log) + [Began] + events == old(uow.log) + ([Began] + events);
    }
  }
}
