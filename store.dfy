/**
 * The record store behind the repositories: a table is a sequence of rows with
 * pairwise distinct ids (the id-to-record map in the order queries enumerate it),
 * plus the change tracker's pending changes that SaveChanges applies.
 */
module Store {
  import opened Wrappers
  import opened Entities

  /** A change staged by Add, Update or Remove, applied by SaveChanges. */
  datatype Change<T> = Added(row: T) | Modified(row: T) | Removed(id: int)

  ghost predicate DistinctIds<T>(rows: seq<T>, idOf: T -> int) {
    forall i, j :: 0 <= i < j < |rows| ==> idOf(rows[i]) != idOf(rows[j])
  }

  /** The position of the first row with that id, or -1. */
  function IndexOf<T>(rows: seq<T>, idOf: T -> int, id: int): (k: int)
    ensures -1 <= k < |rows|
    ensures k >= 0 ==> idOf(rows[k]) == id
    ensures forall i :: 0 <= i < |rows| && (k < 0 || i < k) ==> idOf(rows[i]) != id
  {
    if rows == [] then -1
    else if idOf(rows[0]) == id then 0
    else
      var k := IndexOf(rows[1..], idOf, id);
      if k < 0 then -1 else k + 1
  }

  /** `DbSet.Find(id)` on the stored rows. */
  function FindRow<T>(rows: seq<T>, idOf: T -> int, id: int): (r: Option<T>)
    ensures r.Some? ==> r.value in rows && idOf(r.value) == id
    ensures r.None? <==> forall i :: 0 <= i < |rows| ==> idOf(rows[i]) != id
  {
    var k := IndexOf(rows, idOf, id);
    if k < 0 then None else Some(rows[k])
  }

  /** With distinct ids the row found is the only row with that id. */
  lemma FindRowUnique<T>(rows: seq<T>, idOf: T -> int, i: int)
    requires DistinctIds(rows, idOf) && 0 <= i < |rows|
    ensures FindRow(rows, idOf, idOf(rows[i])) == Some(rows[i])
  {
  }

  function RemoveAt<T>(rows: seq<T>, k: int): (r: seq<T>)
    requires 0 <= k < |rows|
    ensures |r| == |rows| - 1
  {
    rows[..k] + rows[k + 1..]
  }

  /** Removing the row at `k` drops exactly the rows with its id. */
  lemma RemoveAtMembers<T>(rows: seq<T>, idOf: T -> int, k: int)
    requires DistinctIds(rows, idOf) && 0 <= k < |rows|
    ensures forall x :: x in RemoveAt(rows, k) ==> x in rows && idOf(x) != idOf(rows[k])
    ensures forall x :: x in rows && idOf(x) != idOf(rows[k]) ==> x in RemoveAt(rows, k)
  {
    var r := RemoveAt(rows, k);
    forall x | x in r ensures x in rows && idOf(x) != idOf(rows[k]) {
      var i :| 0 <= i < |r| && r[i] == x;
      var i' := if i < k then i else i + 1;
      assert r[i] == rows[i'] && i' != k;
    }
    forall x | x in rows && idOf(x) != idOf(rows[k]) ensures x in r {
      var i :| 0 <= i < |rows| && rows[i] == x;
      assert i != k;
      if i < k { assert r[i] == x; } else { assert r[i - 1] == x; }
    }
  }

  /** Overwriting the row at the first match with a row of the same id keeps the match there. */
  lemma {:induction false} IndexOfUpdate<T>(rows: seq<T>, idOf: T -> int, id: int, e: T)
    requires IndexOf(rows, idOf, id) >= 0 && idOf(e) == id
    ensures IndexOf(rows[IndexOf(rows, idOf, id) := e], idOf, id) == IndexOf(rows, idOf, id)
  {
    var k := IndexOf(rows, idOf, id);
    if k > 0 {
      IndexOfUpdate(rows[1..], idOf, id, e);
      assert rows[k := e][1..] == rows[1..][k - 1 := e];
    }
  }

  /** One pending change applied to the stored rows; conflicts are errors. */
  function ApplyChange<T>(rows: seq<T>, idOf: T -> int, c: Change<T>): Result<seq<T>> {
    match c
    case Added(e) =>
      if IndexOf(rows, idOf, idOf(e)) >= 0 then Err(DuplicateKey(idOf(e))) else Ok(rows + [e])
    case Modified(e) =>
      var k := IndexOf(rows, idOf, idOf(e));
      if k < 0 then Err(Concurrency(idOf(e))) else Ok(rows[k := e])
    case Removed(id) =>
      var k := IndexOf(rows, idOf, id);
      if k < 0 then Err(Concurrency(id)) else Ok(RemoveAt(rows, k))
  }

  /** All pending changes in order; the first conflict aborts the whole batch. */
  function Apply<T>(rows: seq<T>, idOf: T -> int, cs: seq<Change<T>>): Result<seq<T>>
    decreases |cs|
  {
    if cs == [] then Ok(rows)
    else
      match ApplyChange(rows, idOf, cs[0])
      case Err(e) => Err(e)
      case Ok(r) => Apply(r, idOf, cs[1..])
  }

  /** A batch of one change is that change applied alone. */
  lemma ApplySingle<T>(rows: seq<T>, idOf: T -> int, c: Change<T>)
    ensures Apply(rows, idOf, [c]) == ApplyChange(rows, idOf, c)
  {
    assert [c][1..] == [];
    match ApplyChange(rows, idOf, c)
    case Err(e) =>
    case Ok(r) => assert Apply(r, idOf, []) == Ok(r);
  }

  lemma ApplyChangeDistinct<T>(rows: seq<T>, idOf: T -> int, c: Change<T>)
    requires DistinctIds(rows, idOf) && ApplyChange(rows, idOf, c).Ok?
    ensures DistinctIds(ApplyChange(rows, idOf, c).value, idOf)
  {
    match c
    case Added(e) =>
    case Modified(e) =>
    case Removed(id) =>
      var k := IndexOf(rows, idOf, id);
      var r := RemoveAt(rows, k);
      forall i, j | 0 <= i < j < |r| ensures idOf(r[i]) != idOf(r[j]) {
        var i' := if i < k then i else i + 1;
        var j' := if j < k then j else j + 1;
        assert r[i] == rows[i'] && r[j] == rows[j'];
      }
  }

  /** Saving never breaks the uniqueness of ids. */
  lemma {:induction false} ApplyDistinct<T>(rows: seq<T>, idOf: T -> int, cs: seq<Change<T>>)
    requires DistinctIds(rows, idOf) && Apply(rows, idOf, cs).Ok?
    ensures DistinctIds(Apply(rows, idOf, cs).value, idOf)
    decreases |cs|
  {
    if cs != [] {
      ApplyChangeDistinct(rows, idOf, cs[0]);
      ApplyDistinct(ApplyChange(rows, idOf, cs[0]).value, idOf, cs[1..]);
    }
  }

  /** LINQ `Where`: the rows satisfying the predicate, in store order. */
  function Where<T>(rows: seq<T>, p: T -> bool): (r: seq<T>)
    ensures |r| <= |rows|
    ensures forall x :: x in r ==> x in rows && p(x)
    ensures forall x :: x in rows && p(x) ==> x in r
  {
    if rows == [] then []
    else if p(rows[0]) then [rows[0]] + Where(rows[1..], p)
    else Where(rows[1..], p)
  }

  /** Predicates that agree on every row select the same rows. */
  lemma {:induction false} WhereSame<T>(rows: seq<T>, p: T -> bool, q: T -> bool)
    requires forall x :: p(x) == q(x)
    ensures Where(rows, p) == Where(rows, q)
  {
    if rows != [] {
      WhereSame(rows[1..], p, q);
    }
  }

  /** Two `Where` calls in a row filter by the conjunction of their predicates. */
  lemma {:induction false} WhereWhere<T>(rows: seq<T>, p: T -> bool, q: T -> bool, pq: T -> bool)
    requires forall x :: pq(x) == (p(x) && q(x))
    ensures Where(Where(rows, p), q) == Where(rows, pq)
  {
    if rows != [] {
      WhereWhere(rows[1..], p, q, pq);
      if p(rows[0]) {
        assert ([rows[0]] + Where(rows[1..], p))[1..] == Where(rows[1..], p);
      }
    }
  }

  lemma DistinctTail<T>(rows: seq<T>, idOf: T -> int)
    requires DistinctIds(rows, idOf) && rows != []
    ensures DistinctIds(rows[1..], idOf)
  {
    var tail := rows[1..];
    forall i, j | 0 <= i < j < |tail| ensures idOf(tail[i]) != idOf(tail[j]) {
      assert tail[i] == rows[i + 1] && tail[j] == rows[j + 1];
    }
  }

  /** Filtering keeps ids distinct. */
  lemma {:induction false} WhereDistinct<T>(rows: seq<T>, idOf: T -> int, p: T -> bool)
    requires DistinctIds(rows, idOf)
    ensures DistinctIds(Where(rows, p), idOf)
  {
    if rows != [] {
      var tail := rows[1..];
      DistinctTail(rows, idOf);
      WhereDistinct(tail, idOf, p);
      if p(rows[0]) {
        var w := Where(tail, p);
        var r := [rows[0]] + w;
        forall i, j | 0 <= i < j < |r| ensures idOf(r[i]) != idOf(r[j]) {
          assert r[j] == w[j - 1] && w[j - 1] in w;
          if i == 0 {
            var k :| 0 <= k < |tail| && tail[k] == w[j - 1];
            assert tail[k] == rows[k + 1];
          } else {
            assert r[i] == w[i - 1];
          }
        }
      }
    }
  }

  lemma FirstTwoDiffer<T>(rows: seq<T>, idOf: T -> int)
    requires DistinctIds(rows, idOf) && |rows| >= 2
    ensures rows[0] in rows && rows[1] in rows && idOf(rows[0]) != idOf(rows[1])
  {
  }

  /** Distinct ids that all equal one id leave room for one row at most. */
  lemma AtMostOneWithId<T>(rows: seq<T>, idOf: T -> int, id: int)
    requires DistinctIds(rows, idOf)
    requires forall x :: x in rows ==> idOf(x) == id
    ensures |rows| <= 1
  {
    if |rows| >= 2 {
      FirstTwoDiffer(rows, idOf);
      assert false;
    }
  }

  /** No matching row: `Where` keeps nothing. */
  lemma {:induction false} WhereNone<T>(rows: seq<T>, p: T -> bool)
    requires forall i :: 0 <= i < |rows| ==> !p(rows[i])
    ensures Where(rows, p) == []
  {
    if rows != [] {
      assert !p(rows[0]);
      forall j | 0 <= j < |rows[1..]| ensures !p(rows[1..][j]) {
        assert rows[1..][j] == rows[j + 1];
      }
      WhereNone(rows[1..], p);
    }
  }

  /** One matching row, and no other, is all that `Where` keeps. */
  lemma {:induction false} WhereOne<T>(rows: seq<T>, p: T -> bool, i: int)
    requires 0 <= i < |rows| && p(rows[i])
    requires forall j :: 0 <= j < |rows| && j != i ==> !p(rows[j])
    ensures Where(rows, p) == [rows[i]]
  {
    if i == 0 {
      forall j | 0 <= j < |rows[1..]| ensures !p(rows[1..][j]) {
        assert rows[1..][j] == rows[j + 1];
      }
      WhereNone(rows[1..], p);
    } else {
      WhereOne(rows[1..], p, i - 1);
    }
  }

  /** Two matching rows make `Where` keep at least two. */
  lemma {:induction false} WhereTwo<T>(rows: seq<T>, p: T -> bool, i: int, j: int)
    requires 0 <= i < j < |rows| && p(rows[i]) && p(rows[j])
    ensures |Where(rows, p)| >= 2
  {
    if i == 0 {
      assert rows[1..][j - 1] == rows[j];
    } else {
      WhereTwo(rows[1..], p, i - 1, j - 1);
    }
  }

  /** LINQ `FirstOrDefault`: the first row satisfying the predicate, or null. */
  function FirstWhere<T>(rows: seq<T>, p: T -> bool): (r: Option<T>)
    ensures r.None? <==> forall i :: 0 <= i < |rows| ==> !p(rows[i])
    ensures r.Some? ==>
              exists i :: 0 <= i < |rows| && rows[i] == r.value && p(r.value)
                          && forall j :: 0 <= j < i ==> !p(rows[j])
  {
    if rows == [] then None
    else if p(rows[0]) then Some(rows[0])
    else
      var r := FirstWhere(rows[1..], p);
      if r.Some? then
        ghost var i :| 0 <= i < |rows[1..]| && rows[1..][i] == r.value && p(r.value)
          && forall j :: 0 <= j < i ==> !p(rows[1..][j]);
        assert rows[i + 1] == r.value;
        assert forall j :: 0 <= j < i + 1 ==> !p(rows[j]) by {
          forall j | 0 <= j < i + 1 ensures !p(rows[j]) {
            if j > 0 { assert rows[j] == rows[1..][j - 1]; }
          }
        }
        r
      else
        assert forall i :: 0 <= i < |rows| ==> !p(rows[i]) by {
          forall i | 0 <= i < |rows| ensures !p(rows[i]) {
            if i > 0 { assert rows[i] == rows[1..][i - 1]; }
          }
        }
        r
  }

  /** LINQ `SingleOrDefault`: null for no match, the match for one, an error for more. */
  function SingleWhere<T>(rows: seq<T>, p: T -> bool): (r: Result<Option<T>>)
    ensures r == Ok(None) <==> |Where(rows, p)| == 0
    ensures r.Ok? && r.value.Some? <==> |Where(rows, p)| == 1
    ensures r.Ok? && r.value.Some? ==> r.value.value in rows && p(r.value.value)
    ensures r == Err(MoreThanOneMatch) <==> |Where(rows, p)| > 1
  {
    var matches := Where(rows, p);
    if |matches| == 0 then Ok(None)
    else if |matches| == 1 then Ok(Some(matches[0]))
    else Err(MoreThanOneMatch)
  }

  /** A table's stored rows, its pending changes, and the next identity value. */
  datatype TableState<T> = TableState(rows: seq<T>, pending: seq<Change<T>>, nextId: int)

  /**
   * Add stages an insert. An entity whose id is still 0 receives the next identity
   * value; an explicit id is kept and moves the identity past it.
   */
  function StageAdd<T>(st: TableState<T>, e: T, idOf: T -> int, withId: (T, int) -> T): (r: (T, TableState<T>))
    ensures r.1.rows == st.rows && r.1.pending == st.pending + [Added(r.0)]
    ensures idOf(e) == 0 ==> r.0 == withId(e, st.nextId) && r.1.nextId == st.nextId + 1
    ensures idOf(e) != 0 ==> r.1.nextId > idOf(e) && r.1.nextId >= st.nextId
    ensures idOf(e) != 0 ==> r.0 == e
  {
    if idOf(e) == 0 then
      var added := withId(e, st.nextId);
      (added, st.(pending := st.pending + [Added(added)], nextId := st.nextId + 1))
    else
      var next := if st.nextId > idOf(e) then st.nextId else idOf(e) + 1;
      (e, st.(pending := st.pending + [Added(e)], nextId := next))
  }

  function Stage<T>(st: TableState<T>, c: Change<T>): TableState<T> {
    st.(pending := st.pending + [c])
  }

  /** SaveChanges: all pending changes or none; the result is the number of changes written. */
  function Save<T>(st: TableState<T>, idOf: T -> int): (r: (Result<int>, TableState<T>))
    ensures r.0.Ok? ==> r.0.value == |st.pending| && r.1.pending == [] && r.1.nextId == st.nextId
    ensures r.0.Err? ==> r.1 == st
  {
    match Apply(st.rows, idOf, st.pending)
    case Ok(rows) => (Ok(|st.pending|), TableState(rows, [], st.nextId))
    case Err(e) => (Err(e), st)
  }

  /** One entity set of a database context together with its change tracker. */
  class Table<T> {
    const idOf: T -> int
    const withId: (T, int) -> T
    var rows: seq<T>
    var pending: seq<Change<T>>
    var nextId: int

    function State(): TableState<T>
      reads this
    {
      TableState(rows, pending, nextId)
    }

    ghost predicate Valid()
      reads this
    {
      DistinctIds(rows, idOf)
    }

    constructor (idOf: T -> int, withId: (T, int) -> T, rows: seq<T>, nextId: int)
      requires DistinctIds(rows, idOf)
      ensures Valid() && this.idOf == idOf && this.withId == withId
      ensures State() == TableState(rows, [], nextId)
    {
      this.idOf := idOf;
      this.withId := withId;
      this.rows := rows;
      this.pending := [];
      this.nextId := nextId;
    }

    method Find(id: int) returns (r: Option<T>)
      ensures r == FindRow(rows, idOf, id)
    {
      r := FindRow(rows, idOf, id);
    }

    method Add(e: T) returns (added: T)
      requires Valid()
      modifies this
      ensures Valid()
      ensures (added, State()) == StageAdd(old(State()), e, idOf, withId)
    {
      var st;
      added, st := StageAdd(State(), e, idOf, withId).0, StageAdd(State(), e, idOf, withId).1;
      pending, nextId := st.pending, st.nextId;
    }

    method Update(e: T)
      requires Valid()
      modifies this`pending
      ensures Valid() && State() == Stage(old(State()), Modified(e))
    {
      pending := pending + [Modified(e)];
    }

    method Remove(id: int)
      requires Valid()
      modifies this`pending
      ensures Valid() && State() == Stage(old(State()), Removed(id))
    {
      pending := pending + [Removed(id)];
    }

    method SaveChanges() returns (r: Result<int>)
      requires Valid()
      modifies this
      ensures Valid()
      ensures (r, State()) == Save(old(State()), idOf)
    {
      var applied := Apply(rows, idOf, pending);
      if applied.Ok? {
        r := Ok(|pending|);
        Accept(applied.value);
      } else {
        r := Err(applied.error);
      }
    }

    /** Stores the rows that applying the tracked changes produced and clears the tracker. */
    method Accept(applied: seq<T>)
      requires Valid() && Apply(rows, idOf, pending) == Ok(applied)
      modifies this`rows, this`pending
      ensures Valid() && State() == Save(old(State()), idOf).1
    {
      ApplyDistinct(rows, idOf, pending);
      rows, pending := applied, [];
    }
  }

  /** The rows of the three sets the unit-of-work services use, as a transaction saw them. */
  datatype Snapshot = Snapshot(students: seq<Student>, schools: seq<School>, todos: seq<ToDo>)

  ghost predicate SnapshotValid(s: Snapshot) {
    DistinctIds(s.students, StudentId) && DistinctIds(s.schools, SchoolId) && DistinctIds(s.todos, ToDoId)
  }

  datatype ContextState = ContextState(
    students: TableState<Student>, schools: TableState<School>, todos: TableState<ToDo>)

  /** Context-wide SaveChanges: every set's pending changes or none of them. */
  function SaveAll(s: ContextState): (r: (Result<int>, ContextState))
    ensures r.0.Err? ==> r.1 == s
    ensures r.0.Ok? ==> r.0.value == |s.students.pending| + |s.schools.pending| + |s.todos.pending|
    ensures r.0.Ok? ==> r.1.students.pending == [] && r.1.schools.pending == [] && r.1.todos.pending == []
  {
    var (a, st) := Save(s.students, StudentId);
    var (b, sc) := Save(s.schools, SchoolId);
    var (c, td) := Save(s.todos, ToDoId);
    if a.Err? then (a, s)
    else if b.Err? then (b, s)
    else if c.Err? then (c, s)
    else (Ok(a.value + b.value + c.value), ContextState(st, sc, td))
  }

  /** A service method's answer once SaveChanges has run: the value, or the exception the save raised. */
  function AfterSave<R>(saved: Result<int>, value: R): Result<R> {
    if saved.Ok? then Ok(value) else Err(saved.error)
  }

  /** No set has pending changes: the state a request's context starts from. */
  ghost predicate Clean(s: ContextState) {
    s.students.pending == [] && s.schools.pending == [] && s.todos.pending == []
  }

  /** Saving a set whose only pending change is `c` applies `c` alone. */
  lemma SaveOne<T>(st: TableState<T>, idOf: T -> int, c: Change<T>)
    requires st.pending == [c]
    ensures ApplyChange(st.rows, idOf, c).Ok? ==>
              Save(st, idOf) == (Ok(1), TableState(ApplyChange(st.rows, idOf, c).value, [], st.nextId))
    ensures ApplyChange(st.rows, idOf, c).Err? ==>
              Save(st, idOf) == (Err(ApplyChange(st.rows, idOf, c).error), st)
  {
    ApplySingle(st.rows, idOf, c);
  }

  /** A context whose one pending change is a student change saves exactly that change. */
  lemma SaveStudentChange(s: ContextState, c: Change<Student>)
    requires s.students.pending == [c] && s.schools.pending == [] && s.todos.pending == []
    ensures ApplyChange(s.students.rows, StudentId, c).Ok? ==>
              SaveAll(s) == (Ok(1), s.(students := TableState(ApplyChange(s.students.rows, StudentId, c).value, [], s.students.nextId)))
    ensures ApplyChange(s.students.rows, StudentId, c).Err? ==>
              SaveAll(s) == (Err(ApplyChange(s.students.rows, StudentId, c).error), s)
  {
    SaveOne(s.students, StudentId, c);
    assert Apply(s.schools.rows, SchoolId, []) == Ok(s.schools.rows);
    assert Apply(s.todos.rows, ToDoId, []) == Ok(s.todos.rows);
  }

  /** A context whose one pending change is a school change saves exactly that change. */
  lemma SaveSchoolChange(s: ContextState, c: Change<School>)
    requires s.students.pending == [] && s.schools.pending == [c] && s.todos.pending == []
    ensures ApplyChange(s.schools.rows, SchoolId, c).Ok? ==>
              SaveAll(s) == (Ok(1), s.(schools := TableState(ApplyChange(s.schools.rows, SchoolId, c).value, [], s.schools.nextId)))
    ensures ApplyChange(s.schools.rows, SchoolId, c).Err? ==>
              SaveAll(s) == (Err(ApplyChange(s.schools.rows, SchoolId, c).error), s)
  {
    SaveOne(s.schools, SchoolId, c);
    assert Apply(s.students.rows, StudentId, []) == Ok(s.students.rows);
    assert Apply(s.todos.rows, ToDoId, []) == Ok(s.todos.rows);
  }

  /** A context whose one pending change is a to-do change saves exactly that change. */
  lemma SaveToDoChange(s: ContextState, c: Change<ToDo>)
    requires s.students.pending == [] && s.schools.pending == [] && s.todos.pending == [c]
    ensures ApplyChange(s.todos.rows, ToDoId, c).Ok? ==>
              SaveAll(s) == (Ok(1), s.(todos := TableState(ApplyChange(s.todos.rows, ToDoId, c).value, [], s.todos.nextId)))
    ensures ApplyChange(s.todos.rows, ToDoId, c).Err? ==>
              SaveAll(s) == (Err(ApplyChange(s.todos.rows, ToDoId, c).error), s)
  {
    SaveOne(s.todos, ToDoId, c);
    assert Apply(s.students.rows, StudentId, []) == Ok(s.students.rows);
    assert Apply(s.schools.rows, SchoolId, []) == Ok(s.schools.rows);
  }

  /** Entity Framework's message when a transaction is begun on a connection that already has one. */
  const TransactionAlreadyStarted := "The connection is already in a transaction and cannot participate in another transaction."

  /** The application's database context, reduced to the sets the services use. */
  class DbContext {
    const students: Table<Student>
    const schools: Table<School>
    const todos: Table<ToDo>
    var disposed: bool
    /** Whether the connection has a current transaction (`Database.CurrentTransaction` is set). */
    var inTransaction: bool

    ghost predicate Valid()
      reads this, students, schools, todos
    {
      students.Valid() && schools.Valid() && todos.Valid()
      && students.idOf == StudentId && schools.idOf == SchoolId && todos.idOf == ToDoId
      && students.withId == StudentWithId && schools.withId == SchoolWithId && todos.withId == ToDoWithId
    }

    function State(): ContextState
      reads students, schools, todos
    {
      ContextState(students.State(), schools.State(), todos.State())
    }

    function Rows(): Snapshot
      reads students, schools, todos
    {
      Snapshot(students.rows, schools.rows, todos.rows)
    }

    constructor (students: Table<Student>, schools: Table<School>, todos: Table<ToDo>)
      requires students.Valid() && schools.Valid() && todos.Valid()
      requires students.idOf == StudentId && schools.idOf == SchoolId && todos.idOf == ToDoId
      requires students.withId == StudentWithId && schools.withId == SchoolWithId && todos.withId == ToDoWithId
      ensures Valid() && !disposed && !inTransaction
      ensures this.students == students && this.schools == schools && this.todos == todos
    {
      this.students := students;
      this.schools := schools;
      this.todos := todos;
      this.disposed := false;
      this.inTransaction := false;
    }

    method SaveChanges() returns (r: Result<int>)
      requires Valid()
      modifies students, schools, todos
      ensures Valid()
      ensures (r, State()) == SaveAll(old(State()))
    {
      var a := Apply(students.rows, StudentId, students.pending);
      var b := Apply(schools.rows, SchoolId, schools.pending);
      var c := Apply(todos.rows, ToDoId, todos.pending);
      if a.Err? {
        r := Err(a.error);
      } else if b.Err? {
        r := Err(b.error);
      } else if c.Err? {
        r := Err(c.error);
      } else {
        r := Ok(|students.pending| + |schools.pending| + |todos.pending|);
        students.Accept(a.value);
        schools.Accept(b.value);
        todos.Accept(c.value);
      }
    }

    /**
     * `Database.BeginTransaction()`: a new open transaction over the rows as they are
     * now, which becomes the current one. A connection that already has a current
     * transaction refuses with an InvalidOperationException.
     */
    method BeginTransaction() returns (r: Result<Transaction>)
      requires Valid()
      modifies this`inTransaction
      ensures inTransaction
      ensures old(inTransaction) <==> r.Err?
      ensures r.Err? ==> r.error == InvalidOperation(TransactionAlreadyStarted)
      ensures r.Ok? ==> fresh(r.value) && r.value.ctx == this && r.value.snapshot == Rows()
      ensures r.Ok? ==> r.value.state == Open && !r.value.disposed && r.value.Valid()
    {
      if inTransaction {
        return Err(InvalidOperation(TransactionAlreadyStarted));
      }
      var tx := new Transaction(this, Rows());
      inTransaction := true;
      r := Ok(tx);
    }

    /** Puts the stored rows back as a snapshot had them; pending changes stay tracked. */
    method Restore(snap: Snapshot)
      requires Valid() && SnapshotValid(snap)
      modifies students`rows, schools`rows, todos`rows
      ensures Valid() && Rows() == snap
      ensures students.pending == old(students.pending) && schools.pending == old(schools.pending)
      ensures todos.pending == old(todos.pending)
    {
      students.rows := snap.students;
      schools.rows := snap.schools;
      todos.rows := snap.todos;
    }

    method Dispose()
      modifies this`disposed
      ensures disposed
    {
      disposed := true;
    }
  }

  datatype TxState = Open | Committed | RolledBack

  /** `IDbContextTransaction`: its rollback puts back the rows it saw at its start. */
  class Transaction {
    const ctx: DbContext
    const snapshot: Snapshot
    var state: TxState
    var disposed: bool

    ghost predicate Valid() {
      SnapshotValid(snapshot)
    }

    constructor (ctx: DbContext, snapshot: Snapshot)
      requires SnapshotValid(snapshot)
      ensures this.ctx == ctx && this.snapshot == snapshot && state == Open && !disposed && Valid()
    {
      this.ctx := ctx;
      this.snapshot := snapshot;
      this.state := Open;
      this.disposed := false;
    }

    /** Committing ends the connection's current transaction. */
    method Commit()
      requires state == Open && !disposed
      modifies this`state, ctx`inTransaction
      ensures state == Committed && !ctx.inTransaction
    {
      state := Committed;
      ctx.inTransaction := false;
    }

    method Rollback()
      requires Valid() && ctx.Valid() && state == Open && !disposed
      modifies this`state, ctx`inTransaction, ctx.students`rows, ctx.schools`rows, ctx.todos`rows
      ensures state == RolledBack && ctx.Valid() && ctx.Rows() == snapshot && !ctx.inTransaction
      ensures ctx.students.pending == old(ctx.students.pending)
      ensures ctx.schools.pending == old(ctx.schools.pending)
      ensures ctx.todos.pending == old(ctx.todos.pending)
    {
      ctx.Restore(snapshot);
      state := RolledBack;
      ctx.inTransaction := false;
    }

    /** Disposing a transaction that is still open rolls it back; the first dispose ends it as the current one. */
    method Dispose()
      requires Valid() && ctx.Valid()
      modifies this`state, this`disposed, ctx`inTransaction, ctx.students`rows, ctx.schools`rows, ctx.todos`rows
      ensures disposed && ctx.Valid()
      ensures !old(disposed) ==> !ctx.inTransaction
      ensures old(disposed) ==> ctx.inTransaction == old(ctx.inTransaction)
      ensures old(state) == Open && !old(disposed) ==> state == RolledBack && ctx.Rows() == snapshot
      ensures !(old(state) == Open && !old(disposed)) ==> state == old(state) && ctx.Rows() == old(ctx.Rows())
      ensures ctx.State().students.pending == old(ctx.State().students.pending)
      ensures ctx.State().schools.pending == old(ctx.State().schools.pending)
      ensures ctx.State().todos.pending == old(ctx.State().todos.pending)
    {
      if state == Open && !disposed {
        ctx.Restore(snapshot);
        state := RolledBack;
      }
      if !disposed {
        ctx.inTransaction := false;
      }
      disposed := true;
    }
  }
}
