/**
 * `ToDoServiceWithRepository`: to-do operations through the unit of work. Each
 * write stages one change on the to-do set and then saves the whole context;
 * a save that fails surfaces as the error the method throws.
 */
module ToDoServiceWithRepository {
  import opened Wrappers
  import opened Entities
  import opened Store
  import opened UnitOfWork

  /** `PostAsync`/`Post`: stage a new incomplete to-do, save, answer its id. */
  function PostOutcome(s: ContextState, description: string): (Result<int>, ContextState) {
    var (added, todos) := StageAdd(s.todos, ToDo(0, description, false), ToDoId, ToDoWithId);
    var (saved, after) := SaveAll(s.(todos := todos));
    (AfterSave(saved, added.id), after)
  }

  /** `UpdateAsync`: a missing id answers false; otherwise only the description is rewritten. */
  function UpdateOutcome(s: ContextState, id: int, description: string): (Result<bool>, ContextState) {
    match FindRow(s.todos.rows, ToDoId, id)
    case None => (Ok(false), s)
    case Some(t) =>
      var (saved, after) := SaveAll(s.(todos := Stage(s.todos, Modified(t.(description := description)))));
      (AfterSave(saved, true), after)
  }

  /** `DeleteAsync`: a missing id answers false; otherwise the row is removed. */
  function DeleteOutcome(s: ContextState, id: int): (Result<bool>, ContextState) {
    match FindRow(s.todos.rows, ToDoId, id)
    case None => (Ok(false), s)
    case Some(t) =>
      var (saved, after) := SaveAll(s.(todos := Stage(s.todos, Removed(t.id))));
      (AfterSave(saved, true), after)
  }

  /** `CompleteAsync`: a missing id answers false; otherwise the row is marked completed. */
  function CompleteOutcome(s: ContextState, id: int): (Result<bool>, ContextState) {
    match FindRow(s.todos.rows, ToDoId, id)
    case None => (Ok(false), s)
    case Some(t) =>
      var (saved, after) := SaveAll(s.(todos := Stage(s.todos, Modified(t.(isCompleted := true)))));
      (AfterSave(saved, true), after)
  }

  function Incomplete(): ToDo -> bool {
    (t: ToDo) => !t.isCompleted
  }

  /**
   * On a clean context whose next identity value is unused, posting stores exactly
   * one new row, with the given description, not completed, and answers its id.
   */
  lemma PostCreatesIncomplete(s: ContextState, description: string)
    requires Clean(s) && FindRow(s.todos.rows, ToDoId, s.todos.nextId).None?
    ensures PostOutcome(s, description).0 == Ok(s.todos.nextId)
    ensures var after := PostOutcome(s, description).1;
      after.todos.rows == s.todos.rows + [ToDo(s.todos.nextId, description, false)]
      && after.todos.pending == [] && after.todos.nextId == s.todos.nextId + 1
      && after.students == s.students && after.schools == s.schools
  {
    var (added, todos) := StageAdd(s.todos, ToDo(0, description, false), ToDoId, ToDoWithId);
    assert added == ToDo(s.todos.nextId, description, false);
    SaveToDoChange(s.(todos := todos), Added(added));
  }

  /** A missing id answers false and leaves the whole context as it was. */
  lemma MissingIdChangesNothing(s: ContextState, id: int, description: string)
    requires FindRow(s.todos.rows, ToDoId, id).None?
    ensures UpdateOutcome(s, id, description) == (Ok(false), s)
    ensures DeleteOutcome(s, id) == (Ok(false), s)
    ensures CompleteOutcome(s, id) == (Ok(false), s)
  {
  }

  /** Updating rewrites the description of the row with that id and nothing else. */
  lemma UpdateChangesOnlyDescription(s: ContextState, id: int, description: string)
    requires Clean(s) && FindRow(s.todos.rows, ToDoId, id).Some?
    ensures UpdateOutcome(s, id, description).0 == Ok(true)
    ensures var k := IndexOf(s.todos.rows, ToDoId, id);
      var after := UpdateOutcome(s, id, description).1;
      after.todos.rows == s.todos.rows[k := ToDo(id, description, s.todos.rows[k].isCompleted)]
      && after.students == s.students && after.schools == s.schools
  {
    var t := FindRow(s.todos.rows, ToDoId, id).value;
    SaveToDoChange(s.(todos := Stage(s.todos, Modified(t.(description := description)))), Modified(t.(description := description)));
  }

  /** Deleting removes the row with that id and keeps every other row. */
  lemma DeleteRemovesOnlyTarget(s: ContextState, id: int)
    requires Clean(s) && DistinctIds(s.todos.rows, ToDoId) && FindRow(s.todos.rows, ToDoId, id).Some?
    ensures DeleteOutcome(s, id).0 == Ok(true)
    ensures var after := DeleteOutcome(s, id).1;
      |after.todos.rows| == |s.todos.rows| - 1
      && (forall x :: x in after.todos.rows ==> x in s.todos.rows && x.id != id)
      && (forall x :: x in s.todos.rows && x.id != id ==> x in after.todos.rows)
      && after.students == s.students && after.schools == s.schools
  {
    var k := IndexOf(s.todos.rows, ToDoId, id);
    SaveToDoChange(s.(todos := Stage(s.todos, Removed(id))), Removed(id));
    RemoveAtMembers(s.todos.rows, ToDoId, k);
  }

  /** Completing marks the row completed; completing it again answers true and changes nothing. */
  lemma CompleteIdempotent(s: ContextState, id: int)
    requires Clean(s) && FindRow(s.todos.rows, ToDoId, id).Some?
    ensures CompleteOutcome(s, id).0 == Ok(true)
    ensures var k := IndexOf(s.todos.rows, ToDoId, id);
      CompleteOutcome(s, id).1.todos.rows == s.todos.rows[k := s.todos.rows[k].(isCompleted := true)]
    ensures var s1 := CompleteOutcome(s, id).1;
      CompleteOutcome(s1, id) == (Ok(true), s1)
  {
    var rows := s.todos.rows;
    var k := IndexOf(rows, ToDoId, id);
    var done := rows[k].(isCompleted := true);
    SaveToDoChange(s.(todos := Stage(s.todos, Modified(done))), Modified(done));
    var s1 := CompleteOutcome(s, id).1;
    assert s1.todos.rows == rows[k := done];
    IndexOfUpdate(rows, ToDoId, id, done);
    assert FindRow(s1.todos.rows, ToDoId, id) == Some(done);
    SaveToDoChange(s1.(todos := Stage(s1.todos, Modified(done))), Modified(done));
    assert rows[k := done][k := done] == rows[k := done];
  }

  class ToDoServiceWithRepository {
    const uow: UnitOfWork

    ghost predicate Valid()
      reads uow, uow.Repr()
    {
      uow.Valid() && !uow.disposed
    }

    constructor (uow: UnitOfWork)
      requires uow.Valid() && !uow.disposed
      ensures Valid() && this.uow == uow
    {
      this.uow := uow;
    }

    method PostAsync(toDo: ToDoView) returns (r: Result<int>)
      requires Valid()
      modifies uow.context.students, uow.context.schools, uow.context.todos, uow`log
      ensures Valid()
      ensures (r, uow.context.State()) == PostOutcome(old(uow.context.State()), toDo.description)
    {
      var data := ToDo(0, toDo.description, false);
      var added := uow.context.todos.Add(data);
      var saved := uow.SaveChangesAsync();
      r := AfterSave(saved, added.id);
    }

    method Post(toDo: ToDoView) returns (r: Result<int>)
      requires Valid()
      modifies uow.context.students, uow.context.schools, uow.context.todos, uow`log
      ensures Valid()
      ensures (r, uow.context.State()) == PostOutcome(old(uow.context.State()), toDo.description)
    {
      var data := ToDo(0, toDo.description, false);
      var added := uow.context.todos.Add(data);
      var saved := uow.SaveChanges();
      r := AfterSave(saved, added.id);
    }

    method GetByIdAsync(id: int) returns (r: Option<ToDo>)
      requires Valid()
      ensures r.Some? ==> r.value in uow.context.todos.rows && r.value.id == id
      ensures r.None? <==> forall i :: 0 <= i < |uow.context.todos.rows| ==> uow.context.todos.rows[i].id != id
    {
      r := uow.context.todos.Find(id);
    }

    method GetAllAsync() returns (r: seq<ToDo>)
      requires Valid()
      ensures r == uow.context.todos.rows
    {
      r := uow.context.todos.rows;
    }

    /** Exactly the to-dos that are not completed, in store order. */
    method GetAllIncompleteAsync() returns (r: seq<ToDo>)
      requires Valid()
      ensures r == Where(uow.context.todos.rows, Incomplete())
      ensures forall t :: t in r ==> t in uow.context.todos.rows && !t.isCompleted
      ensures forall t :: t in uow.context.todos.rows && !t.isCompleted ==> t in r
    {
      r := Where(uow.context.todos.rows, Incomplete());
    }

    method UpdateAsync(id: int, toDo: ToDoView) returns (r: Result<bool>)
      requires Valid()
      modifies uow.context.students, uow.context.schools, uow.context.todos, uow`log
      ensures Valid()
      ensures (r, uow.context.State()) == UpdateOutcome(old(uow.context.State()), id, toDo.description)
      ensures r == Ok(false) ==> uow.log == old(uow.log)
    {
      var existing := uow.context.todos.Find(id);
      if existing.None? {
        return Ok(false);
      }
      var changed := existing.value.(description := toDo.description);
      uow.context.todos.Update(changed);
      var saved := uow.SaveChangesAsync();
      r := AfterSave(saved, true);
    }

    method DeleteAsync(id: int) returns (r: Result<bool>)
      requires Valid()
      modifies uow.context.students, uow.context.schools, uow.context.todos, uow`log
      ensures Valid()
      ensures (r, uow.context.State()) == DeleteOutcome(old(uow.context.State()), id)
      ensures r == Ok(false) ==> uow.log == old(uow.log)
    {
      var existing := uow.context.todos.Find(id);
      if existing.None? {
        return Ok(false);
      }
      uow.context.todos.Remove(existing.value.id);
      var saved := uow.SaveChangesAsync();
      r := AfterSave(saved, true);
    }

    method CompleteAsync(id: int) returns (r: Result<bool>)
      requires Valid()
      modifies uow.context.students, uow.context.schools, uow.context.todos, uow`log
      ensures Valid()
      ensures (r, uow.context.State()) == CompleteOutcome(old(uow.context.State()), id)
      ensures r == Ok(false) ==> uow.log == old(uow.log)
    {
      var existing := uow.context.todos.Find(id);
      if existing.None? {
        return Ok(false);
      }
      var changed := existing.value.(isCompleted := true);
      uow.context.todos.Update(changed);
      var saved := uow.SaveChangesAsync();
      r := AfterSave(saved, true);
    }
  }
}
