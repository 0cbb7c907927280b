/**
 * `GenericRepository<T>`: the five repository operations over one entity set;
 * every write stages its change and saves at once.
 */
module GenericRepository {
  import opened Wrappers
  import opened Store

  /** The calls a repository receives, in order, for the decorators' contracts. */
  datatype Call<T> =
    | GetAllCall(filterId: Option<int>, navigation: Option<string>)
    | GetByIdCall(id: int)
    | AddCall(entity: T)
    | UpdateCall(entity: T)
    | DeleteCall(id: int)

  /** `Where(c => c.Id == id)`: the rows with that id, in store order. */
  function RowsWithId<T>(rows: seq<T>, idOf: T -> int, id: int): (r: seq<T>)
    ensures |r| <= |rows|
    ensures forall x :: x in r ==> x in rows && idOf(x) == id
    ensures forall x :: x in rows && idOf(x) == id ==> x in r
  {
    if rows == [] then []
    else if idOf(rows[0]) == id then [rows[0]] + RowsWithId(rows[1..], idOf, id)
    else RowsWithId(rows[1..], idOf, id)
  }

  /** GetAllAsync: every row when no id is given, else the rows with that id; no status filter. */
  function GetAll<T>(rows: seq<T>, idOf: T -> int, id: Option<int>): (r: seq<T>)
    ensures id.None? ==> r == rows
    ensures id.Some? ==> forall x :: x in r ==> x in rows && idOf(x) == id.value
    ensures id.Some? ==> forall x :: x in rows && idOf(x) == id.value ==> x in r
  {
    if id.Some? then RowsWithId(rows, idOf, id.value) else rows
  }

  /** With distinct ids, GetAllAsync(id) is the row GetByIdAsync(id) finds, or empty. */
  lemma {:induction false} GetAllById<T>(rows: seq<T>, idOf: T -> int, id: int)
    requires DistinctIds(rows, idOf)
    ensures GetAll(rows, idOf, Some(id)) ==
      match FindRow(rows, idOf, id) case None => [] case Some(x) => [x]
  {
    if rows != [] {
      var tail := rows[1..];
      assert DistinctIds(tail, idOf) by {
        forall i, j | 0 <= i < j < |tail| ensures idOf(tail[i]) != idOf(tail[j]) {
          assert tail[i] == rows[i + 1] && tail[j] == rows[j + 1];
        }
      }
      GetAllById(tail, idOf, id);
      if idOf(rows[0]) == id {
        forall i | 0 <= i < |tail| ensures idOf(tail[i]) != id {
          assert tail[i] == rows[i + 1];
        }
        assert FindRow(tail, idOf, id).None?;
      } else {
        assert IndexOf(rows, idOf, id) == (var k := IndexOf(tail, idOf, id); if k < 0 then -1 else k + 1);
      }
    }
  }

  /** AddAsync: stage the insert, save, and answer the entity's id. */
  function AddOutcome<T>(st: TableState<T>, e: T, idOf: T -> int, withId: (T, int) -> T): (Result<int>, TableState<T>) {
    var (added, staged) := StageAdd(st, e, idOf, withId);
    var (saved, after) := Save(staged, idOf);
    (if saved.Ok? then Ok(idOf(added)) else Err(saved.error), after)
  }

  /**
   * The change `DbSet.Update` stages: an entity whose generated key is set is
   * tracked as Modified, one whose key is unset (0) as Added under the next
   * identity value.
   */
  function StageUpdate<T>(st: TableState<T>, e: T, idOf: T -> int, withId: (T, int) -> T): TableState<T> {
    if idOf(e) == 0 then StageAdd(st, e, idOf, withId).1 else Stage(st, Modified(e))
  }

  /** UpdateAsync: stage the update, save, and answer the number of rows written. */
  function UpdateOutcome<T>(st: TableState<T>, e: T, idOf: T -> int, withId: (T, int) -> T): (Result<int>, TableState<T>) {
    Save(StageUpdate(st, e, idOf, withId), idOf)
  }

  /** DeleteAsync: "T not found." for a missing id; else stage the removal and save. */
  function DeleteOutcome<T>(st: TableState<T>, id: int, idOf: T -> int): (Result<int>, TableState<T>) {
    if FindRow(st.rows, idOf, id).None? then (Err(NotFound("T not found.")), st)
    else Save(Stage(st, Removed(id)), idOf)
  }

  /** An insert with a fresh id is persisted at the end of the set and its id answered. */
  lemma AddPersists<T>(st: TableState<T>, e: T, idOf: T -> int, withId: (T, int) -> T)
    requires st.pending == []
    requires FindRow(st.rows, idOf, idOf(StageAdd(st, e, idOf, withId).0)).None?
    ensures var added := StageAdd(st, e, idOf, withId).0;
      AddOutcome(st, e, idOf, withId) ==
        (Ok(idOf(added)), TableState(st.rows + [added], [], StageAdd(st, e, idOf, withId).1.nextId))
  {
    var (added, staged) := StageAdd(st, e, idOf, withId);
    ApplySingle(st.rows, idOf, Added(added));
    assert staged.pending == [Added(added)];
    assert IndexOf(st.rows, idOf, idOf(added)) < 0;
    assert ApplyChange(st.rows, idOf, Added(added)) == Ok(st.rows + [added]);
    assert Save(staged, idOf) == (Ok(1), TableState(st.rows + [added], [], staged.nextId));
  }

  /** An insert whose id is already stored fails, stores nothing, and stays tracked. */
  lemma AddDuplicate<T>(st: TableState<T>, e: T, idOf: T -> int, withId: (T, int) -> T)
    requires st.pending == []
    requires FindRow(st.rows, idOf, idOf(StageAdd(st, e, idOf, withId).0)).Some?
    ensures var (added, staged) := StageAdd(st, e, idOf, withId);
      AddOutcome(st, e, idOf, withId) == (Err(DuplicateKey(idOf(added))), staged)
  {
    var (added, staged) := StageAdd(st, e, idOf, withId);
    ApplySingle(st.rows, idOf, Added(added));
    assert staged.pending == [Added(added)];
    assert Save(staged, idOf) == (Err(DuplicateKey(idOf(added))), staged);
  }

  /** An update of a stored row replaces that row and answers the count 1, not the id. */
  lemma UpdateCount<T>(st: TableState<T>, e: T, idOf: T -> int, withId: (T, int) -> T)
    requires st.pending == [] && idOf(e) != 0 && FindRow(st.rows, idOf, idOf(e)).Some?
    ensures UpdateOutcome(st, e, idOf, withId) ==
      (Ok(1), TableState(st.rows[IndexOf(st.rows, idOf, idOf(e)) := e], [], st.nextId))
  {
    ApplySingle(st.rows, idOf, Modified(e));
    assert Stage(st, Modified(e)).pending == [Modified(e)];
  }

  /**
   * An update of an entity whose key is unset inserts it under the next identity
   * value, appended to the set, and answers the count 1: it overwrites nothing.
   */
  lemma UpdateUnsetKeyInserts<T>(st: TableState<T>, e: T, idOf: T -> int, withId: (T, int) -> T)
    requires st.pending == [] && idOf(e) == 0
    requires FindRow(st.rows, idOf, idOf(withId(e, st.nextId))).None?
    ensures UpdateOutcome(st, e, idOf, withId) ==
      (Ok(1), TableState(st.rows + [withId(e, st.nextId)], [], st.nextId + 1))
  {
    var added := withId(e, st.nextId);
    ApplySingle(st.rows, idOf, Added(added));
    assert StageUpdate(st, e, idOf, withId).pending == [Added(added)];
    assert IndexOf(st.rows, idOf, idOf(added)) < 0;
  }

  /** A missing id is refused with "T not found." and nothing changes. */
  lemma DeleteMissing<T>(st: TableState<T>, id: int, idOf: T -> int)
    requires forall i :: 0 <= i < |st.rows| ==> idOf(st.rows[i]) != id
    ensures DeleteOutcome(st, id, idOf) == (Err(NotFound("T not found.")), st)
  {
  }

  /** A stored id is removed, and only that row; the answer is the count 1, not the id. */
  lemma DeletePresent<T>(st: TableState<T>, id: int, idOf: T -> int)
    requires DistinctIds(st.rows, idOf) && st.pending == [] && FindRow(st.rows, idOf, id).Some?
    ensures DeleteOutcome(st, id, idOf).0 == Ok(1)
    ensures var after := DeleteOutcome(st, id, idOf).1;
      after.pending == [] && |after.rows| == |st.rows| - 1
      && (forall x :: x in after.rows ==> x in st.rows && idOf(x) != id)
      && (forall x :: x in st.rows && idOf(x) != id ==> x in after.rows)
  {
    var k := IndexOf(st.rows, idOf, id);
    ApplySingle(st.rows, idOf, Removed(id));
    assert Stage(st, Removed(id)).pending == [Removed(id)];
    assert DeleteOutcome(st, id, idOf) == (Ok(1), TableState(RemoveAt(st.rows, k), [], st.nextId));
    RemoveAtMembers(st.rows, idOf, k);
  }

  class GenericRepository<T> {
    const table: Table<T>
    ghost var calls: seq<Call<T>>

    ghost predicate Valid()
      reads this, table
    {
      table.Valid()
    }

    constructor (table: Table<T>)
      ensures this.table == table && calls == []
    {
      this.table := table;
      calls := [];
    }

    /** The `include` argument (here `navigation`) is accepted and never used. */
    method GetAllAsync(id: Option<int>, navigation: Option<string>) returns (r: seq<T>)
      modifies this`calls
      ensures r == GetAll(table.rows, table.idOf, id)
      ensures calls == old(calls) + [GetAllCall(id, navigation)]
    {
      calls := calls + [GetAllCall(id, navigation)];
      if id.Some? {
        r := RowsWithId(table.rows, table.idOf, id.value);
        if r == [] {
          return [];
        }
      } else {
        r := table.rows;
      }
    }

    /** `FindAsync`: the stored entity with that id, or null. */
    method GetByIdAsync(id: int) returns (r: Option<T>)
      modifies this`calls
      ensures r == FindRow(table.rows, table.idOf, id)
      ensures calls == old(calls) + [GetByIdCall(id)]
    {
      calls := calls + [GetByIdCall(id)];
      r := table.Find(id);
    }

    method AddAsync(e: T) returns (r: Result<int>)
      requires Valid()
      modifies table, this`calls
      ensures Valid()
      ensures (r, table.State()) == AddOutcome(old(table.State()), e, table.idOf, table.withId)
      ensures calls == old(calls) + [AddCall(e)]
    {
      calls := calls + [AddCall(e)];
      var added := table.Add(e);
      var saved := table.SaveChanges();
      r := if saved.Ok? then Ok(table.idOf(added)) else Err(saved.error);
    }

    method UpdateAsync(e: T) returns (r: Result<int>)
      requires Valid()
      modifies table, this`calls
      ensures Valid()
      ensures (r, table.State()) == UpdateOutcome(old(table.State()), e, table.idOf, table.withId)
      ensures calls == old(calls) + [UpdateCall(e)]
    {
      calls := calls + [UpdateCall(e)];
      if table.idOf(e) == 0 {
        // `_dbSet.Update` tracks an entity with an unset key as Added.
        var _ := table.Add(e);
      } else {
        table.Update(e);
      }
      r := table.SaveChanges();
    }

    method DeleteAsync(id: int) returns (r: Result<int>)
      requires Valid()
      modifies table, this`calls
      ensures Valid()
      ensures (r, table.State()) == DeleteOutcome(old(table.State()), id, table.idOf)
      ensures calls == old(calls) + [DeleteCall(id)]
    {
      calls := calls + [DeleteCall(id)];
      var found := table.Find(id);
      if found.None? {
        return Err(NotFound("T not found."));
      }
      table.Remove(id);
      r := table.SaveChanges();
    }
  }
}
