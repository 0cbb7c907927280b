/**
 * `CachedRepository<T>`: a read-through memory cache in front of a generic
 * repository. Three key shapes are in use: `"{FullName}_{id}"` (GetByIdAsync,
 * GetAllAsync with an id, UpdateAsync), `"{FullName}All"` (GetAllAsync without an
 * id) and the bare `id.ToString()` (AddAsync, DeleteAsync).
 */
module CachedRepository {
  import opened Wrappers
  import opened Text
  import opened Entities
  import opened Store
  import opened Caching
  import opened GenericRepository

  /** What a key holds: a single, possibly null, entity or an enumeration of them. */
  datatype CacheValue<T> = Single(item: Option<T>) | Many(items: seq<T>)

  type Entries<T> = map<string, CacheValue<T>>

  /** `GetKeyFromId`. */
  function KeyFromId(t: EntityType, id: int): string {
    FullName(t) + "_" + IntToString(id)
  }

  function AllKey(t: EntityType): string {
    FullName(t) + "All"
  }

  function BareKey(id: int): string {
    IntToString(id)
  }

  /** The three key shapes never collide with one another. */
  lemma KeysDistinct(t: EntityType, a: int, b: int)
    ensures KeyFromId(t, a) != AllKey(t)
    ensures BareKey(b) != KeyFromId(t, a) && BareKey(b) != AllKey(t)
  {
    var n := |FullName(t)|;
    assert KeyFromId(t, a)[n] == '_' && AllKey(t)[n] == 'A';
    assert KeyFromId(t, a)[0] == 'T' && AllKey(t)[0] == 'T';
    assert IsDigit(BareKey(b)[0]) || BareKey(b)[0] == '-';
  }

  /** Distinct ids of one entity type have distinct keys. */
  lemma KeyFromIdInjective(t: EntityType, a: int, b: int)
    requires KeyFromId(t, a) == KeyFromId(t, b)
    ensures a == b
  {
    var n := |FullName(t) + "_"|;
    assert IntToString(a) == KeyFromId(t, a)[n..];
    assert IntToString(b) == KeyFromId(t, b)[n..];
    IntToStringInjective(a, b);
  }

  /**
   * GetByIdAsync on the cache as it is: a hit answers the cached single value
   * (an enumeration under the key fails the cast); a miss asks the wrapped
   * repository and caches its answer, null included.
   */
  function GetByIdStep<T>(entries: Entries<T>, t: EntityType, rows: seq<T>, idOf: T -> int, id: int)
    : (r: (Result<Option<T>>, Entries<T>))
    ensures KeyFromId(t, id) in r.1
    ensures r.0.Ok? ==> r.1[KeyFromId(t, id)] == Single(r.0.value)
    ensures KeyFromId(t, id) in entries ==> r.1 == entries
    ensures KeyFromId(t, id) !in entries ==> r.0 == Ok(FindRow(rows, idOf, id))
  {
    var key := KeyFromId(t, id);
    if key in entries then
      match entries[key]
      case Single(item) => (Ok(item), entries)
      case Many(_) => (Err(InvalidCast), entries)
    else
      var found := FindRow(rows, idOf, id);
      (Ok(found), entries[key := Single(found)])
  }

  function GetAllKey(t: EntityType, id: Option<int>): string {
    if id.Some? then KeyFromId(t, id.value) else AllKey(t)
  }

  /**
   * GetAllAsync on the cache as it is: a hit answers the cached enumeration; a
   * cached null single value becomes the empty sequence; a cached entity fails
   * the cast. A miss asks the wrapped repository and caches its answer.
   */
  function GetAllStep<T>(entries: Entries<T>, t: EntityType, rows: seq<T>, idOf: T -> int, id: Option<int>)
    : (r: (Result<seq<T>>, Entries<T>))
    ensures GetAllKey(t, id) in r.1
    ensures GetAllKey(t, id) in entries ==> r.1 == entries
    ensures GetAllKey(t, id) in entries && entries[GetAllKey(t, id)].Many? ==> r.0 == Ok(entries[GetAllKey(t, id)].items)
    ensures GetAllKey(t, id) in entries && entries[GetAllKey(t, id)] == Single(None) ==> r.0 == Ok([])
    ensures GetAllKey(t, id) in entries && entries[GetAllKey(t, id)].Single? && entries[GetAllKey(t, id)].item.Some? ==>
              r.0 == Err(InvalidCast)
    ensures GetAllKey(t, id) !in entries ==> r == (Ok(GetAll(rows, idOf, id)), entries[GetAllKey(t, id) := Many(GetAll(rows, idOf, id))])
  {
    var key := GetAllKey(t, id);
    if key in entries then
      match entries[key]
      case Many(items) => (Ok(items), entries)
      case Single(None) => (Ok([]), entries)
      case Single(Some(_)) => (Err(InvalidCast), entries)
    else
      var all := GetAll(rows, idOf, id);
      (Ok(all), entries[key := Many(all)])
  }

  /** AddAsync's cache effect: the entity under its bare id, before the insert assigns one. */
  function AddEntries<T>(entries: Entries<T>, idOf: T -> int, e: T): Entries<T> {
    entries[BareKey(idOf(e)) := Single(Some(e))]
  }

  /** UpdateAsync's cache effect. */
  function UpdateEntries<T>(entries: Entries<T>, t: EntityType, idOf: T -> int, e: T): Entries<T> {
    entries - {KeyFromId(t, idOf(e))}
  }

  /** DeleteAsync's cache effect. */
  function DeleteEntries<T>(entries: Entries<T>, id: int): Entries<T> {
    entries - {BareKey(id)}
  }

  /** A read that succeeded is answered again from the cache, whatever the store now holds. */
  lemma GetByIdRepeats<T>(entries: Entries<T>, t: EntityType, rows: seq<T>, later: seq<T>, idOf: T -> int, id: int)
    requires GetByIdStep(entries, t, rows, idOf, id).0.Ok?
    ensures var (r, after) := GetByIdStep(entries, t, rows, idOf, id);
      GetByIdStep(after, t, later, idOf, id) == (r, after)
  {
  }

  /** An enumeration that succeeded is answered again from the cache, whatever the store now holds. */
  lemma GetAllRepeats<T>(entries: Entries<T>, t: EntityType, rows: seq<T>, later: seq<T>, idOf: T -> int, id: Option<int>)
    requires GetAllStep(entries, t, rows, idOf, id).0.Ok?
    ensures var (r, after) := GetAllStep(entries, t, rows, idOf, id);
      GetAllStep(after, t, later, idOf, id).0 == r && GetAllStep(after, t, later, idOf, id).1 == after
  {
  }

  /** A miss that found nothing caches null: later reads say null even once the row exists. */
  lemma {:induction false} NullSticks<T>(entries: Entries<T>, t: EntityType, rows: seq<T>, later: seq<T>, idOf: T -> int, id: int)
    requires KeyFromId(t, id) !in entries && FindRow(rows, idOf, id).None?
    ensures GetByIdStep(GetByIdStep(entries, t, rows, idOf, id).1, t, later, idOf, id).0 == Ok(None)
  {
    GetByIdRepeats(entries, t, rows, later, idOf, id);
  }

  /** After UpdateAsync the next GetByIdAsync of that entity reads the store again. */
  lemma {:induction false} UpdateThenGetById<T>(entries: Entries<T>, t: EntityType, rows: seq<T>, idOf: T -> int, e: T)
    ensures GetByIdStep(UpdateEntries(entries, t, idOf, e), t, rows, idOf, idOf(e)).0 == Ok(FindRow(rows, idOf, idOf(e)))
  {
  }

  /** DeleteAsync evicts the bare key only, so a cached entity outlives its deletion. */
  lemma {:induction false} DeleteLeavesStaleEntity<T>(entries: Entries<T>, t: EntityType, rows: seq<T>, later: seq<T>, idOf: T -> int, id: int)
    requires GetByIdStep(entries, t, rows, idOf, id).0.Ok?
    ensures var (r, after) := GetByIdStep(entries, t, rows, idOf, id);
      GetByIdStep(DeleteEntries(after, id), t, later, idOf, id).0 == r
  {
    KeysDistinct(t, id, id);
    var (r, after) := GetByIdStep(entries, t, rows, idOf, id);
    assert DeleteEntries(after, id)[KeyFromId(t, id)] == after[KeyFromId(t, id)];
  }

  /** AddAsync and DeleteAsync leave every key that GetByIdAsync and GetAllAsync read as it was. */
  lemma {:induction false} BareKeyWritesInvisible<T>(entries: Entries<T>, t: EntityType, idOf: T -> int, e: T, id: int, k: int)
    ensures var key := KeyFromId(t, k);
      (key in AddEntries(entries, idOf, e) <==> key in entries)
      && (key in entries ==> AddEntries(entries, idOf, e)[key] == entries[key])
      && (key in DeleteEntries(entries, id) <==> key in entries)
      && (key in entries ==> DeleteEntries(entries, id)[key] == entries[key])
    ensures var key := AllKey(t);
      (key in AddEntries(entries, idOf, e) <==> key in entries)
      && (key in entries ==> AddEntries(entries, idOf, e)[key] == entries[key])
      && (key in DeleteEntries(entries, id) <==> key in entries)
      && (key in entries ==> DeleteEntries(entries, id)[key] == entries[key])
  {
    KeysDistinct(t, k, idOf(e));
    KeysDistinct(t, k, id);
  }

  /** No write removes or changes the `"{FullName}All"` entry. */
  lemma {:induction false} AllKeySurvivesWrites<T>(entries: Entries<T>, t: EntityType, idOf: T -> int, e: T, id: int)
    requires AllKey(t) in entries
    ensures AddEntries(entries, idOf, e)[AllKey(t)] == entries[AllKey(t)]
    ensures AllKey(t) in UpdateEntries(entries, t, idOf, e)
      && UpdateEntries(entries, t, idOf, e)[AllKey(t)] == entries[AllKey(t)]
    ensures AllKey(t) in DeleteEntries(entries, id) && DeleteEntries(entries, id)[AllKey(t)] == entries[AllKey(t)]
  {
    KeysDistinct(t, idOf(e), idOf(e));
    KeysDistinct(t, idOf(e), id);
  }

  /** A null that GetByIdAsync cached is read by GetAllAsync(id) as the empty sequence. */
  lemma {:induction false} GetAllReadsNullAsEmpty<T>(entries: Entries<T>, t: EntityType, rows: seq<T>, later: seq<T>, idOf: T -> int, id: int)
    requires KeyFromId(t, id) !in entries && FindRow(rows, idOf, id).None?
    ensures var after := GetByIdStep(entries, t, rows, idOf, id).1;
      GetAllStep(after, t, later, idOf, Some(id)) == (Ok([]), after)
  {
  }

  /** A found entity that GetByIdAsync cached makes GetAllAsync(id) fail the cast. */
  lemma {:induction false} GetAllAfterGetByIdFails<T>(entries: Entries<T>, t: EntityType, rows: seq<T>, later: seq<T>, idOf: T -> int, id: int)
    requires KeyFromId(t, id) !in entries && FindRow(rows, idOf, id).Some?
    ensures var after := GetByIdStep(entries, t, rows, idOf, id).1;
      GetAllStep(after, t, later, idOf, Some(id)).0 == Err(InvalidCast)
  {
  }

  class CachedRepository<T> {
    const entityType: EntityType
    const cache: MemoryCache<CacheValue<T>>
    const decoratee: GenericRepository<T>

    ghost predicate Valid()
      reads this, decoratee, decoratee.table
    {
      decoratee.Valid()
    }

    constructor (entityType: EntityType, cache: MemoryCache<CacheValue<T>>, decoratee: GenericRepository<T>)
      ensures this.entityType == entityType && this.cache == cache && this.decoratee == decoratee
    {
      this.entityType := entityType;
      this.cache := cache;
      this.decoratee := decoratee;
    }

    /** On a hit the wrapped repository is not called; on a miss it is called once. */
    method GetByIdAsync(id: int) returns (r: Result<Option<T>>)
      modifies cache, decoratee`calls
      ensures (r, cache.entries) ==
        GetByIdStep(old(cache.entries), entityType, decoratee.table.rows, decoratee.table.idOf, id)
      ensures decoratee.calls ==
        old(decoratee.calls) + if KeyFromId(entityType, id) in old(cache.entries) then [] else [GetByIdCall(id)]
    {
      var key := KeyFromId(entityType, id);
      var hit := cache.TryGetValue(key);
      if hit.Some? {
        r := if hit.value.Single? then Ok(hit.value.item) else Err(InvalidCast);
      } else {
        var found := decoratee.GetByIdAsync(id);
        cache.Set(key, Single(found));
        r := Ok(found);
      }
    }

    method GetAllAsync(id: Option<int>, navigation: Option<string>) returns (r: Result<seq<T>>)
      modifies cache, decoratee`calls
      ensures (r, cache.entries) ==
        GetAllStep(old(cache.entries), entityType, decoratee.table.rows, decoratee.table.idOf, id)
      ensures decoratee.calls ==
        old(decoratee.calls) + if GetAllKey(entityType, id) in old(cache.entries) then [] else [GetAllCall(id, navigation)]
    {
      var key := if id.Some? then KeyFromId(entityType, id.value) else AllKey(entityType);
      var hit := cache.TryGetValue(key);
      if hit.Some? {
        match hit.value
        case Many(items) => r := Ok(items);
        case Single(None) => r := Ok([]);
        case Single(Some(_)) => r := Err(InvalidCast);
      } else {
        var all := decoratee.GetAllAsync(id, navigation);
        cache.Set(key, Many(all));
        r := Ok(all);
      }
    }

    /** The cache is written first, then the wrapped repository is called once and its answer returned. */
    method AddAsync(e: T) returns (r: Result<int>)
      requires Valid()
      modifies cache, decoratee.table, decoratee`calls
      ensures Valid()
      ensures cache.entries == AddEntries(old(cache.entries), decoratee.table.idOf, e)
      ensures (r, decoratee.table.State()) ==
        AddOutcome(old(decoratee.table.State()), e, decoratee.table.idOf, decoratee.table.withId)
      ensures decoratee.calls == old(decoratee.calls) + [AddCall(e)]
    {
      cache.Set(BareKey(decoratee.table.idOf(e)), Single(Some(e)));
      r := decoratee.AddAsync(e);
    }

    method DeleteAsync(id: int) returns (r: Result<int>)
      requires Valid()
      modifies cache, decoratee.table, decoratee`calls
      ensures Valid()
      ensures cache.entries == DeleteEntries(old(cache.entries), id)
      ensures (r, decoratee.table.State()) == DeleteOutcome(old(decoratee.table.State()), id, decoratee.table.idOf)
      ensures decoratee.calls == old(decoratee.calls) + [DeleteCall(id)]
    {
      cache.Remove(BareKey(id));
      r := decoratee.DeleteAsync(id);
    }

    method UpdateAsync(e: T) returns (r: Result<int>)
      requires Valid()
      modifies cache, decoratee.table, decoratee`calls
      ensures Valid()
      ensures cache.entries == UpdateEntries(old(cache.entries), entityType, decoratee.table.idOf, e)
      ensures (r, decoratee.table.State()) == UpdateOutcome(old(decoratee.table.State()), e, decoratee.table.idOf, decoratee.table.withId)
      ensures decoratee.calls == old(decoratee.calls) + [UpdateCall(e)]
    {
      cache.Remove(KeyFromId(entityType, decoratee.table.idOf(e)));
      r := decoratee.UpdateAsync(e);
    }
  }
}
