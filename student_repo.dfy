/**
 * `StudentRepo.StudentRepository` and `StudentRepo.CachedStudentRepository`: the
 * student queries with sort and paging, and a cache of the full student list
 * keyed by the include expression.
 */
module StudentRepo {
  import opened Wrappers
  import opened Text
  import opened Entities
  import opened Store
  import opened Caching
  import opened StudentQuery

  /** The calls the student repository receives, for the decorator's contracts. */
  datatype StudentCall =
    | GetStudentsCall(studentId: Option<int>, expression: string)
    | GetPagedStudentsCall(schoolId: Option<int>, sortBy: Option<string>, descending: bool,
                           pageSize: Option<int>, pageIndex: Option<int>)

  /** GetPagedStudentsAsync: filter, then ApplySort with the parsed selectors, then ApplyPaging with the defaults. */
  function PagedStudents(rows: seq<Student>, schoolId: Option<int>, sortBy: Option<string>, descending: bool,
                         pageSize: Option<int>, pageIndex: Option<int>): Plan
  {
    var (index, size) := NormalisePaging(pageIndex, pageSize);
    Paged(Sorted(Rows(StudentsOfSchool(rows, schoolId)), descending, ParseSortBy(sortBy)), index, size)
  }

  class StudentRepository {
    const students: Table<Student>
    ghost var calls: seq<StudentCall>

    constructor (students: Table<Student>)
      ensures this.students == students && calls == []
    {
      this.students := students;
      calls := [];
    }

    /** The students that are not Deleted, and with an id only that one; the include `expression` loads related data. */
    method GetStudentsAsync(studentId: Option<int>, expression: string) returns (r: seq<Student>)
      modifies this`calls
      ensures r == VisibleStudents(students.rows, studentId)
      ensures calls == old(calls) + [GetStudentsCall(studentId, expression)]
    {
      calls := calls + [GetStudentsCall(studentId, expression)];
      r := VisibleStudents(students.rows, studentId);
    }

    /** The selector list and the paging values are worked out step by step, as the query is built. */
    method GetPagedStudentsAsync(schoolId: Option<int>, sortBy: Option<string>, descending: bool,
                                 pageSize: Option<int>, pageIndex: Option<int>) returns (r: Plan)
      modifies this`calls
      ensures r == PagedStudents(students.rows, schoolId, sortBy, descending, pageSize, pageIndex)
      ensures r.Paged? && r.source.Sorted? && r.source.keys == ParseSortBy(sortBy)
      ensures (r.pageIndex, r.pageSize) == NormalisePaging(pageIndex, pageSize)
      ensures calls == old(calls) + [GetPagedStudentsCall(schoolId, sortBy, descending, pageSize, pageIndex)]
    {
      calls := calls + [GetPagedStudentsCall(schoolId, sortBy, descending, pageSize, pageIndex)];
      var query := StudentsOfSchool(students.rows, schoolId);
      var selectors: seq<SortKey>;
      if IsNullOrEmpty(sortBy) {
        selectors := [];
      } else {
        selectors := Selectors(SortPieces(sortBy.value));
      }
      var index, size := pageIndex, pageSize;
      if size.Some? && index.None? {
        index := Some(1);
      }
      if index.Some? && size.None? {
        size := Some(5);
      }
      r := Paged(Sorted(Rows(query), descending, selectors), index, size);
    }
  }

  const AllStudentsKey: string := "AllStudents"

  /** `"AllStudents_{include}"`. */
  function IncludeKey(expression: string): string {
    AllStudentsKey + "_" + expression
  }

  /** The keys InvalidateCache removes; the `*` is part of the key, not a pattern. */
  function InvalidatedKeys(): seq<string> {
    [AllStudentsKey, AllStudentsKey + "_*"]
  }

  /** Only the include `*` has a key that InvalidateCache removes. */
  lemma {:induction false} IncludeKeySurvivesInvalidation(entries: map<string, Option<seq<Student>>>, expression: string)
    requires expression != "*"
    ensures IncludeKey(expression) !in InvalidatedKeys()
    ensures IncludeKey(expression) in entries ==>
              IncludeKey(expression) in entries - {AllStudentsKey, AllStudentsKey + "_*"}
  {
    var k := IncludeKey(expression);
    assert |k| > |AllStudentsKey|;
    assert k[|AllStudentsKey| + 1..] == expression;
    assert (AllStudentsKey + "_*")[|AllStudentsKey| + 1..] == "*";
  }

  class CachedStudentRepository {
    const inner: StudentRepository
    const cache: MemoryCache<Option<seq<Student>>>

    constructor (inner: StudentRepository, cache: MemoryCache<Option<seq<Student>>>)
      ensures this.inner == inner && this.cache == cache
    {
      this.inner := inner;
      this.cache := cache;
    }

    /** A hit answers the cached list without a query; a miss queries once and caches it. Null answers empty. */
    method GetAllStudentsWithCacheAsync(expression: string) returns (r: seq<Student>)
      modifies cache, inner`calls
      ensures var key := IncludeKey(expression);
        if key in old(cache.entries) then
          cache.entries == old(cache.entries) && inner.calls == old(inner.calls)
          && r == (if old(cache.entries)[key].Some? then old(cache.entries)[key].value else [])
        else
          r == VisibleStudents(inner.students.rows, None)
          && cache.entries == old(cache.entries)[key := Some(r)]
          && inner.calls == old(inner.calls) + [GetStudentsCall(None, expression)]
    {
      var key := IncludeKey(expression);
      var hit := cache.TryGetValue(key);
      var cached: Option<seq<Student>>;
      if hit.Some? {
        cached := hit.value;
      } else {
        var fetched := inner.GetStudentsAsync(None, expression);
        cache.Set(key, Some(fetched));
        cached := Some(fetched);
      }
      r := if cached.Some? then cached.value else [];
    }

    /** Removes the two literal keys, one after the other. */
    method InvalidateCache()
      modifies cache
      ensures cache.entries == old(cache.entries) - {AllStudentsKey, AllStudentsKey + "_*"}
    {
      var keys := InvalidatedKeys();
      for i := 0 to |keys|
        invariant cache.entries == old(cache.entries) - (set j | 0 <= j < i :: keys[j])
      {
        cache.Remove(keys[i]);
        assert (set j | 0 <= j < i + 1 :: keys[j]) == (set j | 0 <= j < i :: keys[j]) + {keys[i]};
      }
      assert keys[0] == AllStudentsKey && keys[1] == AllStudentsKey + "_*";
      assert (set j | 0 <= j < 2 :: keys[j]) == {keys[0], keys[1]};
    }

    /** Passed through unchanged; the cache is neither read nor written. */
    method GetStudentsAsync(studentId: Option<int>, expression: string) returns (r: seq<Student>)
      modifies inner`calls
      ensures r == VisibleStudents(inner.students.rows, studentId)
      ensures inner.calls == old(inner.calls) + [GetStudentsCall(studentId, expression)]
    {
      r := inner.GetStudentsAsync(studentId, expression);
    }

    /** Passed through unchanged; the cache is neither read nor written. */
    method GetPagedStudentsAsync(schoolId: Option<int>, sortBy: Option<string>, descending: bool,
                                 pageSize: Option<int>, pageIndex: Option<int>) returns (r: Plan)
      modifies inner`calls
      ensures r == PagedStudents(inner.students.rows, schoolId, sortBy, descending, pageSize, pageIndex)
      ensures inner.calls == old(inner.calls) + [GetPagedStudentsCall(schoolId, sortBy, descending, pageSize, pageIndex)]
    {
      r := inner.GetPagedStudentsAsync(schoolId, sortBy, descending, pageSize, pageIndex);
    }
  }
}
