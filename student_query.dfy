/**
 * The student query shared by `StudentRepo.StudentRepository` and `StudentService`:
 * the soft-delete and school filters, the sort-string parse, the paging defaults
 * and the page count. `ApplySort`, `ApplyPaging`, `ApplySearch` and
 * `ApplyRelatedSearch` are not part of this model, so a query is kept as the plan
 * of the calls made on it.
 */
module StudentQuery {
  import opened Wrappers
  import opened Text
  import opened Entities
  import opened Store

  /** The allow-listed sort selectors. */
  datatype SortKey = ById | ByAge | ByFullName | BySchoolName | ByBalance

  /** A query over students, as the uninterpreted query extensions receive it. */
  datatype Plan =
    | Rows(rows: seq<Student>)
    | Sorted(source: Plan, descending: bool, keys: seq<SortKey>)
    | Paged(source: Plan, pageIndex: Option<int>, pageSize: Option<int>)
    | Searched(source: Plan, term: string)
    | RelatedSearched(source: Plan, term: string)

  function NotDeletedWithId(id: Option<int>): Student -> bool {
    (s: Student) => s.status != Deleted && (id.None? || s.id == id.value)
  }

  /**
   * The students that are not Deleted, and with an id only those with that id:
   * the same filter as `SchoolRepository.GetSchoolsAsync`, on students, as in the code.
   */
  function VisibleStudents(rows: seq<Student>, id: Option<int>): (r: seq<Student>)
    ensures forall s :: s in r ==> s in rows && s.status != Deleted
    ensures forall s :: s in r && id.Some? ==> s.id == id.value
    ensures forall s :: s in rows && s.status != Deleted && (id.None? || s.id == id.value) ==> s in r
  {
    Where(rows, NotDeletedWithId(id))
  }

  function NotDeletedInSchool(schoolId: Option<int>): Student -> bool {
    (s: Student) => s.status != Deleted && (schoolId.None? || s.schoolId == schoolId.value)
  }

  /** The students that are not Deleted, and with a school id only those of that school. */
  function StudentsOfSchool(rows: seq<Student>, schoolId: Option<int>): (r: seq<Student>)
    ensures forall s :: s in r ==> s in rows && s.status != Deleted
    ensures forall s :: s in r && schoolId.Some? ==> s.schoolId == schoolId.value
    ensures forall s :: s in rows && s.status != Deleted && (schoolId.None? || s.schoolId == schoolId.value) ==> s in r
  {
    Where(rows, NotDeletedInSchool(schoolId))
  }

  /** The switch on one trimmed piece; anything unknown sorts by id. */
  function SelectorFor(piece: string): (k: SortKey)
    ensures k == ByAge <==> Trim(piece) == "age"
    ensures k == ByFullName <==> Trim(piece) == "fullname"
    ensures k == BySchoolName <==> Trim(piece) == "schoolname"
    ensures k == ByBalance <==> Trim(piece) == "balance"
  {
    var t := Trim(piece);
    if t == "id" then ById
    else if t == "age" then ByAge
    else if t == "fullname" then ByFullName
    else if t == "schoolname" then BySchoolName
    else if t == "balance" then ByBalance
    else ById
  }

  function Selectors(pieces: seq<string>): (keys: seq<SortKey>)
    ensures |keys| == |pieces|
    ensures forall i :: 0 <= i < |pieces| ==> keys[i] == SelectorFor(pieces[i])
  {
    seq(|pieces|, i requires 0 <= i < |pieces| => SelectorFor(pieces[i]))
  }

  /** The lower-cased sort string split on ',' with the empty pieces dropped. */
  function SortPieces(sortBy: string): (pieces: seq<string>)
    ensures forall i :: 0 <= i < |pieces| ==> pieces[i] != "" && ',' !in pieces[i]
  {
    SplitRemoveEmpty(ToLower(sortBy), ',')
  }

  /** One selector per non-empty piece, in order; null or empty gives none. */
  function ParseSortBy(sortBy: Option<string>): (keys: seq<SortKey>)
    ensures IsNullOrEmpty(sortBy) ==> keys == []
    ensures !IsNullOrEmpty(sortBy) ==> |keys| == |SortPieces(sortBy.value)|
    ensures !IsNullOrEmpty(sortBy) ==>
              forall i :: 0 <= i < |keys| ==> keys[i] == SelectorFor(SortPieces(sortBy.value)[i])
  {
    if IsNullOrEmpty(sortBy) then [] else Selectors(SortPieces(sortBy.value))
  }

  /** Letter case does not matter to the parse. */
  lemma ParseIgnoresCase(s: string)
    ensures ParseSortBy(Some(s)) == ParseSortBy(Some(ToLower(s)))
  {
    ToLowerIdempotent(s);
  }

  /** A piece of white space only, which the split keeps, sorts by id. */
  lemma WhiteSpacePieceSortsById(piece: string)
    requires forall i :: 0 <= i < |piece| ==> IsWhiteSpace(piece[i])
    ensures SelectorFor(piece) == ById
  {
    TrimAllWhiteSpace(piece);
  }

  /** A name padded with Unicode spaces (here U+2000 and U+3000) is trimmed to that name. */
  lemma PaddedNameSortsByName()
    ensures SelectorFor([0x2000 as char] + "age" + [0x3000 as char]) == ByAge
  {
    var padded := [0x2000 as char] + "age" + [0x3000 as char];
    assert padded[1..] == "age" + [0x3000 as char];
    assert TrimStart(padded) == "age" + [0x3000 as char];
    assert ("age" + [0x3000 as char])[..3] == "age";
    assert TrimEnd("age" + [0x3000 as char]) == "age";
  }

  lemma SplitExample()
    ensures Split("age,,x", ',') == ["age", "", "x"]
  {
    assert Split("", ',') == [""];
    assert Split("x", ',') == ["x"] by {
      SplitUnfold('x', "", ',');
      assert ['x'] + "" == "x";
    }
    assert Split(",x", ',') == ["", "x"] by {
      SplitUnfold(',', "x", ',');
    }
    assert Split(",,x", ',') == ["", "", "x"] by {
      SplitUnfold(',', ",x", ',');
    }
    assert Split("e,,x", ',') == ["e", "", "x"] by {
      SplitUnfold('e', ",,x", ',');
      assert ['e'] + "" == "e";
    }
    assert Split("ge,,x", ',') == ["ge", "", "x"] by {
      SplitUnfold('g', "e,,x", ',');
      assert ['g'] + "e" == "ge";
    }
    SplitUnfold('a', "ge,,x", ',');
    assert ['a'] + "ge" == "age";
  }

  lemma SplitUnfold(c: char, rest: string, sep: char)
    ensures Split([c] + rest, sep) ==
      if c == sep then [""] + Split(rest, sep)
      else [[c] + Split(rest, sep)[0]] + Split(rest, sep)[1..]
  {
    assert ([c] + rest)[1..] == rest;
  }

  lemma TrimAgeExample()
    ensures Trim("age") == "age"
  {
    TrimNoWhiteSpace("age");
  }

  lemma TrimXExample()
    ensures Trim("x") == "x"
  {
    TrimNoWhiteSpace("x");
  }

  lemma LowerExample()
    ensures ToLower("Age,,x") == "age,,x"
  {
  }

  /** An unknown name sorts by id, an empty piece is dropped, and case is ignored. */
  lemma ParseExample()
    ensures ParseSortBy(Some("Age,,x")) == [ByAge, ById]
  {
    LowerExample();
    SplitExample();
    assert RemoveEmpty(["age", "", "x"]) == ["age", "x"] by {
      assert ["age", "", "x"][1..] == ["", "x"];
      assert ["", "x"][1..] == ["x"];
      assert RemoveEmpty(["x"]) == ["x"];
    }
    TrimAgeExample();
    TrimXExample();
    assert Selectors(["age", "x"]) == [ByAge, ById];
  }

  /**
   * The paging defaults: a size alone gets page 1, an index alone gets size 5,
   * and both or neither stay as they are.
   */
  function NormalisePaging(pageIndex: Option<int>, pageSize: Option<int>): (r: (Option<int>, Option<int>))
    ensures r.0.Some? <==> r.1.Some?
    ensures pageIndex.Some? ==> r.0 == pageIndex
    ensures pageSize.Some? ==> r.1 == pageSize
    ensures pageIndex.None? && pageSize.Some? ==> r.0 == Some(1)
    ensures pageIndex.Some? && pageSize.None? ==> r.1 == Some(5)
  {
    match (pageIndex, pageSize)
    case (None, None) => (None, None)
    case (None, Some(_)) => (Some(1), pageSize)
    case (Some(_), None) => (pageIndex, Some(5))
    case (Some(_), Some(_)) => (pageIndex, pageSize)
  }

  /** `Math.Ceiling(count / pageSize)` on integers. */
  function TotalPages(count: nat, pageSize: int): (pages: nat)
    requires pageSize > 0
    ensures pages * pageSize >= count
    ensures count > 0 ==> (pages - 1) * pageSize < count
    ensures count == 0 ==> pages == 0
  {
    var q := (count + pageSize - 1) / pageSize;
    CeilingBounds(count, pageSize, q);
    q
  }

  lemma CeilingBounds(count: nat, pageSize: int, q: int)
    requires pageSize > 0 && q == (count + pageSize - 1) / pageSize
    ensures q >= 0 && q * pageSize >= count
    ensures count > 0 ==> (q - 1) * pageSize < count
    ensures count == 0 ==> q == 0
  {
    var n := count + pageSize - 1;
    var r := n % pageSize;
    assert n == q * pageSize + r && 0 <= r < pageSize;
  }
}
