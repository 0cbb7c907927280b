/** `SchoolRepository`: read-only queries over the schools, which skip Deleted ones. */
module SchoolRepository {
  import opened Wrappers
  import opened Entities
  import opened Store

  function NotDeletedWithId(id: Option<int>): School -> bool {
    (s: School) => s.status != Deleted && (id.None? || s.id == id.value)
  }

  function ActiveNamed(name: string): School -> bool {
    (s: School) => s.name == name && s.status != Deleted
  }

  /** GetSchoolsAsync: the schools that are not Deleted, and with an id only that one. */
  function GetSchoolsAsync(schools: seq<School>, id: Option<int>): (r: seq<School>)
    ensures forall s :: s in r ==> s in schools && s.status != Deleted
    ensures forall s :: s in r && id.Some? ==> s.id == id.value
    ensures forall s :: s in schools && s.status != Deleted && (id.None? || s.id == id.value) ==> s in r
  {
    Where(schools, NotDeletedWithId(id))
  }

  /** GetSchoolByNameAsync: the first school with exactly that name that is not Deleted, or null. */
  function GetSchoolByNameAsync(schools: seq<School>, name: string): (r: Option<School>)
    ensures r.Some? ==> r.value in schools && r.value.name == name && r.value.status != Deleted
    ensures r.None? <==> forall i :: 0 <= i < |schools| ==> schools[i].name != name || schools[i].status == Deleted
    ensures r.Some? ==>
              exists i :: 0 <= i < |schools| && schools[i] == r.value
                          && forall j :: 0 <= j < i ==> schools[j].name != name || schools[j].status == Deleted
  {
    FirstWhere(schools, ActiveNamed(name))
  }

  /** With distinct ids, GetSchoolsAsync(id) is at most one school. */
  lemma {:induction false} GetSchoolsByIdAtMostOne(schools: seq<School>, id: int)
    requires DistinctIds(schools, SchoolId)
    ensures |GetSchoolsAsync(schools, Some(id))| <= 1
  {
    WhereDistinct(schools, SchoolId, NotDeletedWithId(Some(id)));
    AtMostOneWithId(GetSchoolsAsync(schools, Some(id)), SchoolId, id);
  }
}
