# LMS / TodoWeb data-access and service core in Dafny

This project models the data-access layer of the TodoWeb learning-management
back end and the rule-checking services built on it, and proves properties of
that model. The layer consists of Entity Framework repositories, two caching
decorators, a unit of work with a transaction slot, and the student, course,
school and to-do services.

- **Store.** The database works on sequences of rows with distinct ids (`Store`).
  Each entity set is a `Table` class that holds:
  - the rows as stored;
  - the changes staged by Add, Update and Remove and not yet saved;
  - the next identity value.

  `SaveChanges` applies every staged change or none of them. It answers the
  number of changes written. A key clash or a missing row is an error, and on an
  error nothing changes. The context the unit of work uses (`DbContext`) saves its
  students, schools and to-dos in one batch. Its transaction keeps a snapshot of
  the rows and puts them back on rollback.
- **Repositories.** Each repository is a class over one or more tables:
  - `GenericRepository`;
  - the inheriting `CourseRepository`;
  - `CourseRepo.CourseRepository`;
  - the two student repositories;
  - `SchoolRepository`, whose members are pure functions over the school rows.

  Reads are specified by functions: `GetAll`, `FindRow`, `FirstWhere` (LINQ
  `FirstOrDefault`) and `SingleWhere` (LINQ `SingleOrDefault`). Writes are tied to
  an outcome function of the old table state.
- **Caching decorators.** `Caching.MemoryCache` is a string-keyed map. Each
  decorator keeps its own key scheme, as the code writes it:
  - `CachedRepository` uses `"{FullName}_{id}"`, `"{FullName}All"` and the bare
    `id.ToString()`;
  - `CachedStudentRepository` uses `"AllStudents_{include}"`, and its
    `InvalidateCache` removes the two literal keys `"AllStudents"` and
    `"AllStudents_*"`.

  Each decorator records the calls its wrapped repository receives. That lets
  each method state when the wrapped repository is called and when it is not.
- **Unit of work.** The unit of work is a class with:
  - the `Type -> repository` registry;
  - the memoised backing fields of its named properties;
  - the transaction slot;
  - the disposed flag;
  - a log of saves, commits, rollbacks and disposals.
- **Services.** Each service operation has two parts:
  - a function of the state before the call (`PostOutcome`, `SoftDeleteOutcome`,
    `Transfer`, ...), which gives the answer and the state after the call;
  - a method whose postcondition is that function.

  Lemmas then prove what the code promises about those functions. Examples: a
  refusal changes nothing; a soft delete keeps the row; a transfer saves, commits
  and clears `"StudentKey"` in that order, or rolls back.
- **Paging and sorting.** The sort and paging normalisation in `StudentQuery` is
  modelled as pure functions. `ApplySort`, `ApplyPaging`, `ApplySearch` and
  `ApplyRelatedSearch` stay uninterpreted: they are constructors of a query plan
  (`StudentQuery.Plan`). So the model states which arguments reach them and in
  what order, and nothing about how they order or match.
- **Validator.** `TestableCodeExamples` runs its checks in order and stops at the
  first failure. The clock, the file system, the environment, the HTTP client and
  the random source are an `Oracles` value the class is built with. A ghost list
  records which services were consulted, and in what order.
- **Mappers.** AutoMapper projections are function parameters. A mapping onto a
  tracked entity keeps the entity's stored id.
- **Text.** `Text` models the .NET string operations the code uses, on
  `seq<char>`: `ToLower`, `Trim`, `Split` with and without
  `RemoveEmptyEntries`, `Join`, `Contains` and `int.ToString`.
  - White space is the full `char.IsWhiteSpace` set: U+0009 to U+000D, U+0085, and the Unicode space, line and paragraph separators.
  - `string.Length` is counted in UTF-16 code units.

Four behaviours of the code are worth calling out, because a reader might expect otherwise:

- **Missing write targets.** An update or delete whose target is missing answers the sentinel -1, with no exception, in:
  - `CourseRepo.CourseRepository` (UpdateCourseAsync, DeleteCourseAsync);
  - `CourseService`;
  - `SchoolService`;
  - `StudentService.PutAsync`.

  The write paths that throw instead are:
  - `GenericRepository.DeleteAsync` ("T not found.");
  - `StudentService.DeleteAsync`;
  - `GenericRepository.UpdateAsync`, whose save of a row that is not stored fails with EF's concurrency error (modelled as `Err(Concurrency(..))`). `CachedRepository.UpdateAsync` passes that error on;
  - `StudentRepository.UpdateAsync` and `DeleteAsync`, which always throw `NotImplementedException`.
- **Commit or rollback with no transaction.** In `UnitOfWork` this does nothing.
- **Begin with a transaction still open.** The connection refuses it, and `UnitOfWork` keeps the old transaction in its slot. A transfer that returned false leaves its transaction open, so the next transfer on the same unit of work throws at Begin and rolls back the earlier transaction.
- **Cache writes before the store call.** `CachedRepository` writes or evicts its cache entry before it calls the wrapped repository. The cache change stays even when the store call fails.

## Model

| member | source | states |
|---|---|---|
| Store.IndexOf | TodoWeb.DataAccess/Repositories/GenericRepository.cs:35-38 | the position of the first row with the id, or -1 exactly when no row has it |
| Store.FindRow | TodoWeb.DataAccess/Repositories/GenericRepository.cs:35-38 | `Find`: a stored row with that id, and null exactly when no row has the id |
| Store.FindRowUnique | TodoWeb.DataAccess/Repositories/GenericRepository.cs:35-38 | with distinct ids, `Find` of a row's id is that row |
| Store.RemoveAtMembers | TodoWeb.DataAccess/Repositories/GenericRepository.cs:64-66 | removing a row keeps exactly the rows with other ids |
| Store.IndexOfUpdate | TodoWeb.DataAccess/Repositories/GenericRepository.cs:48-53 | overwriting a row with one of the same id keeps its position |
| Store.ApplySingle | TodoWeb.DataAccess/Repositories/GenericRepository.cs:48-53 | saving one staged change applies just that change |
| Store.ApplyChangeDistinct | TodoWeb.DataAccess/Repositories/GenericRepository.cs:40-46 | one applied change keeps the ids distinct |
| Store.ApplyDistinct | TodoWeb.DataAccess/Repositories/UnitOfWork.cs:129-142 | a successful save of any batch keeps the ids distinct |
| Store.Where | TodoWeb.DataAccess/Repositories/SchoolRepository.cs:18-23 | LINQ `Where`: a row is kept exactly when it is stored and satisfies the predicate |
| Store.WhereSame | TodoWeb.DataAccess/Repositories/StudentRepository.cs:28-33 | predicates that agree on every row select the same rows |
| Store.WhereWhere | TodoWeb.DataAccess/Repositories/StudentRepository.cs:28-33 | two chained `Where` calls filter by the conjunction, in store order |
| Store.WhereDistinct | TodoWeb.DataAccess/Repositories/SchoolRepository.cs:18-23 | filtering keeps ids distinct |
| Store.AtMostOneWithId | TodoWeb.DataAccess/Repositories/SchoolRepository.cs:20-23 | distinct ids that all equal one id leave at most one row |
| Store.WhereNone | TodoWeb.DataAccess/Repositories/CourseRepository.cs:35-39 | no matching row: `Where` keeps nothing |
| Store.WhereOne | TodoWeb.DataAccess/Repositories/CourseRepository.cs:35-39 | a single matching row is all `Where` keeps |
| Store.WhereTwo | TodoWeb.DataAccess/Repositories/CourseRepository.cs:35-39 | two matching rows make `Where` keep at least two |
| Store.FirstWhere | TodoWeb.DataAccess/Repositories/CourseRepo/CourseRepository.cs:31-34 | `FirstOrDefault`: null exactly when nothing matches, else the first match in store order |
| Store.SingleWhere | TodoWeb.DataAccess/Repositories/CourseRepository.cs:35-39 | `SingleOrDefault`: null iff no match, the match iff one, an error iff more than one |
| Store.StageAdd | TodoWeb.DataAccess/Repositories/GenericRepository.cs:40-46 | an insert is staged; an entity with id 0 takes the next identity value, and the stored rows are untouched |
| Store.Save | TodoWeb.DataAccess/Repositories/GenericRepository.cs:48-53 | all staged changes or none: on success the count written and an empty tracker, on failure the state as it was |
| Store.Table.Find | TodoWeb.DataAccess/Repositories/GenericRepository.cs:35-38 | the stored row with the id, or null |
| Store.Table.Add | TodoWeb.DataAccess/Repositories/GenericRepository.cs:42 | stages the insert as `StageAdd` says |
| Store.Table.Update | TodoWeb.DataAccess/Repositories/GenericRepository.cs:50 | stages the update as Modified (the key-0 case is `GenericRepository.UpdateAsync`'s) |
| Store.Table.Remove | TodoWeb.DataAccess/Repositories/GenericRepository.cs:64 | stages the removal |
| Store.Table.SaveChanges | TodoWeb.DataAccess/Repositories/GenericRepository.cs:43 | the table's answer and new state are `Save` of the old state, and ids stay distinct |
| Store.SaveAll | TodoWeb.DataAccess/Repositories/UnitOfWork.cs:129-142 | the context's save: all three sets or none; the count is the sum of staged changes |
| Store.SaveOne | TodoWeb.DataAccess/Repositories/GenericRepository.cs:40-53 | a table with one staged change saves exactly that change, or fails leaving the state as it was |
| Store.SaveStudentChange | TodoWeb.Service/Services/Students/StudentServiceWithRepository.cs:102-103 | a context whose one staged change is a student change saves just that change |
| Store.SaveSchoolChange | TodoWeb.Service/Services/School/SchoolService.cs:50-55 | the same for a school change |
| Store.SaveToDoChange | TodoWeb.Service/Services/ToDoServiceWithRepository.cs:44-45 | the same for a to-do change |
| Store.DbContext.SaveChanges | TodoWeb.DataAccess/Repositories/UnitOfWork.cs:129-142 | the context's answer and new state are `SaveAll` of the old state |
| Store.DbContext.BeginTransaction | TodoWeb.DataAccess/Repositories/UnitOfWork.cs:148-151 | with no current transaction, a fresh open one over the rows as they are now, which becomes current; with one, the InvalidOperationException "already in a transaction" |
| Store.DbContext.Dispose | TodoWeb.DataAccess/Repositories/UnitOfWork.cs:183-191 | the context is marked disposed |
| Store.Transaction.Commit | TodoWeb.DataAccess/Repositories/UnitOfWork.cs:157 | an open transaction becomes committed and is no longer the current one |
| Store.Transaction.Rollback | TodoWeb.DataAccess/Repositories/UnitOfWork.cs:167 | puts back the rows seen at Begin, keeps the tracked changes, and is no longer the current one |
| Store.Transaction.Dispose | TodoWeb.DataAccess/Repositories/UnitOfWork.cs:158 | disposing an open transaction rolls it back, otherwise the rows stay as they are; the first dispose ends it as the current one |
| Caching.MemoryCache.TryGetValue | TodoWeb.DataAccess/Repositories/CachedRepository.cs:52-56 | a value exactly when the key is present, and it is the cached one |
| Caching.MemoryCache.Set | TodoWeb.DataAccess/Repositories/CachedRepository.cs:21 | the key maps to the value and no other key changes |
| Caching.MemoryCache.Remove | TodoWeb.DataAccess/Repositories/CachedRepository.cs:27 | exactly that key is gone; a missing key is no error |
| CachedRepository.KeysDistinct | TodoWeb.DataAccess/Repositories/CachedRepository.cs:21-38 | the three key shapes never collide |
| CachedRepository.KeyFromIdInjective | TodoWeb.DataAccess/Repositories/CachedRepository.cs:59-65 | `GetKeyFromId` gives distinct ids of one type distinct keys |
| CachedRepository.GetByIdStep | TodoWeb.DataAccess/Repositories/CachedRepository.cs:48-57 | a hit answers the cache and changes nothing; a miss answers the store's `Find` and caches it under `"{FullName}_{id}"` |
| CachedRepository.GetAllStep | TodoWeb.DataAccess/Repositories/CachedRepository.cs:31-46 | a hit leaves the cache as it is and answers the cached enumeration, the empty one for a cached null, and the cast error for a cached entity; a miss answers `GetAll` and caches it under the key for the id or `"{FullName}All"` |
| CachedRepository.GetAllRepeats | TodoWeb.DataAccess/Repositories/CachedRepository.cs:31-46 | a second GetAllAsync answers the same enumeration whatever the store now holds |
| CachedRepository.GetByIdRepeats | TodoWeb.DataAccess/Repositories/CachedRepository.cs:52-56 | a second GetByIdAsync answers the same value whatever the store now holds |
| CachedRepository.NullSticks | TodoWeb.DataAccess/Repositories/CachedRepository.cs:52-56 | a miss that found nothing caches null, and later reads answer null even once the row exists |
| CachedRepository.UpdateThenGetById | TodoWeb.DataAccess/Repositories/CachedRepository.cs:67-71 | after UpdateAsync the next GetByIdAsync of that entity reads the store |
| CachedRepository.DeleteLeavesStaleEntity | TodoWeb.DataAccess/Repositories/CachedRepository.cs:25-29 | DeleteAsync evicts only the bare key, so a cached entity is still answered after its deletion |
| CachedRepository.BareKeyWritesInvisible | TodoWeb.DataAccess/Repositories/CachedRepository.cs:19-29 | AddAsync and DeleteAsync leave every `"{FullName}_{id}"` and `"{FullName}All"` entry as it was |
| CachedRepository.AllKeySurvivesWrites | TodoWeb.DataAccess/Repositories/CachedRepository.cs:19-29 | no write removes or changes the `"{FullName}All"` entry |
| CachedRepository.GetAllReadsNullAsEmpty | TodoWeb.DataAccess/Repositories/CachedRepository.cs:40-45 | a null cached by GetByIdAsync is answered by GetAllAsync(id) as the empty sequence |
| CachedRepository.GetAllAfterGetByIdFails | TodoWeb.DataAccess/Repositories/CachedRepository.cs:36-45 | a found entity cached by GetByIdAsync makes GetAllAsync(id) fail the cast of the shared key |
| CachedRepository.CachedRepository.GetByIdAsync | TodoWeb.DataAccess/Repositories/CachedRepository.cs:48-57 | answer and cache are `GetByIdStep`; the wrapped repository is called once on a miss and never on a hit |
| CachedRepository.CachedRepository.GetAllAsync | TodoWeb.DataAccess/Repositories/CachedRepository.cs:31-46 | answer and cache are `GetAllStep`; the wrapped repository is called once on a miss and never on a hit |
| CachedRepository.CachedRepository.AddAsync | TodoWeb.DataAccess/Repositories/CachedRepository.cs:19-23 | the entity is cached under its bare id, then one wrapped AddAsync runs and its answer is returned |
| CachedRepository.CachedRepository.DeleteAsync | TodoWeb.DataAccess/Repositories/CachedRepository.cs:25-29 | the bare id key is evicted, then one wrapped DeleteAsync runs and its answer is returned |
| CachedRepository.CachedRepository.UpdateAsync | TodoWeb.DataAccess/Repositories/CachedRepository.cs:67-71 | exactly `"{FullName}_{id}"` is evicted, then one wrapped UpdateAsync runs and its answer is returned |
| GenericRepository.RowsWithId | TodoWeb.DataAccess/Repositories/GenericRepository.cs:24 | a row is kept exactly when it has the id |
| GenericRepository.GetAll | TodoWeb.DataAccess/Repositories/GenericRepository.cs:19-33 | no id: every row, with no status filter; an id: exactly the rows with it, empty when none |
| GenericRepository.GetAllById | TodoWeb.DataAccess/Repositories/GenericRepository.cs:19-38 | with distinct ids, GetAllAsync(id) is the row GetByIdAsync finds, or empty |
| GenericRepository.AddPersists | TodoWeb.DataAccess/Repositories/GenericRepository.cs:40-46 | an insert with a free id is stored at the end and its id answered |
| GenericRepository.AddDuplicate | TodoWeb.DataAccess/Repositories/GenericRepository.cs:40-46 | an insert of a stored id fails, stores nothing, and stays tracked |
| GenericRepository.UpdateCount | TodoWeb.DataAccess/Repositories/GenericRepository.cs:48-53 | an update of an entity with a set key replaces the row and answers the count 1, not the id |
| GenericRepository.DeleteMissing | TodoWeb.DataAccess/Repositories/GenericRepository.cs:57-62 | a missing id raises "T not found." and changes nothing |
| GenericRepository.DeletePresent | TodoWeb.DataAccess/Repositories/GenericRepository.cs:64-66 | a stored id is removed, only that row, and the count 1 answered |
| GenericRepository.GenericRepository.GetAllAsync | TodoWeb.DataAccess/Repositories/GenericRepository.cs:19-33 | the answer is `GetAll`; the include argument is recorded and unused |
| GenericRepository.GenericRepository.GetByIdAsync | TodoWeb.DataAccess/Repositories/GenericRepository.cs:35-38 | the stored entity with that id, or null |
| GenericRepository.GenericRepository.AddAsync | TodoWeb.DataAccess/Repositories/GenericRepository.cs:40-46 | stage, save, answer the entity's id, as `AddOutcome` |
| GenericRepository.UpdateUnsetKeyInserts | TodoWeb.DataAccess/Repositories/GenericRepository.cs:48-53 | updating an entity whose key is 0 appends it under the next identity value and answers the count 1 |
| GenericRepository.GenericRepository.UpdateAsync | TodoWeb.DataAccess/Repositories/GenericRepository.cs:48-53 | `_dbSet.Update` then save, answering the save's count, as `UpdateOutcome`: an entity with key 0 is inserted under the next id, any other is written over its row |
| GenericRepository.GenericRepository.DeleteAsync | TodoWeb.DataAccess/Repositories/GenericRepository.cs:55-67 | "T not found." for a missing id, else remove and answer the count, as `DeleteOutcome` |
| CourseRepository.CourseByName | TodoWeb.DataAccess/Repositories/CourseRepository.cs:35-39 | `SingleOrDefault` by exact name: any course answered is stored and has the name |
| CourseRepository.ByNameNone | TodoWeb.DataAccess/Repositories/CourseRepository.cs:35-39 | no course of that name: null |
| CourseRepository.ByNameUnique | TodoWeb.DataAccess/Repositories/CourseRepository.cs:37-38 | exactly one course of that name: that course |
| CourseRepository.ByNameAmbiguous | TodoWeb.DataAccess/Repositories/CourseRepository.cs:37-38 | two courses of that name: the lookup fails |
| CourseRepository.CourseRepository.GetCourseByNameAsync | TodoWeb.DataAccess/Repositories/CourseRepository.cs:35-39 | read-only; the answer is `CourseByName` of the inherited table |
| CourseRepo.UpdateCourseMissing | TodoWeb.DataAccess/Repositories/CourseRepo/CourseRepository.cs:53-58 | a missing id answers -1 and changes nothing |
| CourseRepo.UpdateCoursePresent | TodoWeb.DataAccess/Repositories/CourseRepo/CourseRepository.cs:59-62 | a stored course takes every value of the argument, no other row changes, and its id is answered |
| CourseRepo.DeleteCourseMissing | TodoWeb.DataAccess/Repositories/CourseRepo/CourseRepository.cs:65-70 | a missing id answers -1 and changes nothing |
| CourseRepo.DeleteCoursePresent | TodoWeb.DataAccess/Repositories/CourseRepo/CourseRepository.cs:71-74 | a stored course is removed, only that one, and its id answered |
| CourseRepo.CourseRepository.GetCourses | TodoWeb.DataAccess/Repositories/CourseRepo/CourseRepository.cs:16-29 | with an id only that course or empty; without one every course, Deleted ones included |
| CourseRepo.CourseRepository.GetCourseByNameAsync | TodoWeb.DataAccess/Repositories/CourseRepo/CourseRepository.cs:31-34 | the first course with exactly that name, null exactly when none has it |
| CourseRepo.CourseRepository.GetCourseById | TodoWeb.DataAccess/Repositories/CourseRepo/CourseRepository.cs:36-39 | the course with that id, or null |
| CourseRepo.CourseRepository.AddCourseAsync | TodoWeb.DataAccess/Repositories/CourseRepo/CourseRepository.cs:41-46 | persists the course and answers its id, as `AddOutcome` |
| CourseRepo.CourseRepository.GetCourseByIdAsync | TodoWeb.DataAccess/Repositories/CourseRepo/CourseRepository.cs:48-51 | the course with that id, or null |
| CourseRepo.CourseRepository.UpdateCourseAsync | TodoWeb.DataAccess/Repositories/CourseRepo/CourseRepository.cs:53-63 | answer and new state are `UpdateCourseOutcome`: -1 for a missing id, else values copied and id answered |
| CourseRepo.CourseRepository.DeleteCourseAsync | TodoWeb.DataAccess/Repositories/CourseRepo/CourseRepository.cs:65-75 | answer and new state are `DeleteCourseOutcome`: -1 for a missing id, else removed and id answered |
| StudentRepository.StudentRepository.GetAllAsync | TodoWeb.DataAccess/Repositories/StudentRepository.cs:26-41 | read-only; the students that are not Deleted, and with an id only that one |
| StudentRepository.StudentRepository.AddAsync | TodoWeb.DataAccess/Repositories/StudentRepository.cs:43-49 | inserts, saves and answers the student's id |
| StudentRepository.StudentRepository.DeleteAsync | TodoWeb.DataAccess/Repositories/StudentRepository.cs:51-54 | always `NotImplementedException`, nothing changes |
| StudentRepository.StudentRepository.GetByIdAsync | TodoWeb.DataAccess/Repositories/StudentRepository.cs:56-59 | always `NotImplementedException`, nothing changes |
| StudentRepository.StudentRepository.UpdateAsync | TodoWeb.DataAccess/Repositories/StudentRepository.cs:61-64 | always `NotImplementedException`, nothing changes |
| SchoolRepository.GetSchoolsAsync | TodoWeb.DataAccess/Repositories/SchoolRepository.cs:16-31 | a school is answered exactly when it is stored, not Deleted, and has the id if one is given |
| SchoolRepository.GetSchoolByNameAsync | TodoWeb.DataAccess/Repositories/SchoolRepository.cs:33-37 | the first non-Deleted school with exactly that name; null exactly when there is none |
| SchoolRepository.GetSchoolsByIdAtMostOne | TodoWeb.DataAccess/Repositories/SchoolRepository.cs:20-23 | with distinct ids, GetSchoolsAsync(id) answers at most one school |
| StudentRepo.StudentRepository.GetStudentsAsync | TodoWeb.DataAccess/Repositories/StudentRepo/StudentRepository.cs:18-31 | the students that are not Deleted, and with an id only that one |
| StudentRepo.StudentRepository.GetPagedStudentsAsync | TodoWeb.DataAccess/Repositories/StudentRepo/StudentRepository.cs:33-88 | filter, then ApplySort with the parsed selectors, then ApplyPaging with the defaulted index and size |
| StudentRepo.IncludeKeySurvivesInvalidation | TodoWeb.DataAccess/Repositories/StudentRepo/CachedStudentRepository.cs:34-47 | the `*` is literal: an `"AllStudents_{include}"` entry for any other include survives InvalidateCache |
| StudentRepo.CachedStudentRepository.GetAllStudentsWithCacheAsync | TodoWeb.DataAccess/Repositories/StudentRepo/CachedStudentRepository.cs:21-32 | a hit answers the cached list with no call; a miss calls `GetStudentsAsync(null, include)` once and caches it; null answers empty |
| StudentRepo.CachedStudentRepository.InvalidateCache | TodoWeb.DataAccess/Repositories/StudentRepo/CachedStudentRepository.cs:34-47 | exactly the keys `"AllStudents"` and `"AllStudents_*"` are removed |
| StudentRepo.CachedStudentRepository.GetStudentsAsync | TodoWeb.DataAccess/Repositories/StudentRepo/CachedStudentRepository.cs:50-53 | passed through with the same arguments; the cache is neither read nor written |
| StudentRepo.CachedStudentRepository.GetPagedStudentsAsync | TodoWeb.DataAccess/Repositories/StudentRepo/CachedStudentRepository.cs:55-58 | passed through with the same arguments; the cache is neither read nor written |
| StudentQuery.VisibleStudents | TodoWeb.DataAccess/Repositories/StudentRepo/StudentRepository.cs:20-26 | a student is kept exactly when it is stored, not Deleted, and has the id if one is given |
| StudentQuery.StudentsOfSchool | TodoWeb.DataAccess/Repositories/StudentRepo/StudentRepository.cs:41-49 | a student is kept exactly when it is stored, not Deleted, and of the school if one is given |
| StudentQuery.SelectorFor | TodoWeb.DataAccess/Repositories/StudentRepo/StudentRepository.cs:62-70 | the trimmed piece picks age, fullname, schoolname or balance exactly when it is that word; anything else sorts by id |
| StudentQuery.Selectors | TodoWeb.DataAccess/Repositories/StudentRepo/StudentRepository.cs:62-70 | one selector per piece, in order |
| StudentQuery.SortPieces | TodoWeb.DataAccess/Repositories/StudentRepo/StudentRepository.cs:60-61 | the pieces of the lower-cased string split on ',' are non-empty and hold no ',' |
| StudentQuery.ParseSortBy | TodoWeb.DataAccess/Repositories/StudentRepo/StudentRepository.cs:53-71 | null or empty gives no selectors; otherwise one selector per non-empty piece, in order |
| StudentQuery.ParseIgnoresCase | TodoWeb.Service/Services/Students/StudentService.cs:69 | upper and lower case parse the same |
| StudentQuery.PaddedNameSortsByName | TodoWeb.Service/Services/Students/StudentService.cs:69-78 | a selector name padded with U+2000 and U+3000 is trimmed and selects that key |
| StudentQuery.WhiteSpacePieceSortsById | TodoWeb.Service/Services/Students/StudentService.cs:69-78 | a piece of white space only is kept by the split and sorts by id |
| StudentQuery.ParseExample | TodoWeb.Service/Services/Students/StudentService.cs:64-80 | `"Age,,x"` parses to age then id: case ignored, empty piece dropped, unknown word sorts by id |
| StudentQuery.NormalisePaging | TodoWeb.DataAccess/Repositories/StudentRepo/StudentRepository.cs:73-80 | a size alone gets index 1, an index alone gets size 5, given values are kept, and both end up present or both absent |
| StudentQuery.TotalPages | TodoWeb.Service/Services/Students/StudentService.cs:101-102 | the integer ceiling of count over size: the pages cover the count and one page fewer does not |
| StudentQuery.CeilingBounds | TodoWeb.Service/Services/Students/StudentService.cs:102 | the ceiling is the least number of pages that covers the count |
| StudentService.StudentsPage | TodoWeb.Service/Services/Students/StudentService.cs:41-111 | a size or index present and <= 0 gives the empty page with total 0, exactly then; else the filtered, sorted, defaulted page with total 1 without a size, or `TotalPages` of the whole set's count (0 for no students) |
| StudentService.PageTotalIgnoresFilters | TodoWeb.Service/Services/Students/StudentService.cs:101-102 | the total depends only on the size of the whole student set, not on the school or the sort |
| StudentService.DeletedStudentsStillCount | TodoWeb.Service/Services/Students/StudentService.cs:51-59 | Deleted students are not listed but still add to the page total |
| StudentService.NoneListed | TodoWeb.Service/Services/Students/StudentService.cs:51-59 | with no live student of the school nobody is listed |
| StudentService.PageTotalExample | TodoWeb.Service/Services/Students/StudentService.cs:82-103 | eleven students make three pages of five, of four, or with an index alone, and one page of eleven |
| StudentService.SearchPlan | TodoWeb.Service/Services/Students/StudentService.cs:113-143 | the search runs only over students that are not Deleted, and is never sorted or paged |
| StudentService.BlankTermFindsNothing | TodoWeb.Service/Services/Students/StudentService.cs:136-139 | the answer is empty exactly when the term is spaces only |
| StudentService.OneWordSearches | TodoWeb.Service/Services/Students/StudentService.cs:129-135 | one word runs the plain search |
| StudentService.TwoWordsSearchRelated | TodoWeb.Service/Services/Students/StudentService.cs:122-128 | two words run the related search over the whole term |
| StudentService.PostDuplicateIff | TodoWeb.Service/Services/Students/StudentService.cs:148-152 | the duplicate-id error is raised exactly when a stored student has the id |
| StudentService.PostRejectsUnknownSchool | TodoWeb.Service/Services/Students/StudentService.cs:156-161 | a free id with no live school of that name raises the unknown-school error |
| StudentService.PostBuildsStudent | TodoWeb.Service/Services/Students/StudentService.cs:154-171 | the record keeps the id and the school's id, and first name plus " " plus last name is the full name whenever it holds a space |
| StudentService.PutRefusesMissingOrDeleted | TodoWeb.Service/Services/Students/StudentService.cs:179-183 | a missing or Deleted student answers -1 and changes nothing |
| StudentService.PutWritesMappedRow | TodoWeb.Service/Services/Students/StudentService.cs:193-195 | a live student is overwritten by the mapped view and its id answered |
| StudentService.DeleteRefusesMissing | TodoWeb.Service/Services/Students/StudentService.cs:200-204 | a missing id raises the missing-student error and changes nothing |
| StudentService.DeleteRemovesRow | TodoWeb.Service/Services/Students/StudentService.cs:206 | a stored student, whatever its status, is removed and only that row |
| StudentService.StudentService.GetStudentsAsync | TodoWeb.Service/Services/Students/StudentService.cs:33-39 | the generic repository's `GetAll`, with no status filter |
| StudentService.StudentService.GetStudents | TodoWeb.Service/Services/Students/StudentService.cs:41-111 | the page and total are `StudentsPage`, built step by step |
| StudentService.StudentService.SearchStudents | TodoWeb.Service/Services/Students/StudentService.cs:113-143 | the answer is `SearchPlan` |
| StudentService.StudentService.PostAsync | TodoWeb.Service/Services/Students/StudentService.cs:145-171 | the checks and the record built are `PostData` |
| StudentService.StudentService.PutAsync | TodoWeb.Service/Services/Students/StudentService.cs:176-196 | answer and new state are `PutOutcome`; the un-awaited school check never refuses |
| StudentService.StudentService.DeleteAsync | TodoWeb.Service/Services/Students/StudentService.cs:198-207 | answer and new state are `DeleteStudentOutcome` |
| StudentServiceWithRepository.Search | TodoWeb.Service/Services/Students/StudentServiceWithRepository.cs:136-157 | a blank term answers every live student; otherwise exactly the live students whose first name, last name or school name contains the term |
| StudentServiceWithRepository.RejectionsChangeNothing | TodoWeb.Service/Services/Students/StudentServiceWithRepository.cs:66-115 | a missing or Deleted school makes Post throw; a missing or Deleted student makes Update and SoftDelete answer false; none of these changes the state |
| StudentServiceWithRepository.PostStoresUnverified | TodoWeb.Service/Services/Students/StudentServiceWithRepository.cs:73-79 | one new Unverified student is stored under the next id and that id is answered; other sets are untouched |
| StudentServiceWithRepository.UpdateKeepingSchoolSkipsCheck | TodoWeb.Service/Services/Students/StudentServiceWithRepository.cs:89-103 | keeping the school id skips the school check, and the mapped student is saved in place |
| StudentServiceWithRepository.UpdateToUnknownSchoolThrows | TodoWeb.Service/Services/Students/StudentServiceWithRepository.cs:89-97 | a changed school that is missing or Deleted throws and stages nothing |
| StudentServiceWithRepository.SoftDeleteMarksDeleted | TodoWeb.Service/Services/Students/StudentServiceWithRepository.cs:111-124 | the row is kept and only its status becomes Deleted; a second soft delete answers false |
| StudentServiceWithRepository.TransferEarlyExitOnlyBegins | TodoWeb.Service/Services/Students/StudentServiceWithRepository.cs:164-172 | the early false returns take no step after Begin: no update, commit or rollback |
| StudentServiceWithRepository.TransferMovesStudent | TodoWeb.Service/Services/Students/StudentServiceWithRepository.cs:164-187 | the intended move: the student's own school id becomes the new one, by Begin, Update, Save, Commit and cache removal in that order |
| StudentServiceWithRepository.TransferAsWritten | TodoWeb.Service/Services/Students/StudentServiceWithRepository.cs:160-194 | line 175 as written, writing the key of the student's School: nothing commits unless the student already has the new school id |
| StudentServiceWithRepository.TransferAsWrittenRollsBack | TodoWeb.Service/Services/Students/StudentServiceWithRepository.cs:175-193 | as written, a real move throws and rolls back: no commit, no cache removal, student and school rows unchanged |
| StudentServiceWithRepository.TransferExample | TodoWeb.Service/Services/Students/StudentServiceWithRepository.cs:160-194 | student 1 of school 1 sent to school 2: the intended transfer answers true and moves the row; as written it throws and the rows stay |
| StudentServiceWithRepository.TransferInOpenTransactionThrows | TodoWeb.Service/Services/Students/StudentServiceWithRepository.cs:160-194 | with a transaction still in the slot, Begin throws; the catch restores the earlier transaction's rows, keeps the pending changes, and neither updates nor commits |
| StudentServiceWithRepository.SecondTransferAfterEarlyExit | TodoWeb.Service/Services/Students/StudentServiceWithRepository.cs:160-194 | after an early false, the next transfer on the same unit of work throws and rolls the context back to where the first began |
| StudentServiceWithRepository.UpdateStudentAsWritten | TodoWeb.Service/Services/Students/StudentServiceWithRepository.cs:84-109 | line 89 as written, reading `School.Id` through a navigation that may not be loaded: true only when it was loaded |
| StudentServiceWithRepository.UpdateAsWrittenThrowsUnloaded | TodoWeb.Service/Services/Students/StudentServiceWithRepository.cs:84-89 | as written, a live student with no loaded School makes the update throw and change nothing; loaded, it is the intended update |
| StudentServiceWithRepository.TransferFailureRollsBack | TodoWeb.Service/Services/Students/StudentServiceWithRepository.cs:181-193 | a failed save rolls back and rethrows, with no commit and no cache removal |
| StudentServiceWithRepository.StudentServiceWithRepository.GetStudent | TodoWeb.Service/Services/Students/StudentServiceWithRepository.cs:25-40 | never a Deleted student; with an id, only that student |
| StudentServiceWithRepository.StudentServiceWithRepository.GetStudents | TodoWeb.Service/Services/Students/StudentServiceWithRepository.cs:42-61 | a hit on "StudentKey" answers the cached list with no query; a miss queries the live students once and caches them |
| StudentServiceWithRepository.StudentServiceWithRepository.PostStudentAsync | TodoWeb.Service/Services/Students/StudentServiceWithRepository.cs:63-80 | answer and new state are `PostStudentOutcome`; a refused post saves nothing; the cache is untouched |
| StudentServiceWithRepository.StudentServiceWithRepository.UpdateStudentAsync | TodoWeb.Service/Services/Students/StudentServiceWithRepository.cs:82-109 | answer and new state are `UpdateStudentOutcome`; "StudentKey" is removed exactly on success, after the update and the save |
| StudentServiceWithRepository.StudentServiceWithRepository.SoftDeleteStudentAsync | TodoWeb.Service/Services/Students/StudentServiceWithRepository.cs:111-125 | answer and new state are `SoftDeleteOutcome`; "StudentKey" is removed exactly on success |
| StudentServiceWithRepository.StudentServiceWithRepository.GetStudentByIdAsync | TodoWeb.Service/Services/Students/StudentServiceWithRepository.cs:127-134 | null exactly for a missing or Deleted student, else that student |
| StudentServiceWithRepository.StudentServiceWithRepository.SearchStudentsAsync | TodoWeb.Service/Services/Students/StudentServiceWithRepository.cs:136-157 | the answer is `Search` |
| StudentServiceWithRepository.StudentServiceWithRepository.TransferStudentToNewSchoolAsync | TodoWeb.Service/Services/Students/StudentServiceWithRepository.cs:160-194 | answer, new state, steps and unit-of-work log are `TransferWithSlot`: `Transfer`, the intended transfer (see Findings), on an empty slot, and the throw and rollback of the earlier transaction on an occupied one; "StudentKey" is removed exactly on success; an early false leaves the transaction open |
| ToDoServiceWithRepository.PostCreatesIncomplete | TodoWeb.Service/Services/ToDoServiceWithRepository.cs:36-60 | one new incomplete to-do with the description is stored under the next id, which is answered |
| ToDoServiceWithRepository.MissingIdChangesNothing | TodoWeb.Service/Services/ToDoServiceWithRepository.cs:77-105 | a missing id makes Update, Delete and Complete answer false and change nothing |
| ToDoServiceWithRepository.UpdateChangesOnlyDescription | TodoWeb.Service/Services/ToDoServiceWithRepository.cs:83-87 | only the description of the row with the id changes |
| ToDoServiceWithRepository.DeleteRemovesOnlyTarget | TodoWeb.Service/Services/ToDoServiceWithRepository.cs:90-99 | the target row is removed and every other row kept |
| ToDoServiceWithRepository.CompleteIdempotent | TodoWeb.Service/Services/ToDoServiceWithRepository.cs:101-111 | the row is marked completed; completing it again answers true and changes nothing |
| ToDoServiceWithRepository.ToDoServiceWithRepository.PostAsync | TodoWeb.Service/Services/ToDoServiceWithRepository.cs:36-47 | answer and new state are `PostOutcome` |
| ToDoServiceWithRepository.ToDoServiceWithRepository.Post | TodoWeb.Service/Services/ToDoServiceWithRepository.cs:49-60 | answer and new state are `PostOutcome`, as for PostAsync |
| ToDoServiceWithRepository.ToDoServiceWithRepository.GetByIdAsync | TodoWeb.Service/Services/ToDoServiceWithRepository.cs:62-65 | the stored to-do with the id, null exactly when there is none |
| ToDoServiceWithRepository.ToDoServiceWithRepository.GetAllAsync | TodoWeb.Service/Services/ToDoServiceWithRepository.cs:67-70 | every stored to-do |
| ToDoServiceWithRepository.ToDoServiceWithRepository.GetAllIncompleteAsync | TodoWeb.Service/Services/ToDoServiceWithRepository.cs:72-75 | exactly the to-dos not completed, in store order |
| ToDoServiceWithRepository.ToDoServiceWithRepository.UpdateAsync | TodoWeb.Service/Services/ToDoServiceWithRepository.cs:77-88 | answer and new state are `UpdateOutcome`; false saves nothing |
| ToDoServiceWithRepository.ToDoServiceWithRepository.DeleteAsync | TodoWeb.Service/Services/ToDoServiceWithRepository.cs:90-99 | answer and new state are `DeleteOutcome`; false saves nothing |
| ToDoServiceWithRepository.ToDoServiceWithRepository.CompleteAsync | TodoWeb.Service/Services/ToDoServiceWithRepository.cs:101-111 | answer and new state are `CompleteOutcome`; false saves nothing |
| CourseService.Remapped | TodoWeb.Service/Services/Courses/CourseService.cs:49-50 | the mapped course keeps the stored id |
| CourseService.PostRefusesTakenName | TodoWeb.Service/Services/Courses/CourseService.cs:30-33 | a name already stored, even on a Deleted course, answers -1 and adds nothing |
| CourseService.PostAddsCourse | TodoWeb.Service/Services/Courses/CourseService.cs:34-38 | a free name adds the mapped course under the next id and answers that id |
| CourseService.PutRefusesMissingOrDeleted | TodoWeb.Service/Services/Courses/CourseService.cs:43-47 | a missing or Deleted course answers -1 and changes nothing |
| CourseService.PutWritesMappedCourse | TodoWeb.Service/Services/Courses/CourseService.cs:49-53 | a live course is overwritten by the mapped view and its id answered |
| CourseService.SoftDeleteMarksDeleted | TodoWeb.Service/Services/Courses/CourseService.cs:56-68 | the row is kept with only its status Deleted; a second soft delete answers -1 and leaves it Deleted |
| CourseService.DeleteRemovesSoftDeleted | TodoWeb.Service/Services/Courses/CourseService.cs:70-73 | delete has no status check: it removes a soft-deleted course too |
| CourseService.CourseService.GetCourses | TodoWeb.Service/Services/Courses/CourseService.cs:19-26 | the repository's courses, with no status filter |
| CourseService.CourseService.Post | TodoWeb.Service/Services/Courses/CourseService.cs:28-39 | answer and new state are `PostOutcome` |
| CourseService.CourseService.PutAsync | TodoWeb.Service/Services/Courses/CourseService.cs:41-54 | answer and new state are `PutOutcome` |
| CourseService.CourseService.SoftDeleteAsync | TodoWeb.Service/Services/Courses/CourseService.cs:56-68 | answer and new state are `SoftDeleteOutcome` |
| CourseService.CourseService.DeleteAsync | TodoWeb.Service/Services/Courses/CourseService.cs:70-73 | answer and new state are the repository's `DeleteCourseOutcome` |
| SchoolService.PostRefuses | TodoWeb.Service/Services/School/SchoolService.cs:38-48 | an id below 1, a taken id, or a taken name, even a Deleted school's, answers -1 and changes nothing |
| SchoolService.PostStoresSchool | TodoWeb.Service/Services/School/SchoolService.cs:50-59 | a new id and name store the mapped school and answer its id, leaving one pending re-insert with the address "123" |
| SchoolService.PutRefusesMissingOrDeleted | TodoWeb.Service/Services/School/SchoolService.cs:64-69 | a missing or Deleted school answers -1 and changes nothing |
| SchoolService.PutWritesMappedSchool | TodoWeb.Service/Services/School/SchoolService.cs:70-74 | a live school is overwritten by the mapped view and keeps its id |
| SchoolService.DeleteRefusesDeleted | TodoWeb.Service/Services/School/SchoolService.cs:79-83 | a Deleted school is not removed: Delete answers -1 |
| SchoolService.DeleteRemovesSchool | TodoWeb.Service/Services/School/SchoolService.cs:84-86 | a live school is removed physically, only that row, and its id answered |
| SchoolService.Detail | TodoWeb.Service/Services/School/SchoolService.cs:89-98 | a detail is a stored live school with that id together with exactly its students |
| SchoolService.DetailNullIff | TodoWeb.Service/Services/School/SchoolService.cs:91-95 | the detail is null exactly for a missing or Deleted school |
| SchoolService.SchoolService.GetSchools | TodoWeb.Service/Services/School/SchoolService.cs:21-34 | the schools that are not Deleted, and with an id only that one |
| SchoolService.SchoolService.Post | TodoWeb.Service/Services/School/SchoolService.cs:36-60 | answer and new state are `PostOutcome` |
| SchoolService.SchoolService.Put | TodoWeb.Service/Services/School/SchoolService.cs:62-75 | answer and new state are `PutOutcome` |
| SchoolService.SchoolService.Delete | TodoWeb.Service/Services/School/SchoolService.cs:77-87 | answer and new state are `DeleteOutcome` |
| SchoolService.SchoolService.GetSchoolDetail | TodoWeb.Service/Services/School/SchoolService.cs:89-98 | the answer is `Detail` |
| UnitOfWork.UnitOfWork.constructor | TodoWeb.DataAccess/Repositories/UnitOfWork.cs:29-35 | an empty registry, no backing field set, no transaction, not disposed |
| UnitOfWork.UnitOfWork.Repository | TodoWeb.DataAccess/Repositories/UnitOfWork.cs:37-49 | a registered type answers its repository and leaves the registry as it is; a new type adds one fresh entry and no other |
| UnitOfWork.UnitOfWork.Property | TodoWeb.DataAccess/Repositories/UnitOfWork.cs:55-123 | each named property answers `Repository<T>()` for its type and memoises it in its backing field |
| UnitOfWork.UnitOfWork.StudentRepository | TodoWeb.DataAccess/Repositories/UnitOfWork.cs:60-63 | the student property: the registered student repository, memoised |
| UnitOfWork.UnitOfWork.SaveChanges | TodoWeb.DataAccess/Repositories/UnitOfWork.cs:129-132 | the context's save and its count, as `SaveAll`, recorded in the log |
| UnitOfWork.UnitOfWork.SaveChangesAsync | TodoWeb.DataAccess/Repositories/UnitOfWork.cs:134-137 | the same as SaveChanges |
| UnitOfWork.UnitOfWork.SaveChangesAsyncWithToken | TodoWeb.DataAccess/Repositories/UnitOfWork.cs:139-142 | the same as SaveChanges; the token never cancels |
| UnitOfWork.UnitOfWork.BeginTransactionAsync | TodoWeb.DataAccess/Repositories/UnitOfWork.cs:148-151 | with the slot empty, a fresh open transaction takes it; with a transaction still there, the InvalidOperationException, and the slot keeps the old transaction, unchanged and open |
| UnitOfWork.UnitOfWork.CommitTransactionAsync | TodoWeb.DataAccess/Repositories/UnitOfWork.cs:153-161 | commit and dispose, then an empty slot; with an empty slot nothing happens |
| UnitOfWork.UnitOfWork.RollbackTransactionAsync | TodoWeb.DataAccess/Repositories/UnitOfWork.cs:163-171 | roll back to the snapshot and dispose, then an empty slot; with an empty slot nothing happens |
| UnitOfWork.UnitOfWork.Dispose | TodoWeb.DataAccess/Repositories/UnitOfWork.cs:177-181 | idempotent: the first call disposes the transaction and the context, a later call does nothing |
| UnitOfWork.UnitOfWork.DisposeCore | TodoWeb.DataAccess/Repositories/UnitOfWork.cs:183-191 | releases only when not yet disposed and disposing; the flag is set either way and the slot is not cleared |
| TestableCodeExamples.CreationErrors | TodoWeb.Service/Services/Examples/TestableCodeExamples.cs:202-237 | at most one error; an exception only from the name lookup, passed on unchanged |
| TestableCodeExamples.BlankNameFirst | TodoWeb.Service/Services/Examples/TestableCodeExamples.cs:207-211 | a blank name is refused first, whatever the services would answer, and none is consulted |
| TestableCodeExamples.PastStartSecond | TodoWeb.Service/Services/Examples/TestableCodeExamples.cs:213-217 | a start not after now is refused before the repository or the file is asked |
| TestableCodeExamples.DuplicateThird | TodoWeb.Service/Services/Examples/TestableCodeExamples.cs:219-225 | a taken name is refused with "Course with name '{name}' already exists" before the file is asked |
| TestableCodeExamples.RepositoryQueriedIff | TodoWeb.Service/Services/Examples/TestableCodeExamples.cs:207-220 | the repository is queried exactly when the name is not blank and the start is in the future |
| TestableCodeExamples.NoErrorsIff | TodoWeb.Service.Tests/Examples/TestableCodeExamplesTests.cs:267-289 | no error exactly when every check passes |
| TestableCodeExamples.CourseNameValid | TodoWeb.Service/Services/Examples/TestableCodeExamples.cs:127-133 | a valid name is present and at least four UTF-16 code units long |
| TestableCodeExamples.CourseNameValidIff | TodoWeb.Service/Services/Examples/TestableCodeExamples.cs:127-133 | valid exactly when longer than three UTF-16 code units and the validation file exists |
| TestableCodeExamples.TwoAstralCharactersLongEnough | TodoWeb.Service/Services/Examples/TestableCodeExamples.cs:127-133 | two characters outside the Basic Multilingual Plane count four, so the name is long enough |
| TestableCodeExamples.IdeographicSpaceIsBlank | TodoWeb.Service/Services/Examples/TestableCodeExamples.cs:207-211 | a name of one U+3000 space is blank: only the blank-name error, and no service is consulted |
| TestableCodeExamples.ShortNamesInvalid | TodoWeb.Service.Tests/Examples/TestableCodeExamplesTests.cs:193-225 | "", "ab", "abc" and null are invalid |
| TestableCodeExamples.StoragePath | TodoWeb.Service/Services/Examples/TestableCodeExamples.cs:112-117 | the variable when set and not empty, else "C:\\DefaultPath" |
| TestableCodeExamples.EnrolledIff | TodoWeb.Service/Services/Examples/TestableCodeExamples.cs:175-199 | enrolled exactly when the course is stored and the student lookup succeeds |
| TestableCodeExamples.ValidationResult.AddError | TodoWeb.Service/Services/Examples/TestableCodeExamples.cs:248-252 | the message is appended and the result is not valid |
| TestableCodeExamples.TestableCodeExamples.ValidateCourseCreationAsync | TodoWeb.Service/Services/Examples/TestableCodeExamples.cs:202-237 | the errors are `CreationErrors`, valid exactly when there are none, and the services consulted are `Consulted`, in order |
| TestableCodeExamples.TestableCodeExamples.EnrollStudentInCourseAsync | TodoWeb.Service/Services/Examples/TestableCodeExamples.cs:175-199 | the answer and the one line written are `Enrollment` |
| Text.IntToString | TodoWeb.DataAccess/Repositories/CachedRepository.cs:21 | `int.ToString()`: a non-empty string of digits and '-' |
| Text.IntToStringInjective | TodoWeb.DataAccess/Repositories/CachedRepository.cs:27 | different integers print differently, so bare keys of different ids differ |
| Text.ToLower | TodoWeb.Service/Services/Students/StudentService.cs:69 | letter by letter, same length |
| Text.Utf16Length | TodoWeb.Service/Services/Examples/TestableCodeExamples.cs:131 | `string.Length`: between the number of characters and twice that, and equal to it without characters outside the Basic Multilingual Plane |
| Text.ToLowerIdempotent | TodoWeb.Service/Services/Students/StudentService.cs:69 | lower-casing twice is lower-casing once |
| Text.TrimStart | TodoWeb.Service/Services/Students/StudentService.cs:71 | drops exactly the leading white space |
| Text.TrimEnd | TodoWeb.Service/Services/Students/StudentService.cs:71 | drops exactly the trailing white space |
| Text.TrimAllWhiteSpace | TodoWeb.Service/Services/Students/StudentService.cs:71 | white space only trims to "" |
| Text.TrimNoWhiteSpace | TodoWeb.Service/Services/Students/StudentService.cs:71 | no white space at the ends: the trim is the string |
| Text.Split | TodoWeb.Service/Services/Students/StudentService.cs:154 | at least one piece, none holding the separator |
| Text.JoinSplit | TodoWeb.Service/Services/Students/StudentService.cs:154-167 | joining the split pieces with the separator gives the string back |
| Text.SplitCount | TodoWeb.Service/Services/Students/StudentService.cs:154 | two or more pieces exactly when the separator occurs |
| Text.SplitNoSeparator | TodoWeb.Service/Services/Students/StudentService.cs:154 | no separator: one piece, the string |
| Text.SplitPrefix | TodoWeb.Service/Services/Students/StudentService.cs:154 | a separator-free prefix joins the first piece of the rest |
| Text.RemoveEmpty | TodoWeb.Service/Services/Students/StudentService.cs:116 | exactly the non-empty pieces are kept |
| Text.SplitRemoveEmptyNone | TodoWeb.Service/Services/Students/StudentService.cs:115-116 | nothing is kept exactly when the string is separators only |
| Text.SplitRemoveEmptyOneWord | TodoWeb.Service/Services/Students/StudentService.cs:115-116 | one word is one piece |
| Text.SplitRemoveEmptyTwoWords | TodoWeb.Service/Services/Students/StudentService.cs:115-116 | two words around one separator are two pieces |
| Text.JoinFirst | TodoWeb.Service/Services/Students/StudentService.cs:167 | joining puts the separator after the first piece |
| Entities.FullName | TodoWeb.DataAccess/Repositories/CachedRepository.cs:34 | `typeof(T).FullName` is a non-empty namespace-qualified name |

## Findings

| source | as written | input that shows it | evidently intended | confidence | as-written member | corrected member |
|---|---|---|---|---|---|---|
| TodoWeb.Service/Services/Students/StudentServiceWithRepository.cs:175 | `student.School.Id = newSchoolId` writes the key of the student's School entity, so the save is refused (or the unloaded navigation throws) and the transfer rolls back | student 1 in live school 1, live school 2, `TransferStudentToNewSchoolAsync(1, 2)` | set the student's own school id (`SId`) and commit, which `Transfer` models and the transfer method uses | not executed; depends on Entity Framework refusing a key change | StudentServiceWithRepository.TransferAsWritten | StudentServiceWithRepository.TransferMovesStudent |
| TodoWeb.Service/Services/Students/StudentServiceWithRepository.cs:89 | `existingStudent.School.Id` reads the School navigation of a student that `GetByIdAsync` (:84) loads without `Include`, unlike the query at :129, so the read throws a NullReferenceException | live student 1 in school 1, `UpdateStudentAsync(1, vm)` with any `vm` | compare the student's own school id (`SId`) with the requested one | not executed; depends on the navigation not being lazily loaded | StudentServiceWithRepository.UpdateStudentAsWritten | StudentServiceWithRepository.UpdateKeepingSchoolSkipsCheck |

## Left out

- Async tasks, Entity Framework internals (`Include`, change tracking beyond staged changes, query translation, transaction isolation) and concurrent access to the shared cache: the model is sequential and in memory.
- `ApplySort`, `ApplyPaging`, `ApplySearch` and `ApplyRelatedSearch` are not part of this model. They are kept as uninterpreted plan constructors, so nothing is stated about sort order, stability or how a search matches.
- AutoMapper projections are function parameters; a mapping onto a tracked entity is assumed to keep its stored id, and a view model is reduced to the fields the services read.
- Cache expiration (the two-minute and thirty-second sliding windows) is not modelled; an entry stays until it is removed.
- The caches of different components share one `IMemoryCache` in the code, and the bare `id.ToString()` keys of `CachedRepository` for different entity types are the same string, so one decorator can read or evict another's entry. The model gives each decorator a `MemoryCache` of its own and does not model that interference.
- The clock is a tick count, `Math.Ceiling` of the double division is integer ceiling division, and `Guid.NewGuid` (ToDoServiceWithRepository.Generate) is not modelled because it is randomness.
- The I/O-only members of `TestableCodeExamples` (CreateCourseWithCurrentTime, SaveCourseToFileAsync, PrintCourseDetails, GenerateCourseCode, FetchCourseDataFromApiAsync, ProcessCourseWithDelayAsync, CreateUniqueStudentId, CreateCourseWithValidationAsync, ProcessCourseWithLoggingAsync) are not modelled: they only pass oracle answers through or format dates.
- StudentService.PostAsync: its final `_schoolRepository.AddAsync(school)` calls a member the school repository does not define, so the model stops at the record it builds.
- StudentService.PutAsync: the school check tests an un-awaited task and is modelled as never refusing.
- StudentService.DeleteAsync: the repository's delete receives the entity; it is modelled through the entity's id.
- The new student built by StudentService.PostAsync is assumed to take status Active, age 0 and balance 0; the Student entity's initialisers are not part of this model.
- SchoolService: only the schools set is saved; the second `Add` after the address change stays pending because the context is not saved again.
- SchoolService.GetSchoolDetail: the projection to the view model is reduced to the school and its students.
- UnitOfWork: the fourteen named properties share one member, `Property(t)`, with `StudentRepository` written out as one instance; the repositories it hands out are handles over the context.
- The unit-of-work services' repository helpers (`Query`, `FindAsync`, `FirstOrDefaultAsync`, `SoftDeleteById`, `Update`, `Remove`) are not part of this model; they are modelled as the store operations they name, and `SoftDeleteById` as marking the row Deleted.
- StudentServiceWithRepository: the sequence of steps a call takes is returned as a ghost out-parameter, so the steps are stated per call but not kept across calls.
- Text.ToLower: lowers only the ASCII letters A to Z. The lowering of other letters and culture-specific rules (a Turkish culture lowers 'I' to a dotless 'ı') are not modelled.
- Strings are sequences of Unicode scalar values, so a .NET string holding an unpaired surrogate cannot be written in the model.
- StudentServiceWithRepository.TransferStudentToNewSchoolAsync: the method models the intended move, which sets the student's own school id. Line 175 as written writes the key of the student's School; that behaviour is `TransferAsWritten` (see Findings).
- StudentServiceWithRepository.UpdateStudentAsync: the method models the intended check, which reads the student's own `schoolId`. The read of `existingStudent.School.Id` at line 89 as written is `UpdateStudentAsWritten` (see Findings).
- UnitOfWork.constructor: requires a context with no current transaction, as a freshly created context is; a context handed over inside a transaction is not modelled.
- UnitOfWork.SaveChanges, SaveChangesAsync, SaveChangesAsyncWithToken, BeginTransactionAsync, CommitTransactionAsync, RollbackTransactionAsync: each requires a unit of work that is not disposed. The `ObjectDisposedException` the context throws after `Dispose` is not modelled.
- Store.Table.Update: only `GenericRepository.UpdateAsync` models `DbSet.Update` tracking an entity with key 0 as Added; the services that call `Update` directly (the unit-of-work paths, SchoolService, CourseRepository) always stage Modified, since they update only after `Find` has found a stored row with the entity's key, and in the database a stored key is never 0 because identity values start at 1 (the model's tables do not record that bound).
- GenericRepository.AddAsync, UpdateAsync, DeleteAsync: `_dbContext.SaveChangesAsync()` flushes every tracked set of the context; the model saves only the repository's own table. The same holds for the student repositories' saves, for `CourseRepo.CourseRepository` (AddCourseAsync, UpdateCourseAsync, DeleteCourseAsync) and for `CourseService`, which saves through it.
- Balance: a `decimal` in the code (`StudentCreateViewModel.Balance`), an unbounded `int` in the model; its precision and range are not modelled.
- Controllers, middleware, dependency injection and the view-model annotations are outside the core.
