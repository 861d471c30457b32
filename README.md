# Member/Team entities and the member repository, modelled in Dafny

This project models the authored logic of a small persistence demo that has
two entities, `Member` and `Team`, and one repository interface over members.

- **Entity** (`Entity.dfy`) is the object graph. A `Member` object points at
  its `Team`, and a `Team` object holds a `seq<Member>`. The `Member`
  constructor and `ChangeTeam` are methods that change these objects in
  place. They keep every quirk of the code:
  - the old team's list is replaced by a copy filtered **by id**;
  - `changeTeam(null)` drops the member from its team's list but keeps the
    member's `team` reference;
  - re-joining the current team removes the member and then re-appends it;
  - filtering fails with a null-pointer exception when any member of the
    old team's list has no id yet. The model returns `NullIdInOldTeam` in
    that case, and nothing changes, because the exception comes before the
    list is replaced.
- **Repository** (`Repository.dfy`) is the repository as an in-memory table.
  The class `MemberStore` holds the rows as a `seq<MemberRecord>` in
  insertion order, plus the next id to hand out:
  - `Save`, `Delete` and the bulk update `BulkAgePlus` are methods that
    reassign the table. `BulkAgePlus` is a loop over the rows that bumps
    ages in place and counts the rows it changed.
  - Every query is a function that reads the table. Each one is written as a
    filter (`Where` with a `Criterion`, one constructor per where-clause
    condition), a projection or a page.
  - Paging follows the declared queries. `findByAge` uses the content query
    `select m from Member m left join m.team t`, which has no age condition,
    and the count query `select count(m) from Member m`. `findSliceByAge`
    filters on age, fetches one row more than the page size, and counts
    nothing.

The Dafny `Entity.Member` objects and the `Repository.MemberRecord` rows are
separate. The entity module is about the in-memory association. The
repository module is about what the stored table answers.

Assumptions about code that is not part of this model:
- Page metadata follows Spring Data's `PageImpl`. `totalPages` is
  `ceil(totalElements / size)`, `isFirst` is `number == 0`, and `hasNext` is
  `number + 1 < totalPages`. The contracts of `Page.TotalPages` and
  `Page.HasNext` prove that these are the ceiling, and the same as
  `(number + 1) * size < totalElements`.
- `save` of a record that has no id, or whose id is not stored, inserts it
  under a fresh id from a counter that starts at 1. Saving a record whose id
  is stored overwrites that row in place.
- `delete` removes the row with the record's id. A record without an id, or
  with an id that is not stored, leaves the table unchanged.
- `Team.java` is not part of this model. `Team` has only a constant `name`
  and a mutable `members` list, and a new team starts with an empty list.

Behaviour of the code that a reader might not expect, which the model keeps:
- `changeTeam(null)` keeps the old `team` reference (`Member.java:40`), so
  the member points at a team that no longer lists it.
- A team's members are a `List`. It is appended to and filtered by id, and
  never de-duplicated.
- The content and count queries of `findByAge` (`MemberRepository.java:43-44`)
  have no age condition. The page is taken from all members, whatever the age.

## Model

| member | source | states |
|---|---|---|
| Entity.Team.constructor | src/test/java/study/datajpa/entity/MemberTest.java:26-27 | A new team has the given name and an empty member list. |
| Entity.Without | src/main/java/study/datajpa/entity/Member.java:38 | The filtered list contains exactly the elements of the old list whose id differs from the leaving member's id, and it is no longer than the old list. |
| Entity.WithoutConcat | src/main/java/study/datajpa/entity/Member.java:38 | Filtering distributes over concatenation, so the members that stay keep their relative order. |
| Entity.WithoutAbsent | src/main/java/study/datajpa/entity/Member.java:38 | If no element carries the id, the filter returns the list unchanged. For example, a member with a null id removes nobody from a list of persisted members. |
| Entity.WithoutDistinct | src/main/java/study/datajpa/entity/Member.java:37-39 | With unique ids, leaving removes exactly the leaving member's position (`s[..k] + s[k+1..]`), and every other member stays in order. |
| Entity.Member.constructor | src/main/java/study/datajpa/entity/Member.java:30-34 | Sets username and age and leaves the id null. Then it performs the changeTeam update on a member with no team: the member points at the given team, the team's list is the old list plus this member at the end, and the back reference holds. |
| Entity.Member.ChangeTeam | src/main/java/study/datajpa/entity/Member.java:36-44 | Fails, changing nothing, exactly when the old team's list has a member without an id. Otherwise: the old team's list becomes the id-filtered list, without this member. A non-null target becomes the member's team and gets the member as its last element. Re-joining the current team leaves exactly one occurrence of the member. A null target keeps the old team reference, so the member is no longer in its own team's list. Id, username and age never change. |
| Entity.CountInTeam | src/test/java/study/datajpa/entity/MemberTest.java:50-51 | Counts the members whose team has the given name: at most the number of members, zero exactly when no member's team has the name, and all of them exactly when every member's team has it. |
| Entity.CountInTeamConcat | src/test/java/study/datajpa/entity/MemberTest.java:50-51 | The count over a concatenation is the sum of the counts of its parts. Together with the single-member case, this fixes the count as the number of matching members. |
| Entity.CountTwoPerTeam | src/test/java/study/datajpa/entity/MemberTest.java:49-51 | Two members on "teamA" followed by two on "teamB" count two for each name. |
| Entity.BuildTwoTeams | src/test/java/study/datajpa/entity/MemberTest.java:26-35 | Two teams and four members built two per team: the first two point at "teamA", the last two at "teamB", and each team lists its two members in construction order. |
| Entity.TwoTeamsOfTwo | src/test/java/study/datajpa/entity/MemberTest.java:26-51 | Building four members, two per team, gives four members, two of them in "teamA" and two in "teamB". |
| Entity.UnsavedMemberCannotMove | src/main/java/study/datajpa/entity/Member.java:38 | A member built with a team but never persisted cannot change team. Its old team lists the member itself with a null id, so the call fails and both teams stay as they were. |
| Repository.Where | src/main/java/study/datajpa/repository/MemberRepository.java:22-41 | A where-clause keeps exactly the rows that satisfy the condition, and never more rows than the table has. |
| Repository.WhereMultiset | src/main/java/study/datajpa/repository/MemberRepository.java:22-41 | A where-clause keeps every matching row exactly as often as the table holds it, and drops every other row. |
| Repository.WhereConcat | src/main/java/study/datajpa/repository/MemberRepository.java:22-41 | Filtering distributes over concatenation, so query results keep table order. |
| Repository.WhereKeepsDistinct | src/main/java/study/datajpa/repository/MemberRepository.java:20 | Filtering a table with unique ids yields rows with unique ids. |
| Repository.WhereIdIsSingle | src/test/java/study/datajpa/repository/MemberRepositoryTest.java:37-42 | In a table with unique ids, the lookup by a stored id selects exactly the row that has that id. |
| Repository.WhereIdIsNotRemovesOne | src/test/java/study/datajpa/repository/MemberRepositoryTest.java:50-53 | In a table with unique ids, deleting by a stored id removes exactly that row, and the other rows stay in order. |
| Repository.RemoveById | src/test/java/study/datajpa/repository/MemberRepositoryTest.java:50-53 | Deleting by an id from a table with unique ids keeps ids unique. It removes exactly the row that has the id, keeping the others in order, and leaves a table that lacks the id unchanged. |
| Repository.Window | src/main/java/study/datajpa/repository/MemberRepository.java:43-47 | The window holds at most `limit` rows, starting at `offset`. It holds fewer only when the table runs out. |
| Repository.Usernames | src/main/java/study/datajpa/repository/MemberRepository.java:29 | The username column has one entry per row, in row order. |
| Repository.Dtos | src/main/java/study/datajpa/repository/MemberRepository.java:32 | The inner join gives one (id, username, team name) tuple per row that has a team. Every such row is represented, in table order, and rows without a team drop out. |
| Repository.PageOf | src/main/java/study/datajpa/repository/MemberRepository.java:43-45 | A page holds at most `size` consecutive rows, starting at `page * size`. It carries the requested position and the total from the count query. |
| Repository.SliceOf | src/main/java/study/datajpa/repository/MemberRepository.java:47 | A slice holds the consecutive rows starting at `page * size`: exactly `size` of them, or fewer only when the input runs out, all taken from the input. `hasNext` holds exactly when at least one more row follows. |
| Repository.MemberStore.constructor | src/main/java/study/datajpa/repository/MemberRepository.java:20 | A new repository is empty and valid: stored ids are unique and below the next id. |
| Repository.MemberStore.Save | src/main/java/study/datajpa/repository/MemberRepository.java:20 | A record with no id, or with an id that is not stored, is appended under a fresh id. A record whose id is stored overwrites that row in place. Either way the saved row keeps the username, age and team, findById on its id returns it, and ids stay unique. |
| Repository.MemberStore.FindById | src/main/java/study/datajpa/repository/MemberRepository.java:20 | Returns a stored row with that id, and is empty exactly when no row has the id. With unique ids, it returns the row that has the id. |
| Repository.MemberStore.FindAll | src/main/java/study/datajpa/repository/MemberRepository.java:56-58 | Lists every stored row, once each. |
| Repository.MemberStore.FindMemberFetchJoin | src/main/java/study/datajpa/repository/MemberRepository.java:53-54 | Returns the same rows as findAll. The left join keeps members without a team. |
| Repository.MemberStore.FindMemberEntityGraph | src/main/java/study/datajpa/repository/MemberRepository.java:60-62 | Returns the same rows as findAll. |
| Repository.MemberStore.Count | src/main/java/study/datajpa/repository/MemberRepository.java:20 | The inherited count equals the size of findAll and the length of the username list. |
| Repository.MemberStore.Delete | src/main/java/study/datajpa/repository/MemberRepository.java:20 | Afterwards the table is exactly the old rows with a different id, in their old order. Deleting the row at position k leaves `old[..k] + old[k+1..]`, so the table shrinks by one, and findById on that id is empty. A record with no id, or an id that is not stored, changes nothing. |
| Repository.MemberStore.FindByUsernameAndAgeGreaterThan | src/main/java/study/datajpa/repository/MemberRepository.java:22 | Returns exactly the stored rows with that username and an age greater than the argument. Each such row appears as often as it is stored, so a row stored once is returned once. |
| Repository.MemberStore.FindByUsernameAndAgeLessThan | src/main/java/study/datajpa/repository/MemberRepository.java:24 | Returns exactly the stored rows with that username and an age less than the argument. Each such row appears as often as it is stored, so a row stored once is returned once. |
| Repository.MemberStore.FindUser | src/main/java/study/datajpa/repository/MemberRepository.java:26-27 | Returns exactly the stored rows with that username and that age. Each such row appears as often as it is stored, so a row stored once is returned once. |
| Repository.MemberStore.FindUsernameList | src/main/java/study/datajpa/repository/MemberRepository.java:29-30 | Returns one username per stored row, in table order. |
| Repository.MemberStore.FindMemberDto | src/main/java/study/datajpa/repository/MemberRepository.java:32-33 | Returns the (id, username, team name) tuple of each stored row that has a team, in table order: the i-th tuple is the DTO of the i-th row with a team, and every such row is represented. Rows without a team are excluded. |
| Repository.MemberStore.FindByNames | src/main/java/study/datajpa/repository/MemberRepository.java:35-36 | Returns exactly the stored rows whose username is in the given list. Each such row appears as often as it is stored, so a row stored once is returned once. |
| Repository.MemberStore.FindListByUsername | src/main/java/study/datajpa/repository/MemberRepository.java:39 | Returns exactly the rows with that username. Each such row appears as often as it is stored, so a row stored once is returned once. The result is empty exactly when no row has the username. |
| Repository.MemberStore.FindSingleByUsername | src/main/java/study/datajpa/repository/MemberRepository.java:40-41 | Returns the one row with that username, or absent (null, or an empty Optional) exactly when no row has it. |
| Repository.MemberStore.FindEntityGraphByUsername | src/main/java/study/datajpa/repository/MemberRepository.java:64-66 | Returns exactly the rows with that username. Each such row appears as often as it is stored, so a row stored once is returned once. |
| Repository.MemberStore.RowsWithAge | src/main/java/study/datajpa/repository/MemberRepository.java:47 | The where-clause of findSliceByAge keeps exactly the stored rows with that age. Each such row appears as often as it is stored, so a row stored once is returned once. |
| Repository.MemberStore.FindByAge | src/main/java/study/datajpa/repository/MemberRepository.java:43-45 | The page content comes from all stored rows, whatever the age argument. The total is the number of all stored rows. The page holds at most `size` consecutive rows, starting at `page * size`. |
| Repository.MemberStore.FindSliceByAge | src/main/java/study/datajpa/repository/MemberRepository.java:47 | The slice holds the rows with that age at positions `page * size` onwards of the age-filtered table: exactly `size` of them, or fewer only when the matching rows run out. `hasNext` holds exactly when more rows of that age exist beyond `(page + 1) * size`. |
| Repository.MemberStore.BulkAgePlus | src/main/java/study/datajpa/repository/MemberRepository.java:49-51 | Every row with age at least the argument gets exactly `age + 1`, and the other rows keep their age. No id, username or team changes, and the row order stays the same. The result is the number of rows that had age at least the argument before the call. |
| Repository.Page.TotalPages | src/test/java/study/datajpa/repository/MemberRepositoryTest.java:171 | `totalPages` is the ceiling of total / size: the pages hold every row, the last page is not empty, and no rows give no pages. |
| Repository.Page.HasNext | src/test/java/study/datajpa/repository/MemberRepositoryTest.java:173 | `hasNext` holds exactly when `(number + 1) * size < totalElements`. |
| Repository.FirstPageHoldsLeadingRows | src/test/java/study/datajpa/repository/MemberRepositoryTest.java:172 | A page is the first one (`isFirst`) exactly when its offset is 0, and the first page holds the leading `size` rows of the table. |
| Repository.SliceAgreesWithPage | src/main/java/study/datajpa/repository/MemberRepository.java:47 | Over the same rows, the slice (fetch size + 1, no count) has the same content as the page, and its `hasNext` equals the page's count-based `hasNext`. |
| Repository.BasicCrud | src/test/java/study/datajpa/repository/MemberRepositoryTest.java:31-53 | Two saves get distinct ids and each can be found by its id. findAll lists 2 rows and count is 2. After deleting both, count is 0. |
| Repository.GreaterThanFindsOne | src/test/java/study/datajpa/repository/MemberRepositoryTest.java:57-67 | With "AAA"/20 and "BBB"/10 stored, the query for "AAA" older than 15 returns one row, named "AAA" and aged 20. |
| Repository.SingleMatch | src/test/java/study/datajpa/repository/MemberRepositoryTest.java:67 | If the first of two rows is the only match, a result that keeps each matching row as often as it is stored is exactly that row. |
| Repository.PageOfFive | src/test/java/study/datajpa/repository/MemberRepositoryTest.java:149-173 | With five stored members, page 0 of size 3 has 3 rows, 5 total elements, 2 total pages and page number 0. It is the first page and has a next page. |

## Left out

- Repository.MemberStore.FindByAge: ignores the `Sort` of the page request (username, descending, in the test), so the content is in table order. Sorting is done by the framework, which is not part of this model. In the test all usernames are equal, so the sort does not affect what is asserted.
- Repository.MemberStore.FindSliceByAge: ignores the `Sort` of the page request, like findByAge, so the slice is in table order.
- Repository.MemberStore.FindSingleByUsername: requires at most one row with the username. When several rows match, the framework throws, and that code is not part of this model.
- Repository.MemberStore.BulkAgePlus: ages are unbounded integers, so a 32-bit overflow of `age + 1` is not modelled. The persistence-context clearing (`clearAutomatically = true`) and stale in-memory copies are not modelled either, because the model has one authoritative table and no cache.
- Repository.PageOf: the total comes from the count query as is. The adjustments `PageImpl` makes when the content runs short of the count are framework code and are not part of this model.
- Fetch strategy (`FetchType.LAZY`, `@NamedEntityGraph`, `@EntityGraph`, `left join fetch`) only changes SQL round trips. The fetch-join and entity-graph queries return the same rows as their plain versions.
- `CascadeType.ALL` persistence of teams, and team ids, are not modelled. No property depends on them.
- The named query `Member.findByUsername` (`Member.java:14-15`) is used by no declared repository method, so it is not modelled.
- The link between entity objects and stored rows (managed entities, identity of the object that `save` receives) is not modelled. The repository stores record values.
- The `Page.map` conversion to DTOs in the paging test, the body of `MemberDto`, Lombok's generated accessors and `toString`, logging, transactions and test wiring are not modelled.
- Ids are unbounded integers, not 64-bit `Long` values.
