/**
 * The member repository as an in-memory table.
 *
 * Every query of the repository interface is a filter, a projection or a
 * page over one table of member rows, in insertion order. The table is a
 * `seq` held by the MemberStore class; save, delete and the bulk age update
 * are methods that reassign it, the queries are functions that read it.
 */
module Repository {
  import opened Wrappers

  datatype TeamRecord = TeamRecord(name: string)

  /** A member as the repository sees it; `id` is None until it is saved. */
  datatype MemberRecord = MemberRecord(id: Option<int>, username: string, age: int, team: Option<TeamRecord>)

  /** The (id, username, team name) projection of the DTO query. */
  datatype MemberDto = MemberDto(id: Option<int>, username: string, teamName: string)

  /** One condition of a where-clause, and their conjunction. */
  datatype Criterion =
    | IdIs(id: int)
    | IdIsNot(id: int)
    | UsernameIs(username: string)
    | UsernameIn(names: seq<string>)
    | AgeIs(age: int)
    | AgeGreaterThan(age: int)
    | AgeLessThan(age: int)
    | AgeAtLeast(age: int)
    | HasTeam
    | And(left: Criterion, right: Criterion)

  predicate Matches(c: Criterion, m: MemberRecord)
  {
    match c
    case IdIs(id) => m.id == Some(id)
    case IdIsNot(id) => m.id != Some(id)
    case UsernameIs(username) => m.username == username
    case UsernameIn(names) => m.username in names
    case AgeIs(age) => m.age == age
    case AgeGreaterThan(age) => m.age > age
    case AgeLessThan(age) => m.age < age
    case AgeAtLeast(age) => m.age >= age
    case HasTeam => m.team.Some?
    case And(left, right) => Matches(left, m) && Matches(right, m)
  }

  /** The rows of `s` that satisfy `c`, in table order. */
  function Where(s: seq<MemberRecord>, c: Criterion): (r: seq<MemberRecord>)
    ensures forall m :: m in r <==> m in s && Matches(c, m)
    ensures |r| <= |s|
  {
    if s == [] then []
    else (if Matches(c, s[0]) then [s[0]] else []) + Where(s[1..], c)
  }

  /** A where-clause keeps every matching row exactly as often as the table
      holds it, and no other row. */
  lemma {:induction false} WhereMultiset(s: seq<MemberRecord>, c: Criterion)
    ensures forall m :: multiset(Where(s, c))[m] == if Matches(c, m) then multiset(s)[m] else 0
  {
    if s != [] {
      assert s == [s[0]] + s[1..];
      WhereMultiset(s[1..], c);
    }
  }

  /** No two rows share an id (the entity layer states the same property of
      a team's member list). */
  ghost predicate DistinctIds(s: seq<MemberRecord>)
  {
    forall i, j :: 0 <= i < j < |s| ==> s[i].id != s[j].id
  }

  function Min(a: int, b: int): int
  {
    if a <= b then a else b
  }

  /** The rows `s[offset..]`, at most `limit` of them: a LIMIT/OFFSET query. */
  function Window(s: seq<MemberRecord>, offset: nat, limit: nat): (r: seq<MemberRecord>)
    ensures |r| == if offset >= |s| then 0 else Min(limit, |s| - offset)
    ensures forall i :: 0 <= i < |r| ==> offset + i < |s| && r[i] == s[offset + i]
    ensures forall m :: m in r ==> m in s
  {
    if offset >= |s| then [] else s[offset..offset + Min(limit, |s| - offset)]
  }

  /** The username column of `s`, one entry per row. */
  function Usernames(s: seq<MemberRecord>): (r: seq<string>)
    ensures |r| == |s|
    ensures forall i :: 0 <= i < |s| ==> r[i] == s[i].username
  {
    if s == [] then [] else [s[0].username] + Usernames(s[1..])
  }

  /** The DTO of a member that has a team. */
  function DtoOf(m: MemberRecord): MemberDto
    requires m.team.Some?
  {
    MemberDto(m.id, m.username, m.team.value.name)
  }

  /** The DTO projection over `s` joined with its teams: one tuple for each
      row that has a team, in table order; rows without a team drop out. */
  function Dtos(s: seq<MemberRecord>): (r: seq<MemberDto>)
    ensures |r| == |Where(s, HasTeam)|
    ensures forall m :: m in s && m.team.Some? ==> DtoOf(m) in r
    ensures forall i :: 0 <= i < |r| ==>
              var m := Where(s, HasTeam)[i];
              m.team.Some? && r[i] == DtoOf(m)
  {
    if s == [] then []
    else if s[0].team.Some? then [DtoOf(s[0])] + Dtos(s[1..])
    else Dtos(s[1..])
  }

  /** A page request: zero-based page index and page size. */
  datatype PageRequest = PageRequest(page: nat, size: nat)
  {
    function Offset(): nat { page * size }
  }

  /** A page: its content, its position, and the total row count of the
      separate count query. */
  datatype Page = Page(content: seq<MemberRecord>, number: nat, size: nat, totalElements: nat)
  {
    /** The number of pages: the ceiling of totalElements / size. The pages
        hold every row, and the last page is not empty. */
    function TotalPages(): (pages: nat)
      requires size > 0
      ensures totalElements <= pages * size
      ensures totalElements > 0 ==> (pages - 1) * size < totalElements
      ensures totalElements == 0 ==> pages == 0
    {
      CeilingDivision(totalElements, size);
      (totalElements + size - 1) / size
    }

    predicate IsFirst()
    {
      number == 0
    }

    /** A page has a successor exactly when the pages up to and including it
        do not exhaust the total. */
    function HasNext(): (b: bool)
      requires size > 0
      ensures b <==> (number + 1) * size < totalElements
    {
      BelowCeiling(number + 1, totalElements, size);
      number + 1 < TotalPages()
    }
  }

  /** A slice: content plus whether another row exists after it. */
  datatype Slice = Slice(content: seq<MemberRecord>, number: nat, size: nat, hasNext: bool)

  /** The page of `s` that `request` selects, with `total` from the count query. */
  function PageOf(s: seq<MemberRecord>, total: nat, request: PageRequest): (p: Page)
    ensures p.number == request.page && p.size == request.size && p.totalElements == total
    ensures |p.content| <= request.size
    ensures forall i :: 0 <= i < |p.content| ==>
              request.Offset() + i < |s| && p.content[i] == s[request.Offset() + i]
    ensures request.Offset() < |s| ==> |p.content| == Min(request.size, |s| - request.Offset())
  {
    Page(Window(s, request.Offset(), request.size), request.page, request.size, total)
  }

  /** The slice of `s` that `request` selects: fetch one row more than the
      page size and keep the page size, without counting. */
  function SliceOf(s: seq<MemberRecord>, request: PageRequest): (r: Slice)
    ensures r.number == request.page && r.size == request.size
    ensures |r.content| <= request.size
    ensures forall i :: 0 <= i < |r.content| ==>
              request.Offset() + i < |s| && r.content[i] == s[request.Offset() + i]
    ensures forall m :: m in r.content ==> m in s
    ensures request.Offset() < |s| ==> |r.content| == Min(request.size, |s| - request.Offset())
    ensures r.hasNext <==> request.Offset() + request.size < |s|
  {
    var fetched := Window(s, request.Offset(), request.size + 1);
    Slice(fetched[..Min(request.size, |fetched|)], request.page, request.size, |fetched| > request.size)
  }

  class MemberStore {
    var rows: seq<MemberRecord>
    var nextId: int

    /** Every stored row has an id below the next one to hand out, and ids
        are unique. */
    ghost predicate Valid()
      reads this
    {
      && nextId >= 1
      && (forall m :: m in rows ==> m.id.Some? && 1 <= m.id.value < nextId)
      && DistinctIds(rows)
    }

    constructor ()
      ensures Valid() && rows == []
    {
      rows := [];
      nextId := 1;
    }

    /** Inserts a member that has no id (or whose id is not stored) under a
        fresh id, or overwrites the stored row that has its id. */
    method Save(m: MemberRecord) returns (saved: MemberRecord)
      requires Valid()
      modifies this
      ensures Valid()
      ensures saved.id.Some? && FindById(saved.id.value) == Some(saved)
      ensures saved.username == m.username && saved.age == m.age && saved.team == m.team
      ensures m.id.Some? && old(FindById(m.id.value)).Some? ==>
                && saved.id == m.id && nextId == old(nextId)
                && |rows| == |old(rows)|
                && forall i :: 0 <= i < |rows| ==>
                     rows[i] == if old(rows)[i].id == m.id then saved else old(rows)[i]
      ensures !(m.id.Some? && old(FindById(m.id.value)).Some?) ==>
                && saved.id == Some(old(nextId)) && nextId == old(nextId) + 1
                && rows == old(rows) + [saved]
    {
      if m.id.Some? && FindById(m.id.value).Some? {
        var before := rows;
        saved := m;
        var k :| 0 <= k < |before| && before[k] == FindById(m.id.value).value;
        rows := seq(|before|, i requires 0 <= i < |before| =>
                      if before[i].id == m.id then saved else before[i]);
        forall i | 0 <= i < |before| && i != k ensures before[i].id != m.id {
          if i < k { assert before[i].id != before[k].id; }
          else { assert before[k].id != before[i].id; }
        }
        assert rows[k] == saved;
        SameIdsKeepValid(before, rows, nextId);
        WhereIdIsSingle(rows, k);
      } else {
        saved := m.(id := Some(nextId));
        rows := rows + [saved];
        nextId := nextId + 1;
        assert DistinctIds(rows) by {
          forall i, j | 0 <= i < j < |rows| ensures rows[i].id != rows[j].id {
            if j == |rows| - 1 {
              assert rows[i] in old(rows);
            } else {
              assert rows[i] == old(rows)[i] && rows[j] == old(rows)[j];
            }
          }
        }
        WhereIdIsSingle(rows, |rows| - 1);
      }
    }

    /** The stored row with this id, if any. */
    function FindById(id: int): (r: Option<MemberRecord>)
      reads this
      ensures r.Some? ==> r.value in rows && r.value.id == Some(id)
      ensures r.None? <==> forall m :: m in rows ==> m.id != Some(id)
      ensures DistinctIds(rows) ==> forall m :: m in rows && m.id == Some(id) ==> r == Some(m)
    {
      var hits := Where(rows, IdIs(id));
      WhereIdIsSingleAll(rows);
      if hits == [] then None else assert hits[0] in hits; Some(hits[0])
    }

    /** Every stored row (with or without an eagerly loaded team). */
    function FindAll(): (r: seq<MemberRecord>)
      reads this
      ensures |r| == |rows|
      ensures forall m :: m in r <==> m in rows
    {
      rows
    }

    /** The fetch-join query: the same rows as FindAll. */
    function FindMemberFetchJoin(): (r: seq<MemberRecord>)
      reads this
      ensures r == FindAll()
    {
      rows
    }

    /** The entity-graph query: the same rows as FindAll. */
    function FindMemberEntityGraph(): (r: seq<MemberRecord>)
      reads this
      ensures r == FindAll()
    {
      rows
    }

    /** The row count; it agrees with FindAll and with the username projection. */
    function Count(): (n: nat)
      reads this
      ensures n == |FindAll()| && n == |FindUsernameList()|
    {
      |rows|
    }

    /** Removes the stored row with the member's id; a member without an id,
        or with an id not stored, leaves the table as it is. */
    method Delete(m: MemberRecord)
      requires Valid()
      modifies this
      ensures Valid() && nextId == old(nextId)
      ensures m.id.None? ==> rows == old(rows)
      ensures m.id.Some? ==> rows == Where(old(rows), IdIsNot(m.id.value))
      ensures m.id.Some? ==> forall x :: x in rows <==> x in old(rows) && x.id != m.id
      ensures m.id.Some? ==> FindById(m.id.value) == None
      ensures m.id.Some? ==> forall k :: 0 <= k < |old(rows)| && old(rows)[k].id == m.id ==>
                rows == old(rows)[..k] + old(rows)[k + 1..]
      ensures m.id.Some? && old(FindById(m.id.value)).Some? ==> |rows| == |old(rows)| - 1
      ensures m.id.Some? && old(FindById(m.id.value)).None? ==> rows == old(rows)
    {
      if m.id.Some? {
        var before := rows;
        rows := Where(before, IdIsNot(m.id.value));
        RemoveById(before, m.id.value);
      }
    }

    /** findByUsernameAndAgeGreaterThan: exactly the rows with this username
        and a greater age. */
    function FindByUsernameAndAgeGreaterThan(username: string, age: int): (r: seq<MemberRecord>)
      reads this
      ensures forall m :: m in r <==> m in rows && m.username == username && m.age > age
      ensures forall m :: multiset(r)[m] == if m.username == username && m.age > age then multiset(rows)[m] else 0
    {
      var c := And(UsernameIs(username), AgeGreaterThan(age));
      assert forall m :: Matches(c, m) <==> m.username == username && m.age > age;
      WhereMultiset(rows, c);
      Where(rows, c)
    }

    /** findByUsernameAndAgeLessThan: exactly the rows with this username
        and a smaller age. */
    function FindByUsernameAndAgeLessThan(username: string, age: int): (r: seq<MemberRecord>)
      reads this
      ensures forall m :: m in r <==> m in rows && m.username == username && m.age < age
      ensures forall m :: multiset(r)[m] == if m.username == username && m.age < age then multiset(rows)[m] else 0
    {
      var c := And(UsernameIs(username), AgeLessThan(age));
      assert forall m :: Matches(c, m) <==> m.username == username && m.age < age;
      WhereMultiset(rows, c);
      Where(rows, c)
    }

    /** findUser: exactly the rows with this username and this age. */
    function FindUser(username: string, age: int): (r: seq<MemberRecord>)
      reads this
      ensures forall m :: m in r <==> m in rows && m.username == username && m.age == age
      ensures forall m :: multiset(r)[m] == if m.username == username && m.age == age then multiset(rows)[m] else 0
    {
      var c := And(UsernameIs(username), AgeIs(age));
      assert forall m :: Matches(c, m) <==> m.username == username && m.age == age;
      WhereMultiset(rows, c);
      Where(rows, c)
    }

    /** findUsernameList: the username of every row, in table order. */
    function FindUsernameList(): (r: seq<string>)
      reads this
      ensures |r| == |rows|
      ensures forall i :: 0 <= i < |rows| ==> r[i] == rows[i].username
    {
      Usernames(rows)
    }

    /** findMemberDto: one (id, username, team name) tuple per row that has a
        team (inner join), in table order; rows without a team drop out. */
    function FindMemberDto(): (r: seq<MemberDto>)
      reads this
      ensures |r| == |Where(rows, HasTeam)| <= |rows|
      ensures forall m :: m in rows && m.team.Some? ==> DtoOf(m) in r
      ensures var joined := Where(rows, HasTeam);
              forall i :: 0 <= i < |r| ==> joined[i].team.Some? && r[i] == DtoOf(joined[i])
    {
      Dtos(rows)
    }

    /** findByNames: exactly the rows whose username is one of `names`. */
    function FindByNames(names: seq<string>): (r: seq<MemberRecord>)
      reads this
      ensures forall m :: m in r <==> m in rows && m.username in names
      ensures forall m :: multiset(r)[m] == if m.username in names then multiset(rows)[m] else 0
    {
      WhereMultiset(rows, UsernameIn(names));
      Where(rows, UsernameIn(names))
    }

    /** findListByUsername: the rows with this username; empty when none. */
    function FindListByUsername(username: string): (r: seq<MemberRecord>)
      reads this
      ensures forall m :: m in r <==> m in rows && m.username == username
      ensures forall m :: multiset(r)[m] == if m.username == username then multiset(rows)[m] else 0
      ensures r == [] <==> forall m :: m in rows ==> m.username != username
    {
      var r := Where(rows, UsernameIs(username));
      assert r != [] ==> r[0] in r;
      WhereMultiset(rows, UsernameIs(username));
      r
    }

    /** findMemberByUsername / findOptionalByUsername: the one row with this
        username, or absent (null / an empty Optional) when there is none. */
    function FindSingleByUsername(username: string): (r: Option<MemberRecord>)
      reads this
      requires |FindListByUsername(username)| <= 1
      ensures r.None? <==> forall m :: m in rows ==> m.username != username
      ensures r.Some? ==> r.value in rows && r.value.username == username
    {
      var hits := FindListByUsername(username);
      if hits == [] then None else assert hits[0] in hits; Some(hits[0])
    }

    /** findEntityGraphByUsername: the rows with this username. */
    function FindEntityGraphByUsername(username: string): (r: seq<MemberRecord>)
      reads this
      ensures forall m :: m in r <==> m in rows && m.username == username
      ensures forall m :: multiset(r)[m] == if m.username == username then multiset(rows)[m] else 0
    {
      WhereMultiset(rows, UsernameIs(username));
      Where(rows, UsernameIs(username))
    }

    /** findByAge as declared: the content query selects every member
        regardless of `age`, and the count query counts every member. */
    function FindByAge(age: int, request: PageRequest): (p: Page)
      reads this
      ensures p.number == request.page && p.size == request.size
      ensures p.totalElements == |rows|
      ensures |p.content| <= request.size
      ensures forall i :: 0 <= i < |p.content| ==>
                request.Offset() + i < |rows| && p.content[i] == rows[request.Offset() + i]
      ensures request.Offset() < |rows| ==> |p.content| == Min(request.size, |rows| - request.Offset())
    {
      PageOf(rows, |rows|, request)
    }

    /** The rows with this age, in table order: the where-clause of
        findSliceByAge. */
    function RowsWithAge(age: int): (r: seq<MemberRecord>)
      reads this
      ensures forall m :: m in r <==> m in rows && m.age == age
      ensures forall m :: multiset(r)[m] == if m.age == age then multiset(rows)[m] else 0
    {
      WhereMultiset(rows, AgeIs(age));
      Where(rows, AgeIs(age))
    }

    /** findSliceByAge: a slice of the rows with this age; it says whether a
        further matching row exists without counting them. */
    function FindSliceByAge(age: int, request: PageRequest): (r: Slice)
      reads this
      ensures r.number == request.page && r.size == request.size
      ensures |r.content| <= request.size
      ensures forall m :: m in r.content ==> m in rows && m.age == age
      ensures forall i :: 0 <= i < |r.content| ==>
                request.Offset() + i < |RowsWithAge(age)| &&
                r.content[i] == RowsWithAge(age)[request.Offset() + i]
      ensures request.Offset() < |RowsWithAge(age)| ==>
                |r.content| == Min(request.size, |RowsWithAge(age)| - request.Offset())
      ensures r.hasNext <==> request.Offset() + request.size < |RowsWithAge(age)|
    {
      SliceOf(RowsWithAge(age), request)
    }

    /** bulkAgePlus: adds one to the age of every row whose age is at least
        `age`, leaves every other column and row alone, and returns how many
        rows it changed. */
    method BulkAgePlus(age: int) returns (updated: nat)
      requires Valid()
      modifies this
      ensures Valid() && nextId == old(nextId)
      ensures |rows| == |old(rows)|
      ensures forall i :: 0 <= i < |rows| ==>
                && rows[i].id == old(rows)[i].id
                && rows[i].username == old(rows)[i].username
                && rows[i].team == old(rows)[i].team
                && rows[i].age == if old(rows)[i].age >= age then old(rows)[i].age + 1 else old(rows)[i].age
      ensures updated == |Where(old(rows), AgeAtLeast(age))|
    {
      ghost var before := rows;
      updated := 0;
      var i := 0;
      while i < |rows|
        invariant 0 <= i <= |rows| == |before|
        invariant nextId == old(nextId)
        invariant forall j :: 0 <= j < i ==> rows[j] == Bumped(before[j], age)
        invariant forall j :: i <= j < |rows| ==> rows[j] == before[j]
        invariant updated == |Where(before[..i], AgeAtLeast(age))|
      {
        AgeAtLeastStep(before, i, age);
        if rows[i].age >= age {
          updated := updated + 1;
        }
        rows := rows[i := Bumped(rows[i], age)];
        i := i + 1;
      }
      assert before[..i] == before;
      SameIdsKeepValid(before, rows, nextId);
      BumpedFields(before, rows, age);
    }
  }

  /** Extending a prefix by one row adds one match exactly when that row
      matches. */
  lemma WherePrefixStep(s: seq<MemberRecord>, i: nat, c: Criterion)
    requires i < |s|
    ensures |Where(s[..i + 1], c)| == |Where(s[..i], c)| + if Matches(c, s[i]) then 1 else 0
  {
    assert s[..i + 1] == s[..i] + [s[i]];
    WhereConcat(s[..i], [s[i]], c);
  }

  /** The bulk-update count over a prefix grows by one exactly when the next
      row's age is at least `age`. */
  lemma AgeAtLeastStep(s: seq<MemberRecord>, i: nat, age: int)
    requires i < |s|
    ensures |Where(s[..i + 1], AgeAtLeast(age))|
            == |Where(s[..i], AgeAtLeast(age))| + if s[i].age >= age then 1 else 0
  {
    WherePrefixStep(s, i, AgeAtLeast(age));
  }

  /** Field by field, a bumped table keeps every id, username and team and
      ages exactly the rows whose age is at least `age`. */
  lemma BumpedFields(before: seq<MemberRecord>, after: seq<MemberRecord>, age: int)
    requires |after| == |before|
    requires forall j :: 0 <= j < |after| ==> after[j] == Bumped(before[j], age)
    ensures forall i :: 0 <= i < |after| ==>
              && after[i].id == before[i].id
              && after[i].username == before[i].username
              && after[i].team == before[i].team
              && after[i].age == if before[i].age >= age then before[i].age + 1 else before[i].age
  {
  }

  /** A row after the bulk update: one year older when its age is at least
      `age`, untouched otherwise. */
  function Bumped(m: MemberRecord, age: int): MemberRecord
  {
    if m.age >= age then m.(age := m.age + 1) else m
  }

  /** A table rewritten row by row without changing any id keeps ids unique
      and below `nextId`. */
  lemma SameIdsKeepValid(before: seq<MemberRecord>, after: seq<MemberRecord>, nextId: int)
    requires |after| == |before| && DistinctIds(before)
    requires forall m :: m in before ==> m.id.Some? && 1 <= m.id.value < nextId
    requires forall j :: 0 <= j < |after| ==> after[j].id == before[j].id
    ensures forall m :: m in after ==> m.id.Some? && 1 <= m.id.value < nextId
    ensures DistinctIds(after)
  {
    forall x | x in after ensures x.id.Some? && 1 <= x.id.value < nextId {
      var j :| 0 <= j < |after| && after[j] == x;
      assert before[j] in before;
    }
    forall j, k | 0 <= j < k < |after| ensures after[j].id != after[k].id {
      assert after[j].id == before[j].id && after[k].id == before[k].id;
    }
  }

  /** Filtering distributes over concatenation: the rows kept keep their
      relative order. */
  lemma {:induction false} WhereConcat(a: seq<MemberRecord>, b: seq<MemberRecord>, c: Criterion)
    ensures Where(a + b, c) == Where(a, c) + Where(b, c)
  {
    if a == [] {
      assert a + b == b;
    } else {
      assert (a + b)[1..] == a[1..] + b;
      WhereConcat(a[1..], b, c);
    }
  }

  /** A criterion every row satisfies keeps the whole table. */
  lemma {:induction false} WhereAll(s: seq<MemberRecord>, c: Criterion)
    requires forall j :: 0 <= j < |s| ==> Matches(c, s[j])
    ensures Where(s, c) == s
  {
    if s != [] {
      WhereAll(s[1..], c);
    }
  }

  /** A criterion no row satisfies yields nothing. */
  lemma {:induction false} WhereNone(s: seq<MemberRecord>, c: Criterion)
    requires forall j :: 0 <= j < |s| ==> !Matches(c, s[j])
    ensures Where(s, c) == []
  {
    if s != [] {
      WhereNone(s[1..], c);
    }
  }

  /** A criterion that only row `k` satisfies selects exactly that row. */
  lemma {:induction false} WhereOnly(s: seq<MemberRecord>, k: nat, c: Criterion)
    requires k < |s| && Matches(c, s[k])
    requires forall j :: 0 <= j < |s| && j != k ==> !Matches(c, s[j])
    ensures Where(s, c) == [s[k]]
  {
    if k == 0 {
      WhereNone(s[1..], c);
    } else {
      WhereOnly(s[1..], k - 1, c);
    }
  }

  /** A criterion that every row but row `k` satisfies drops exactly that row
      and keeps the others in order. */
  lemma {:induction false} WhereAllBut(s: seq<MemberRecord>, k: nat, c: Criterion)
    requires k < |s| && !Matches(c, s[k])
    requires forall j :: 0 <= j < |s| && j != k ==> Matches(c, s[j])
    ensures Where(s, c) == s[..k] + s[k + 1..]
  {
    if k == 0 {
      WhereAll(s[1..], c);
    } else {
      WhereAllBut(s[1..], k - 1, c);
      WhereCons(s, c);
      SplitAround(s, k);
    }
  }

  /** Unfolding the filter at a first row that matches. */
  lemma WhereCons(s: seq<MemberRecord>, c: Criterion)
    requires 0 < |s| && Matches(c, s[0])
    ensures Where(s, c) == [s[0]] + Where(s[1..], c)
  {
  }

  /** Dropping position `k > 0` of `s` is keeping its head and dropping
      position `k - 1` of its tail. */
  lemma SplitAround(s: seq<MemberRecord>, k: nat)
    requires 0 < k < |s|
    ensures s[..k] + s[k + 1..] == [s[0]] + (s[1..][..k - 1] + s[1..][k..])
  {
    assert s[..k] == [s[0]] + s[1..][..k - 1];
    assert s[k + 1..] == s[1..][k..];
  }

  /** Dropping the head keeps ids distinct (the entity layer proves the same
      of a team's member list). */
  lemma DistinctTail(s: seq<MemberRecord>)
    requires |s| > 0 && DistinctIds(s)
    ensures DistinctIds(s[1..])
  {
    var rest := s[1..];
    forall i, j | 0 <= i < j < |rest| ensures rest[i].id != rest[j].id {
      assert rest[i] == s[i + 1] && rest[j] == s[j + 1];
    }
  }

  /** Prepending a row whose id no row of `t` has keeps ids distinct. */
  lemma DistinctCons(x: MemberRecord, t: seq<MemberRecord>)
    requires DistinctIds(t) && forall y :: y in t ==> y.id != x.id
    ensures DistinctIds([x] + t)
  {
    var r := [x] + t;
    forall i, j | 0 <= i < j < |r| ensures r[i].id != r[j].id {
      assert r[j] == t[j - 1] && t[j - 1] in t;
      if i > 0 {
        assert r[i] == t[i - 1];
      }
    }
  }

  /** Filtering a table with unique ids yields a table with unique ids. */
  lemma {:induction false} WhereKeepsDistinct(s: seq<MemberRecord>, c: Criterion)
    requires DistinctIds(s)
    ensures DistinctIds(Where(s, c))
  {
    if s != [] {
      var rest := s[1..];
      DistinctTail(s);
      WhereKeepsDistinct(rest, c);
      if Matches(c, s[0]) {
        forall y | y in Where(rest, c) ensures y.id != s[0].id {
          var k :| 0 <= k < |rest| && rest[k] == y;
          assert s[k + 1] == y;
        }
        DistinctCons(s[0], Where(rest, c));
      }
    }
  }


  /** In a table with unique ids, the lookup by the id of row `k` finds
      exactly that row. */
  lemma WhereIdIsSingle(s: seq<MemberRecord>, k: nat)
    requires DistinctIds(s) && k < |s| && s[k].id.Some?
    ensures Where(s, IdIs(s[k].id.value)) == [s[k]]
  {
    forall j | 0 <= j < |s| && j != k ensures s[j].id != s[k].id {
      if j < k { assert s[j].id != s[k].id; } else { assert s[k].id != s[j].id; }
    }
    WhereOnly(s, k, IdIs(s[k].id.value));
  }

  /** The lookup of any stored id finds exactly the row that has it. */
  lemma WhereIdIsSingleAll(s: seq<MemberRecord>)
    ensures DistinctIds(s) ==> forall m :: m in s && m.id.Some? ==> Where(s, IdIs(m.id.value)) == [m]
  {
    if DistinctIds(s) {
      forall m | m in s && m.id.Some? ensures Where(s, IdIs(m.id.value)) == [m] {
        var k :| 0 <= k < |s| && s[k] == m;
        WhereIdIsSingle(s, k);
      }
    }
  }

  /** In a table with unique ids, deleting by the id of row `k` removes
      exactly that row and keeps the others in order. */
  lemma WhereIdIsNotRemovesOne(s: seq<MemberRecord>, k: nat)
    requires DistinctIds(s) && k < |s| && s[k].id.Some?
    ensures Where(s, IdIsNot(s[k].id.value)) == s[..k] + s[k + 1..]
  {
    forall j | 0 <= j < |s| && j != k ensures s[j].id != s[k].id {
      if j < k { assert s[j].id != s[k].id; } else { assert s[k].id != s[j].id; }
    }
    WhereAllBut(s, k, IdIsNot(s[k].id.value));
  }

  /** Deleting by `id` from a table with unique ids keeps ids unique; it
      removes exactly the row that has the id, keeping the others in order,
      and leaves a table without that id as it is. */
  lemma RemoveById(s: seq<MemberRecord>, id: int)
    requires DistinctIds(s)
    ensures DistinctIds(Where(s, IdIsNot(id)))
    ensures forall k :: 0 <= k < |s| && s[k].id == Some(id) ==>
              Where(s, IdIsNot(id)) == s[..k] + s[k + 1..]
    ensures forall x :: x in s && x.id == Some(id) ==> |Where(s, IdIsNot(id))| == |s| - 1
    ensures (forall x :: x in s ==> x.id != Some(id)) ==> Where(s, IdIsNot(id)) == s
  {
    WhereKeepsDistinct(s, IdIsNot(id));
    forall k | 0 <= k < |s| && s[k].id == Some(id)
      ensures Where(s, IdIsNot(id)) == s[..k] + s[k + 1..]
    {
      WhereIdIsNotRemovesOne(s, k);
    }
    forall x | x in s && x.id == Some(id) ensures |Where(s, IdIsNot(id))| == |s| - 1 {
      var k :| 0 <= k < |s| && s[k] == x;
      WhereIdIsNotRemovesOne(s, k);
    }
    if forall x :: x in s ==> x.id != Some(id) {
      WhereAll(s, IdIsNot(id));
    }
  }

  /** (t + n - 1) / n is the ceiling of t / n. */
  lemma CeilingDivision(t: nat, n: nat)
    requires n > 0
    ensures t <= ((t + n - 1) / n) * n
    ensures t > 0 ==> ((t + n - 1) / n - 1) * n < t
    ensures t == 0 ==> (t + n - 1) / n == 0
  {
    var q: int, r: int := (t + n - 1) / n, (t + n - 1) % n;
    assert t + n - 1 == q * n + r && 0 <= r < n;
    assert (q - 1) * n == q * n - n;
  }

  /** k is below the ceiling of t / n exactly when k * n < t. */
  lemma BelowCeiling(k: nat, t: nat, n: nat)
    requires n > 0
    ensures k < (t + n - 1) / n <==> k * n < t
  {
    CeilingDivision(t, n);
    var q := (t + n - 1) / n;
    if k < q {
      MulMonotone(k, q - 1, n);
    } else {
      MulMonotone(q, k, n);
    }
  }

  /** The first page is the one at offset 0, and it holds the leading rows. */
  lemma FirstPageHoldsLeadingRows(s: seq<MemberRecord>, total: nat, request: PageRequest)
    requires request.size > 0
    ensures PageOf(s, total, request).IsFirst() <==> request.Offset() == 0
    ensures PageOf(s, total, request).IsFirst() ==>
              PageOf(s, total, request).content == s[..Min(request.size, |s|)]
  {
    var page := PageOf(s, total, request);
    if request.page > 0 {
      MulMonotone(1, request.page, request.size);
    }
    if page.IsFirst() {
      if |s| > 0 {
        assert |page.content| == Min(request.size, |s|);
      }
      assert page.content == s[..Min(request.size, |s|)];
    }
  }

  lemma MulMonotone(a: int, b: int, n: nat)
    requires a <= b
    ensures a * n <= b * n
  {
    assert b * n - a * n == (b - a) * n;
  }

  /** The slice query (fetch size + 1 rows, no count) shows the same content
      as the page over the same rows, and its hasNext agrees with the page's
      count-based hasNext. */
  lemma SliceAgreesWithPage(s: seq<MemberRecord>, request: PageRequest)
    requires request.size > 0
    ensures SliceOf(s, request).content == PageOf(s, |s|, request).content
    ensures SliceOf(s, request).hasNext == PageOf(s, |s|, request).HasNext()
  {
    var slice, page := SliceOf(s, request), PageOf(s, |s|, request);
    assert request.Offset() + request.size == (request.page + 1) * request.size;
    assert |slice.content| == |page.content|;
  }

  /** The CRUD walk-through: two saves get distinct ids and can be found by
      them; both are listed and counted; after deleting both the count is 0. */
  method BasicCrud() returns (saved1: MemberRecord, saved2: MemberRecord,
                              found1: Option<MemberRecord>, found2: Option<MemberRecord>,
                              listed: nat, counted: nat, countedAfterDelete: nat)
    ensures saved1.id.Some? && saved2.id.Some? && saved1.id != saved2.id
    ensures found1 == Some(saved1) && found2 == Some(saved2)
    ensures listed == 2 && counted == 2 && countedAfterDelete == 0
  {
    var repository := new MemberStore();
    saved1 := repository.Save(MemberRecord(None, "member1", 10, Some(TeamRecord("teamA"))));
    saved2 := repository.Save(MemberRecord(None, "member2", 10, Some(TeamRecord("teamB"))));
    found1 := repository.FindById(saved1.id.value);
    found2 := repository.FindById(saved2.id.value);
    listed := |repository.FindAll()|;
    counted := repository.Count();
    assert repository.rows == [saved1, saved2];
    DeleteBoth(repository, saved1, saved2);
    countedAfterDelete := repository.Count();
  }

  /** The greater-than walk-through: with "AAA"/20 and "BBB"/10 stored, the
      rows named "AAA" older than 15 are exactly one, the "AAA"/20 row. */
  method GreaterThanFindsOne() returns (result: seq<MemberRecord>)
    ensures |result| == 1 && result[0].username == "AAA" && result[0].age == 20
  {
    var repository := new MemberStore();
    var saved1 := repository.Save(MemberRecord(None, "AAA", 20, Some(TeamRecord("teamA"))));
    var saved2 := repository.Save(MemberRecord(None, "BBB", 10, Some(TeamRecord("teamA"))));
    assert repository.rows == [saved1, saved2];
    assert "AAA"[0] != "BBB"[0];
    result := repository.FindByUsernameAndAgeGreaterThan("AAA", 15);
    SingleMatch(repository.rows, result, saved1, saved2, "AAA", 15);
  }

  /** When the only matching row of a two-row table is the first one, a
      result that keeps each matching row as often as the table holds it is
      exactly that row. */
  lemma SingleMatch(rows: seq<MemberRecord>, r: seq<MemberRecord>,
                    hit: MemberRecord, miss: MemberRecord, username: string, age: int)
    requires rows == [hit, miss]
    requires hit.username == username && hit.age > age && miss.username != username
    requires forall m :: multiset(r)[m] ==
               if m.username == username && m.age > age then multiset(rows)[m] else 0
    ensures r == [hit]
  {
    assert multiset(r) == multiset{hit} by {
      forall m ensures multiset(r)[m] == multiset{hit}[m] {
        assert multiset(rows) == multiset{hit, miss};
      }
    }
    assert |r| == |multiset(r)| == 1;
    assert r[0] in multiset(r);
  }

  /** The delete step of the walk-through: deleting the two saved members
      one after the other empties the table. */
  method DeleteBoth(repository: MemberStore, saved1: MemberRecord, saved2: MemberRecord)
    requires repository.Valid() && repository.rows == [saved1, saved2]
    modifies repository
    ensures repository.Valid() && repository.rows == []
  {
    ghost var both := repository.rows;
    assert both[0].id == saved1.id;
    repository.Delete(saved1);
    assert repository.rows == both[..0] + both[1..] == [saved2];
    ghost var one := repository.rows;
    assert one[0].id == saved2.id;
    repository.Delete(saved2);
    assert repository.rows == one[..0] + one[1..] == [];
  }

  /** The paging walk-through: five saved members, page 0 of size 3. */
  method PageOfFive() returns (page: Page)
    ensures |page.content| == 3 && page.totalElements == 5 && page.number == 0
    ensures page.size == 3 && page.TotalPages() == 2 && page.IsFirst() && page.HasNext()
  {
    var repository := new MemberStore();
    var member := MemberRecord(None, "member1", 10, Some(TeamRecord("teamA")));
    // the paging test saves five equal new members
    var k := 0;
    while k < 5
      invariant 0 <= k <= 5
      invariant repository.Valid() && |repository.rows| == k
    {
      var saved := repository.Save(member);
      k := k + 1;
    }
    page := repository.FindByAge(10, PageRequest(0, 3));
    assert page.totalElements == 5 && page.size == 3 && page.number == 0;
    assert (5 + 3 - 1) / 3 == 2;
  }
}
