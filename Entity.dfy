/**
 * The Member/Team object graph of the entity layer.
 *
 * A Member holds a reference to its Team; a Team holds the list of its
 * Members. The only authored logic is the association update performed by
 * the Member constructor and by ChangeTeam, which is modelled here exactly,
 * quirks included.
 */
module Entity {
  import opened Wrappers

  /** Minimal team: a name and the list of its members. */
  class Team {
    const name: string
    var members: seq<Member>

    constructor (name: string)
      ensures this.name == name && members == []
    {
      this.name := name;
      members := [];
    }
  }

  /** How a call to ChangeTeam ends: normally, or with the NullPointerException
      raised by comparing the id of a member that was never persisted. */
  datatype Outcome = Done | NullIdInOldTeam

  /** Every member of `s` has been assigned an id. */
  predicate AllPersisted(s: seq<Member>)
    reads s
  {
    forall m :: m in s ==> m.id.Some?
  }

  /** No two positions of `s` hold the same id (the repository states the
      same property of its stored rows). */
  ghost predicate DistinctIds(s: seq<Member>)
    reads s
  {
    forall i, j :: 0 <= i < j < |s| ==> s[i].id != s[j].id
  }

  /** The old team's list after the filter step of changeTeam: every element
      whose id equals `id` is dropped, the others keep their order. */
  function Without(s: seq<Member>, id: Option<int>): (r: seq<Member>)
    reads s
    ensures forall m :: m in r ==> m in s && m.id != id
    ensures forall m :: m in s && m.id != id ==> m in r
    ensures |r| <= |s|
  {
    if s == [] then []
    else (if s[0].id != id then [s[0]] else []) + Without(s[1..], id)
  }

  class Member {
    var id: Option<int>
    var username: string
    var age: int
    var team: Team?

    /** The member is listed by the team it points to. */
    ghost predicate InItsTeam()
      reads this, team
    {
      team != null ==> this in team.members
    }

    /** Sets username and age, then joins `team` exactly as ChangeTeam does
        for a member that has no team yet. */
    constructor (username: string, age: int, team: Team?)
      modifies team
      ensures this.id == None && this.username == username && this.age == age
      ensures this.team == team
      ensures team != null ==> team.members == old(team.members) + [this]
      ensures InItsTeam()
    {
      this.id := None;
      this.username := username;
      this.age := age;
      this.team := null;
      new;
      var outcome := ChangeTeam(team);
    }

    /**
     * Leaves the current team (if any) by filtering it out of that team's
     * list by id, then, if `newTeam` is non-null, points at it and appends
     * this member to its list. With `newTeam == null` the member is dropped
     * from its old team's list but keeps pointing at it.
     */
    method ChangeTeam(newTeam: Team?) returns (outcome: Outcome)
      modifies this, team, newTeam
      ensures id == old(id) && username == old(username) && age == old(age)
      ensures outcome == NullIdInOldTeam <==> old(team != null && !AllPersisted(team.members))
      ensures outcome == NullIdInOldTeam ==>
                team == old(team) &&
                (team != null ==> team.members == old(team.members)) &&
                (newTeam != null ==> newTeam.members == old(newTeam.members))
      ensures outcome == Done ==> team == if newTeam != null then newTeam else old(team)
      ensures outcome == Done && old(team) != null && old(team) != newTeam ==>
                old(team).members == old(Without(team.members, id)) && this !in old(team).members
      ensures outcome == Done && newTeam != null ==>
                newTeam.members == (if newTeam == old(team) then old(Without(team.members, id))
                                    else old(newTeam.members)) + [this]
      ensures outcome == Done && newTeam != null ==>
                InItsTeam() && newTeam.members[|newTeam.members| - 1] == this
      ensures outcome == Done && newTeam != null && newTeam == old(team) ==>
                multiset(newTeam.members)[this] == 1
      ensures outcome == Done && newTeam == null && old(team) != null ==>
                team == old(team) && !InItsTeam()
    {
      if team != null {
        if !AllPersisted(team.members) {
          outcome := NullIdInOldTeam;
          return;
        }
        team.members := Without(team.members, id);
        assert this !in team.members;
      }
      if newTeam != null {
        team := newTeam;
        newTeam.members := newTeam.members + [this];
      }
      outcome := Done;
    }
  }

  /** Filtering distributes over concatenation, so the kept elements stay in
      their original relative order. */
  lemma {:induction false} WithoutConcat(a: seq<Member>, b: seq<Member>, id: Option<int>)
    ensures Without(a + b, id) == Without(a, id) + Without(b, id)
  {
    if a == [] {
      assert a + b == b;
    } else {
      assert (a + b)[1..] == a[1..] + b;
      WithoutConcat(a[1..], b, id);
    }
  }

  /** When no element carries `id`, the filter keeps the list as it is. */
  lemma {:induction false} WithoutAbsent(s: seq<Member>, id: Option<int>)
    requires forall m :: m in s ==> m.id != id
    ensures Without(s, id) == s
  {
    if s != [] {
      WithoutAbsent(s[1..], id);
    }
  }

  /** Dropping the head keeps ids distinct (the repository proves the same of
      its stored rows). */
  lemma DistinctTail(s: seq<Member>)
    requires |s| > 0 && DistinctIds(s)
    ensures DistinctIds(s[1..])
  {
    var rest := s[1..];
    forall i, j | 0 <= i < j < |rest| ensures rest[i].id != rest[j].id {
      assert rest[i] == s[i + 1] && rest[j] == s[j + 1];
    }
  }

  /** With distinct ids, the head's id occurs nowhere in the tail. */
  lemma HeadIdNotInTail(s: seq<Member>)
    requires |s| > 0 && DistinctIds(s)
    ensures forall m :: m in s[1..] ==> m.id != s[0].id
  {
    var rest := s[1..];
    forall m | m in rest ensures m.id != s[0].id {
      var i :| 0 <= i < |rest| && rest[i] == m;
      assert s[i + 1] == m;
    }
  }

  /** With distinct ids, leaving a team removes exactly the leaving member's
      position and nothing else. */
  lemma {:induction false} WithoutDistinct(s: seq<Member>, k: nat)
    requires k < |s| && DistinctIds(s)
    ensures Without(s, s[k].id) == s[..k] + s[k + 1..]
  {
    var rest := s[1..];
    if k == 0 {
      HeadIdNotInTail(s);
      WithoutAbsent(rest, s[0].id);
    } else {
      var id := s[k].id;
      DistinctTail(s);
      assert s[0].id != id;
      assert rest[k - 1] == s[k];
      calc {
        Without(s, id);
        [s[0]] + Without(rest, id);
        { WithoutDistinct(rest, k - 1); }
        [s[0]] + (rest[..k - 1] + rest[k..]);
        { assert s[..k] == [s[0]] + rest[..k - 1]; assert s[k + 1..] == rest[k..]; }
        s[..k] + s[k + 1..];
      }
    }
  }

  /** Number of members of `s` whose team is named `name`
      (the test dereferences the team, so every member has one). */
  function CountInTeam(s: seq<Member>, name: string): (n: nat)
    reads s, set m | m in s :: m.team
    requires forall m :: m in s ==> m.team != null
    ensures n <= |s|
    ensures n == 0 <==> forall m :: m in s ==> m.team.name != name
    ensures n == |s| <==> forall m :: m in s ==> m.team.name == name
  {
    if s == [] then 0
    else (if s[0].team.name == name then 1 else 0) + CountInTeam(s[1..], name)
  }

  /** Counting distributes over concatenation: the count of a list is the
      sum of the counts of its parts. */
  lemma {:induction false} CountInTeamConcat(a: seq<Member>, b: seq<Member>, name: string)
    requires forall m :: m in a + b ==> m.team != null
    ensures CountInTeam(a + b, name) == CountInTeam(a, name) + CountInTeam(b, name)
  {
    if a == [] {
      assert a + b == b;
    } else {
      assert (a + b)[1..] == a[1..] + b;
      CountInTeamConcat(a[1..], b, name);
    }
  }

  /** Two members pointing at a team named "teamA" followed by two pointing
      at one named "teamB" count two for each name. */
  lemma CountTwoPerTeam(m1: Member, m2: Member, m3: Member, m4: Member)
    requires m1.team != null && m2.team != null && m3.team != null && m4.team != null
    requires m1.team.name == "teamA" && m2.team.name == "teamA"
    requires m3.team.name == "teamB" && m4.team.name == "teamB"
    ensures CountInTeam([m1, m2, m3, m4], "teamA") == 2
    ensures CountInTeam([m1, m2, m3, m4], "teamB") == 2
  {
    assert "teamA"[4] != "teamB"[4];
    assert [m3, m4][1..] == [m4];
    assert CountInTeam([m3, m4], "teamA") == 0 && CountInTeam([m3, m4], "teamB") == 2;
    assert [m2, m3, m4][1..] == [m3, m4];
    assert [m1, m2, m3, m4][1..] == [m2, m3, m4];
  }

  /** Four members built two per team: two of them point at the team named
      "teamA" and two at the team named "teamB". */
  method TwoTeamsOfTwo() returns (total: nat, inA: nat, inB: nat)
    ensures total == 4 && inA == 2 && inB == 2
  {
    var member1, member2, member3, member4 := BuildTwoTeams();
    var all := [member1, member2, member3, member4];
    CountTwoPerTeam(member1, member2, member3, member4);
    total := |all|;
    inA := CountInTeam(all, "teamA");
    inB := CountInTeam(all, "teamB");
  }

  /** The set-up of the team scenario: two teams, and four members built
      two per team, each listed by the team it points to. */
  method BuildTwoTeams() returns (member1: Member, member2: Member, member3: Member, member4: Member)
    ensures member1.team != null && member2.team != null && member3.team != null && member4.team != null
    ensures member1.team.name == "teamA" && member2.team.name == "teamA"
    ensures member3.team.name == "teamB" && member4.team.name == "teamB"
    ensures member1.team.members == [member1, member2] && member3.team.members == [member3, member4]
  {
    var teamA := new Team("teamA");
    var teamB := new Team("teamB");
    member1 := new Member("member1", 10, teamA);
    member2 := new Member("member2", 20, teamA);
    member3 := new Member("member3", 30, teamB);
    member4 := new Member("member4", 40, teamB);
  }

  /** A member built with a team but not yet persisted cannot change team:
      its old team lists the member itself, whose id is still null, so the
      id comparison fails and nothing changes. */
  method UnsavedMemberCannotMove() returns (outcome: Outcome, stillInA: bool, inB: nat)
    ensures outcome == NullIdInOldTeam && stillInA && inB == 0
  {
    var teamA := new Team("teamA");
    var teamB := new Team("teamB");
    var member := new Member("member1", 10, teamA);
    outcome := member.ChangeTeam(teamB);
    stillInA := member.team == teamA && teamA.members == [member];
    inB := |teamB.members|;
  }
}
