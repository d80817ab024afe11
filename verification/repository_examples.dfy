/**
 * The fixture of the repository tests: teams "teamA" and "teamB", and four
 * members aged 10 to 40, two per team, built with the entity constructors.
 */
module RepositoryExamples {
  import opened Nullable
  import opened Entity
  import opened SearchCondition
  import opened Query
  import opened MemberCustomRepository

  function Fixture(): Heap
  {
    var h := NewTeam(NewTeam(EmptyHeap, Some("teamA")), Some("teamB"));
    var h := NewMemberWithTeam(h, Some("member1"), 10, Some(0));
    var h := NewMemberWithTeam(h, Some("member2"), 20, Some(0));
    var h := NewMemberWithTeam(h, Some("member3"), 30, Some(1));
    NewMemberWithTeam(h, Some("member4"), 40, Some(1))
  }

  /** The heap the fixture's constructors leave behind. */
  const FixtureHeap := Heap(
    [ Member(Some("member1"), 10, Some(0)), Member(Some("member2"), 20, Some(0)),
      Member(Some("member3"), 30, Some(1)), Member(Some("member4"), 40, Some(1)) ],
    [ Team(Some("teamA"), [0, 1]), Team(Some("teamB"), [2, 3]) ])

  /** `new Member(username, age, team)` with a non-null team, in closed form. */
  lemma JoinStep(h: Heap, username: Option<string>, age: Int32, t: TeamRef)
    requires t < |h.teams|
    ensures NewMemberWithTeam(h, username, age, Some(t))
         == Heap(h.members + [Member(username, age, Some(t))],
                 h.teams[t := Team(h.teams[t].name, h.teams[t].members + [|h.members|])])
  {
  }

  /** The constructors leave each member on its team and each team listing its members in order. */
  lemma FixtureIsLinked()
    ensures Fixture() == FixtureHeap
  {
    var tA, tB := Some("teamA"), Some("teamB");
    var m1 := Member(Some("member1"), 10, Some(0));
    var m2 := Member(Some("member2"), 20, Some(0));
    var m3 := Member(Some("member3"), 30, Some(1));
    var m4 := Member(Some("member4"), 40, Some(1));
    var h0 := NewTeam(NewTeam(EmptyHeap, tA), tB);
    assert h0 == Heap([], [Team(tA, []), Team(tB, [])]);
    var h1 := NewMemberWithTeam(h0, m1.username, 10, Some(0));
    assert h1 == Heap([m1], [Team(tA, [0]), Team(tB, [])]) by {
      JoinStep(h0, m1.username, 10, 0);
      assert h1.members == [] + [m1] == [m1];
      assert h1.teams[0].members == [] + [0] == [0];
    }
    var h2 := NewMemberWithTeam(h1, m2.username, 20, Some(0));
    assert h2 == Heap([m1, m2], [Team(tA, [0, 1]), Team(tB, [])]) by {
      JoinStep(h1, m2.username, 20, 0);
      assert h2.members == [m1] + [m2] == [m1, m2];
      assert h2.teams[0].members == [0] + [1] == [0, 1];
    }
    var h3 := NewMemberWithTeam(h2, m3.username, 30, Some(1));
    assert h3 == Heap([m1, m2, m3], [Team(tA, [0, 1]), Team(tB, [2])]) by {
      JoinStep(h2, m3.username, 30, 1);
      assert h3.members == [m1, m2] + [m3] == [m1, m2, m3];
      assert h3.teams[1].members == [] + [2] == [2];
    }
    var h4 := NewMemberWithTeam(h3, m4.username, 40, Some(1));
    assert h4 == FixtureHeap by {
      JoinStep(h3, m4.username, 40, 1);
      assert h4.members == [m1, m2, m3] + [m4] == [m1, m2, m3, m4];
      assert h4.teams[1].members == [2] + [3] == [2, 3];
    }
  }

  /** The fixture's constructors keep every reference valid and every member listed by its team. */
  lemma FixtureIsConsistent()
    ensures Valid(Fixture()) && Linked(Fixture())
  {
    FixtureIsLinked();
    var h := FixtureHeap;
    forall i | 0 <= i < |h.members| && h.members[i].team.Some? && h.members[i].team.value < |h.teams|
      ensures i in h.teams[h.members[i].team.value].members
    {
      assert i == 0 || i == 1 || i == 2 || i == 3;
    }
    forall t, k | 0 <= t < |h.teams| && 0 <= k < |h.teams[t].members| ensures h.teams[t].members[k] < |h.members| {
      assert t == 0 || t == 1;
    }
  }

  /** What the search lemmas below use about the fixture, stated of a heap variable. */
  predicate IsFixture(h: Heap)
  {
    && |h.members| == 4 && |h.teams| == 2
    && h.members[0] == Member(Some("member1"), 10, Some(0))
    && h.members[1] == Member(Some("member2"), 20, Some(0))
    && h.members[2] == Member(Some("member3"), 30, Some(1))
    && h.members[3] == Member(Some("member4"), 40, Some(1))
    && h.teams[0].name == Some("teamA") && h.teams[1].name == Some("teamB")
  }

  lemma FixtureHeapIsFixture()
    ensures IsFixture(Fixture())
  {
    FixtureIsLinked();
  }

  /** A condition that selects one member alone returns that member's DTO alone. */
  lemma SearchOfOneMember(h: Heap, c: Condition, i: nat)
    requires Selected(h, c, i)
    requires forall j :: Selected(h, c, j) ==> j == i
    ensures SearchWhereParameter(h, c) == [DtoOf(h, i)]
  {
    var r := SearchWhereParameter(h, c);
    assert SelectedIds(h, c) == {i};
    TotalCountsSelectedMembers(h, c);
    assert |r| == 1;
    assert Selected(h, c, r[0].memberId);
  }

  /** A condition that selects nobody returns nothing. */
  lemma SearchOfNoMember(h: Heap, c: Condition)
    requires forall j :: !Selected(h, c, j)
    ensures SearchWhereParameter(h, c) == []
  {
    assert SelectedIds(h, c) == {};
    TotalCountsSelectedMembers(h, c);
  }

  lemma Member4Only(h: Heap)
    requires IsFixture(h)
    ensures SearchWhereParameter(h, Condition(Some("member4"), Some("teamB"), Some(35), Some(40)))
         == [MemberTeamDto(3, Some("member4"), 40, 1, Some("teamB"))]
  {
    var c := Condition(Some("member4"), Some("teamB"), Some(35), Some(40));
    assert Selected(h, c, 3);
    forall j: nat | Selected(h, c, j) ensures j == 3 {
      assert j < 4 && h.members[j].age >= 35;
    }
    SearchOfOneMember(h, c, 3);
  }

  /** username "member4", age 35 to 40, team "teamB" selects member4 alone. */
  lemma WhereParameterFindsMember4()
    ensures SearchWhereParameter(Fixture(), Condition(Some("member4"), Some("teamB"), Some(35), Some(40)))
         == [MemberTeamDto(3, Some("member4"), 40, 1, Some("teamB"))]
  {
    FixtureHeapIsFixture();
    Member4Only(Fixture());
  }

  /** Every fixture member has a team, so the join keeps all four in order. */
  lemma JoinOnFixture(h: Heap)
    requires IsFixture(h)
    ensures Join(h) == [RowOf(h, 0), RowOf(h, 1), RowOf(h, 2), RowOf(h, 3)]
  {
    assert JoinPrefix(h, 1) == [RowOf(h, 0)];
    assert JoinPrefix(h, 2) == [RowOf(h, 0), RowOf(h, 1)];
    assert JoinPrefix(h, 3) == [RowOf(h, 0), RowOf(h, 1), RowOf(h, 2)];
  }

  lemma FirstPageOnFixture(h: Heap)
    requires IsFixture(h)
    ensures var page := SearchPaginationSimple(h, NoCondition, PageRequest(0, 3));
      && |page.content| == 3
      && page.content[0].username == Some("member1")
      && page.content[1].username == Some("member2")
      && page.content[2].username == Some("member3")
      && page.total == 4
  {
    JoinOnFixture(h);
    NoFilterReturnsEveryTeamMember(h, NoCondition);
    var r := SearchWhereParameter(h, NoCondition);
    assert |r| == 4;
    assert r[0].username == Some("member1") && r[1].username == Some("member2") && r[2].username == Some("member3");
  }

  /**
   * The first page of three, unfiltered, holds member1 to member3 and counts
   * all four. The other two paging methods return the same page
   * (`PagingStrategiesAgree`).
   */
  lemma FirstPageOfThree()
    ensures var page := SearchPaginationSimple(Fixture(), NoCondition, PageRequest(0, 3));
      && |page.content| == 3
      && page.content[0].username == Some("member1")
      && page.content[1].username == Some("member2")
      && page.content[2].username == Some("member3")
      && page.total == 4
  {
    FixtureHeapIsFixture();
    FirstPageOnFixture(Fixture());
  }

  /** A username of one blank is still a filter, and no member of the fixture is called " ". */
  lemma BlankUsernameStillFilters()
    ensures SearchWhereParameter(Fixture(), Condition(Some(" "), None, None, None)) == []
  {
    FixtureHeapIsFixture();
    var h := Fixture();
    var c := Condition(Some(" "), None, None, None);
    forall j: nat ensures !Selected(h, c, j) {
      if j < 4 { assert j == 0 || j == 1 || j == 2 || j == 3; }
    }
    SearchOfNoMember(h, c);
  }
}
