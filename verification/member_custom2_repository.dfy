/**
 * MemberCustom2RepositoryImpl: the same search written against Spring's
 * QueryDSL support class. It carries its own copy of the four predicate
 * helpers; the lemmas at the end show the copy agrees with the first
 * repository.
 */
module MemberCustom2Repository {
  import opened Nullable
  import opened Entity
  import opened SearchCondition
  import opened Query
  import First = MemberCustomRepository

  /** `usernameEq`: no predicate for a null or empty username, otherwise equality. */
  function UsernameEq(username: Option<string>): (p: Option<Predicate>)
    ensures p.None? <==> !HasLength(username)
    ensures p.Some? ==> forall row :: Holds(p.value, row) <==> row.member.username == username
  {
    if !HasLength(username) then None else Some(UsernameIs(username.value))
  }

  /** `teamNameEq`: no predicate for a null or empty team name, otherwise equality. */
  function TeamNameEq(teamName: Option<string>): (p: Option<Predicate>)
    ensures p.None? <==> !HasLength(teamName)
    ensures p.Some? ==> forall row :: Holds(p.value, row) <==> row.team.name == teamName
  {
    if !HasLength(teamName) then None else Some(TeamNameIs(teamName.value))
  }

  /** `ageGoe`: no predicate for a null bound, otherwise an inclusive lower bound. */
  function AgeGoe(ageGoe: Option<Int32>): (p: Option<Predicate>)
    ensures p.None? <==> ageGoe.None?
    ensures p.Some? ==> forall row :: Holds(p.value, row) <==> ageGoe.value <= row.member.age
  {
    if ageGoe.None? then None else Some(AgeAtLeast(ageGoe.value))
  }

  /** `ageLoe`: no predicate for a null bound, otherwise an inclusive upper bound. */
  function AgeLoe(ageLoe: Option<Int32>): (p: Option<Predicate>)
    ensures p.None? <==> ageLoe.None?
    ensures p.Some? ==> forall row :: Holds(p.value, row) <==> row.member.age <= ageLoe.value
  {
    if ageLoe.None? then None else Some(AgeAtMost(ageLoe.value))
  }

  /** `from(member).join(member.team, team).where(...)`, before projection. */
  function MatchingRows2(h: Heap, c: Condition): (rows: seq<JoinedRow>)
    ensures forall k :: 0 <= k < |rows| ==> Selected(h, c, rows[k].memberId) && rows[k] == RowOf(h, rows[k].memberId)
    ensures forall i :: Selected(h, c, i) ==> RowOf(h, i) in rows
    ensures Ascending(rows)
  {
    var rows := Filter(Join(h), WhereClause([UsernameEq(c.username), TeamNameEq(c.teamName), AgeGoe(c.ageGoe), AgeLoe(c.ageLoe)]));
    SameOmissionRules();
    assert rows == First.MatchingRows(h, c);
    rows
  }

  /**
   * `searchWhereParameter2`: a DTO for exactly the members that have a team
   * and pass every present filter, in store order.
   */
  function SearchWhereParameter2(h: Heap, c: Condition): (r: seq<MemberTeamDto>)
    ensures forall k :: 0 <= k < |r| ==> Selected(h, c, r[k].memberId) && r[k] == DtoOf(h, r[k].memberId)
    ensures forall i :: Selected(h, c, i) ==> DtoOf(h, i) in r
    ensures forall k, l :: 0 <= k < l < |r| ==> r[k].memberId < r[l].memberId
  {
    var rows := MatchingRows2(h, c);
    var r := Select(rows);
    assert forall i :: Selected(h, c, i) ==> DtoOf(h, i) in r by {
      forall i | Selected(h, c, i) ensures DtoOf(h, i) in r {
        var k :| 0 <= k < |rows| && rows[k] == RowOf(h, i);
        assert r[k] == DtoOf(h, i);
      }
    }
    r
  }

  /**
   * `searchPaginationSimple2`: `applyPagination` adds the page's offset and
   * limit; `fetch` returns that slice and `fetchCount` counts the whole
   * filtered join.
   */
  function SearchPaginationSimple2(h: Heap, c: Condition, p: PageRequest): (r: Page<MemberTeamDto>)
    ensures IsPageOf(r, SearchWhereParameter2(h, c), p)
    ensures forall k :: 0 <= k < |r.content| ==> Selected(h, c, r.content[k].memberId)
    ensures |r.content| <= p.size && |r.content| <= r.total
  {
    var query := SearchWhereParameter2(h, c);
    var content := OffsetLimit(query, p.Offset(), p.size);
    SliceIsPage(query, p);
    var count := |query|;
    Page(content, p, count)
  }

  /** The helpers omit a filter on exactly the same inputs as the first repository's, and build the same one otherwise. */
  lemma SameOmissionRules()
    ensures forall s :: UsernameEq(s) == First.UsernameEq(s)
    ensures forall s :: TeamNameEq(s) == First.TeamNameEq(s)
    ensures forall a :: AgeGoe(a) == First.AgeGoe(a)
    ensures forall a :: AgeLoe(a) == First.AgeLoe(a)
  {
  }

  /** For every condition both repositories return the same rows in the same order, hence the same multiset. */
  lemma SameRowsAsFirstRepository(h: Heap, c: Condition)
    ensures SearchWhereParameter2(h, c) == First.SearchWhereParameter(h, c)
    ensures multiset(SearchWhereParameter2(h, c)) == multiset(First.SearchWhereParameter(h, c))
  {
    SameOmissionRules();
    assert MatchingRows2(h, c) == First.MatchingRows(h, c);
  }

  /** The paged search of this repository answers every request like the first repository's simple paging. */
  lemma SamePageAsFirstRepository(h: Heap, c: Condition, p: PageRequest)
    ensures SearchPaginationSimple2(h, c, p) == First.SearchPaginationSimple(h, c, p)
  {
    SameRowsAsFirstRepository(h, c);
  }
}
