/**
 * MemberCustomRepositoryImpl: the member search with optional filters, and
 * three ways of paging it (one `fetchResults` call; a content query plus a
 * count query; the same with the count query handed to Spring's page helper).
 */
module MemberCustomRepository {
  import opened Nullable
  import opened Entity
  import opened SearchCondition
  import opened Query

  /** `usernameEq`: no predicate for a null or empty username, otherwise equality. */
  function UsernameEq(username: Option<string>): (p: Option<Predicate>)
    ensures p.None? <==> !HasLength(username)
    ensures p.Some? ==> forall row :: Holds(p.value, row) <==> row.member.username == username
  {
    if !HasLength(username) then None else Some(UsernameIs(username.value))
  }

  /** `teamNameEq`: no predicate for a null or empty team name, otherwise equality. */
  function TeamNameEq(teamName: Option<string>): (p: Option<Predicate>)
    ensures p.None? <==> !HasLength(teamName)
    ensures p.Some? ==> forall row :: Holds(p.value, row) <==> row.team.name == teamName
  {
    if !HasLength(teamName) then None else Some(TeamNameIs(teamName.value))
  }

  /** `ageGoe`: no predicate for a null bound, otherwise an inclusive lower bound. */
  function AgeGoe(ageGoe: Option<Int32>): (p: Option<Predicate>)
    ensures p.None? <==> ageGoe.None?
    ensures p.Some? ==> forall row :: Holds(p.value, row) <==> ageGoe.value <= row.member.age
  {
    if ageGoe.None? then None else Some(AgeAtLeast(ageGoe.value))
  }

  /** `ageLoe`: no predicate for a null bound, otherwise an inclusive upper bound. */
  function AgeLoe(ageLoe: Option<Int32>): (p: Option<Predicate>)
    ensures p.None? <==> ageLoe.None?
    ensures p.Some? ==> forall row :: Holds(p.value, row) <==> row.member.age <= ageLoe.value
  {
    if ageLoe.None? then None else Some(AgeAtMost(ageLoe.value))
  }

  /** The four `where` arguments every query of this repository passes: together they mean `Satisfies`. */
  function WhereArguments(c: Condition): (args: seq<Option<Predicate>>)
    ensures forall row :: HoldsAll(WhereClause(args), row) <==> Satisfies(row.member, row.team, c)
  {
    var args := [UsernameEq(c.username), TeamNameEq(c.teamName), AgeGoe(c.ageGoe), AgeLoe(c.ageLoe)];
    assert forall row :: HoldsAll(WhereClause(args), row) <==> Satisfies(row.member, row.team, c) by {
      forall row ensures HoldsAll(WhereClause(args), row) <==> Satisfies(row.member, row.team, c) {
        if Satisfies(row.member, row.team, c) {
          forall k | 0 <= k < |args| && args[k].Some? ensures Holds(args[k].value, row) {
          }
        } else if HasLength(c.username) && row.member.username != c.username {
          assert !Holds(args[0].value, row);
        } else if HasLength(c.teamName) && row.team.name != c.teamName {
          assert !Holds(args[1].value, row);
        } else if c.ageGoe.Some? && row.member.age < c.ageGoe.value {
          assert !Holds(args[2].value, row);
        } else {
          assert !Holds(args[3].value, row);
        }
      }
    }
    args
  }

  /** The joined rows the where clause keeps, before projection. */
  function MatchingRows(h: Heap, c: Condition): (rows: seq<JoinedRow>)
    ensures forall k :: 0 <= k < |rows| ==> Selected(h, c, rows[k].memberId) && rows[k] == RowOf(h, rows[k].memberId)
    ensures forall i :: Selected(h, c, i) ==> RowOf(h, i) in rows
    ensures Ascending(rows)
  {
    var rows := Filter(Join(h), WhereClause(WhereArguments(c)));
    assert forall k :: 0 <= k < |rows| ==> IsJoined(h, rows[k]);
    rows
  }

  /**
   * `searchWhereParameter`: a DTO for exactly the members that have a team and
   * pass every present filter, in store order, each copied from the member
   * and its team.
   */
  function SearchWhereParameter(h: Heap, c: Condition): (r: seq<MemberTeamDto>)
    ensures forall k :: 0 <= k < |r| ==> Selected(h, c, r[k].memberId) && r[k] == DtoOf(h, r[k].memberId)
    ensures forall i :: Selected(h, c, i) ==> DtoOf(h, i) in r
    ensures forall k, l :: 0 <= k < l < |r| ==> r[k].memberId < r[l].memberId
  {
    var rows := MatchingRows(h, c);
    var r := Select(rows);
    assert forall i :: Selected(h, c, i) ==> DtoOf(h, i) in r by {
      forall i | Selected(h, c, i) ensures DtoOf(h, i) in r {
        var k :| 0 <= k < |rows| && rows[k] == RowOf(h, i);
        assert r[k] == DtoOf(h, i);
      }
    }
    r
  }

  /** The count query: the same join and where arguments, counted. */
  function CountQuery(h: Heap, c: Condition): (n: nat)
    ensures n == |SearchWhereParameter(h, c)|
  {
    |MatchingRows(h, c)|
  }

  /** `searchPaginationSimple`: one `fetchResults` call yields the page and the total. */
  function SearchPaginationSimple(h: Heap, c: Condition, p: PageRequest): (r: Page<MemberTeamDto>)
    ensures IsPageOf(r, SearchWhereParameter(h, c), p)
    ensures forall k :: 0 <= k < |r.content| ==> Selected(h, c, r.content[k].memberId)
    ensures |r.content| <= p.size && |r.content| <= r.total
  {
    var all := SearchWhereParameter(h, c);
    var results := FetchResults(all, p.Offset(), p.size);
    SliceIsPage(all, p);
    Page(results.results, p, results.total)
  }

  /** `searchPaginationComplex`: a content query with offset and limit, and a separate count query. */
  function SearchPaginationComplex(h: Heap, c: Condition, p: PageRequest): (r: Page<MemberTeamDto>)
    ensures IsPageOf(r, SearchWhereParameter(h, c), p)
    ensures forall k :: 0 <= k < |r.content| ==> Selected(h, c, r.content[k].memberId)
    ensures |r.content| <= p.size && |r.content| <= r.total
  {
    var all := SearchWhereParameter(h, c);
    var content := OffsetLimit(all, p.Offset(), p.size);
    var total := CountQuery(h, c);
    SliceIsPage(all, p);
    Page(content, p, total)
  }

  /**
   * `searchPaginationCountQueryOptimization`: the content query, and the count
   * query's value as the total. `PageableExecutionUtils.getPage` receives the
   * count query as a supplier and may skip it; that skip rule is left out.
   */
  function SearchPaginationCountQueryOptimization(h: Heap, c: Condition, p: PageRequest): (r: Page<MemberTeamDto>)
    ensures IsPageOf(r, SearchWhereParameter(h, c), p)
    ensures forall k :: 0 <= k < |r.content| ==> Selected(h, c, r.content[k].memberId)
    ensures |r.content| <= p.size && |r.content| <= r.total
  {
    var all := SearchWhereParameter(h, c);
    var content := OffsetLimit(all, p.Offset(), p.size);
    var countQuery := CountQuery(h, c);
    SliceIsPage(all, p);
    Page(content, p, countQuery)
  }

  /** The members a condition selects. */
  function SelectedIds(h: Heap, c: Condition): set<nat>
  {
    set i | 0 <= i < |h.members| && Selected(h, c, i)
  }

  /** The count query counts exactly the selected members, each once. */
  lemma TotalCountsSelectedMembers(h: Heap, c: Condition)
    ensures CountQuery(h, c) == |SelectedIds(h, c)|
  {
    var rows := MatchingRows(h, c);
    AscendingRowsNameDistinctMembers(rows);
    assert (set k | 0 <= k < |rows| :: rows[k].memberId) == SelectedIds(h, c) by {
      forall i | i in SelectedIds(h, c) ensures i in set k | 0 <= k < |rows| :: rows[k].memberId {
        var k :| 0 <= k < |rows| && rows[k] == RowOf(h, i);
      }
    }
  }

  /** Each returned DTO meets every present filter, bounds inclusive. */
  lemma ReturnedRowsMeetPresentFilters(h: Heap, c: Condition)
    ensures forall dto :: dto in SearchWhereParameter(h, c) ==>
      && (HasLength(c.username) ==> dto.username == c.username)
      && (HasLength(c.teamName) ==> dto.teamName == c.teamName)
      && (c.ageGoe.Some? ==> c.ageGoe.value <= dto.age)
      && (c.ageLoe.Some? ==> dto.age <= c.ageLoe.value)
  {
  }

  /** A condition with no present filter returns every member that has a team, in store order. */
  lemma {:induction false} NoFilterReturnsEveryTeamMember(h: Heap, c: Condition)
    requires !HasLength(c.username) && !HasLength(c.teamName) && c.ageGoe.None? && c.ageLoe.None?
    ensures SearchWhereParameter(h, c) == Select(Join(h))
  {
    assert WhereClause(WhereArguments(c)) == [];
    FilterWithoutPredicates(Join(h));
  }

  /** An empty string is no filter, just like null: `hasLength`, not `hasText`. */
  lemma EmptyStringIsNoFilter(h: Heap, c: Condition)
    ensures SearchWhereParameter(h, c.(username := Some(""))) == SearchWhereParameter(h, c.(username := None))
    ensures SearchWhereParameter(h, c.(teamName := Some(""))) == SearchWhereParameter(h, c.(teamName := None))
  {
  }

  /** A member whose team is null appears in no content and no total. */
  lemma MemberWithoutTeamNeverAppears(h: Heap, c: Condition, p: PageRequest, i: MemberRef)
    requires i < |h.members| && h.members[i].team.None?
    ensures forall dto :: dto in SearchWhereParameter(h, c) ==> dto.memberId != i
    ensures forall dto :: dto in SearchPaginationSimple(h, c, p).content ==> dto.memberId != i
    ensures forall dto :: dto in SearchPaginationComplex(h, c, p).content ==> dto.memberId != i
    ensures forall dto :: dto in SearchPaginationCountQueryOptimization(h, c, p).content ==> dto.memberId != i
    ensures i !in SelectedIds(h, c)
  {
  }

  /** The three paging strategies answer every request with the same page. */
  lemma PagingStrategiesAgree(h: Heap, c: Condition, p: PageRequest)
    ensures SearchPaginationSimple(h, c, p) == SearchPaginationComplex(h, c, p)
    ensures SearchPaginationComplex(h, c, p) == SearchPaginationCountQueryOptimization(h, c, p)
  {
  }
}
