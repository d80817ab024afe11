/**
 * The relational meaning of the QueryDSL calls the repositories make:
 * `from(member).join(member.team, team)` is an inner join taken in store
 * order, `where(p1, ..., pn)` skips null arguments and ANDs the rest,
 * `select(new QMemberTeamDto(...))` projects five columns,
 * `offset(o).limit(n)` takes a slice, and a count query counts the rows of
 * the same join and filter without offset or limit.
 */
module Query {
  import opened Nullable
  import opened Entity
  import opened SearchCondition

  /** One row of `member join member.team team`. */
  datatype JoinedRow = JoinedRow(memberId: MemberRef, member: Member, teamId: TeamRef, team: Team)

  /** MemberTeamDto: memberId, username, age, teamId, teamName. */
  datatype MemberTeamDto = MemberTeamDto(
    memberId: MemberRef,
    username: Option<string>,
    age: Int32,
    teamId: TeamRef,
    teamName: Option<string>)

  /** The four comparisons the repositories build. */
  datatype Predicate =
    | UsernameIs(username: string)
    | TeamNameIs(teamName: string)
    | AgeAtLeast(lowest: Int32)
    | AgeAtMost(highest: Int32)

  /** Spring's PageRequest: a zero-based page number and a positive page size. */
  type PageSize = n: nat | n >= 1 witness 1

  datatype PageRequest = PageRequest(page: nat, size: PageSize) {
    /** The number of rows before this page. */
    function Offset(): nat { page * size }
  }

  /** PageImpl: the content of one page, the request it answers and the total row count. */
  datatype Page<T> = Page(content: seq<T>, request: PageRequest, total: nat)

  /** QueryResults of `fetchResults()`: one page of results and the count of all rows. */
  datatype QueryResults<T> = QueryResults(results: seq<T>, total: nat)

  function Min(a: int, b: int): int { if a <= b then a else b }
  function Max(a: int, b: int): int { if a <= b then b else a }

  /** SQL truth of a comparison; a comparison with a NULL column is not true. */
  predicate Holds(p: Predicate, row: JoinedRow)
  {
    match p
    case UsernameIs(s) => row.member.username == Some(s)
    case TeamNameIs(s) => row.team.name == Some(s)
    case AgeAtLeast(b) => b <= row.member.age
    case AgeAtMost(b) => row.member.age <= b
  }

  predicate HoldsAll(ps: seq<Predicate>, row: JoinedRow)
  {
    forall k :: 0 <= k < |ps| ==> Holds(ps[k], row)
  }

  /** `where(args...)`: the non-null arguments, in order, to be combined with AND. */
  function WhereClause(args: seq<Option<Predicate>>): (ps: seq<Predicate>)
    ensures |ps| <= |args|
    ensures forall row :: HoldsAll(ps, row) <==> (forall k :: 0 <= k < |args| && args[k].Some? ==> Holds(args[k].value, row))
  {
    if |args| == 0 then []
    else
      var rest := WhereClause(args[1..]);
      assert forall k :: 1 <= k < |args| ==> args[k] == args[1..][k - 1];
      match args[0]
      case None => rest
      case Some(p) =>
        var ps := [p] + rest;
        assert forall row :: HoldsAll(ps, row) <==> Holds(p, row) && HoldsAll(rest, row) by {
          forall row ensures HoldsAll(ps, row) <==> Holds(p, row) && HoldsAll(rest, row) {
            if Holds(p, row) && HoldsAll(rest, row) {
              forall k | 0 <= k < |ps| ensures Holds(ps[k], row) {
                if k > 0 { assert ps[k] == rest[k - 1]; }
              }
            }
            if HoldsAll(ps, row) {
              assert Holds(ps[0], row);
              forall k | 0 <= k < |rest| ensures Holds(rest[k], row) {
                assert rest[k] == ps[k + 1];
              }
            }
          }
        }
        ps
  }

  /** The row is the join of an allocated member with the team its field refers to. */
  predicate IsJoined(h: Heap, row: JoinedRow)
  {
    && row.memberId < |h.members|
    && row.member == h.members[row.memberId]
    && row.member.team == Some(row.teamId)
    && row.teamId < |h.teams|
    && row.team == h.teams[row.teamId]
  }

  /** Member `i` has a team the inner join can find. */
  predicate HasTeam(h: Heap, i: nat)
  {
    i < |h.members| && h.members[i].team.Some? && h.members[i].team.value < |h.teams|
  }

  function RowOf(h: Heap, i: nat): (row: JoinedRow)
    requires HasTeam(h, i)
    ensures IsJoined(h, row) && row.memberId == i
  {
    var t := h.members[i].team.value;
    JoinedRow(i, h.members[i], t, h.teams[t])
  }

  /** The five columns of member `i` and its team. */
  function DtoOf(h: Heap, i: nat): MemberTeamDto
    requires HasTeam(h, i)
  {
    ToDto(RowOf(h, i))
  }

  function ToDto(row: JoinedRow): MemberTeamDto
  {
    MemberTeamDto(row.memberId, row.member.username, row.member.age, row.teamId, row.team.name)
  }

  /** Member `i` is a row of the join and passes every present filter of `c`. */
  predicate Selected(h: Heap, c: Condition, i: nat)
  {
    HasTeam(h, i) && Satisfies(h.members[i], h.teams[h.members[i].team.value], c)
  }

  predicate Ascending(rows: seq<JoinedRow>)
  {
    forall k, l :: 0 <= k < l < |rows| ==> rows[k].memberId < rows[l].memberId
  }

  /** The inner join restricted to the first `n` members. */
  function JoinPrefix(h: Heap, n: nat): (rows: seq<JoinedRow>)
    requires n <= |h.members|
    ensures forall k :: 0 <= k < |rows| ==> IsJoined(h, rows[k]) && rows[k].memberId < n
    ensures forall i :: 0 <= i < n && HasTeam(h, i) ==> RowOf(h, i) in rows
    ensures Ascending(rows)
  {
    if n == 0 then []
    else
      var rows := JoinPrefix(h, n - 1);
      if HasTeam(h, n - 1) then rows + [RowOf(h, n - 1)] else rows
  }

  /** `from(member).join(member.team, team)`: members without a team drop out. */
  function Join(h: Heap): (rows: seq<JoinedRow>)
    ensures forall k :: 0 <= k < |rows| ==> IsJoined(h, rows[k])
    ensures forall i :: HasTeam(h, i) ==> RowOf(h, i) in rows
    ensures Ascending(rows)
  {
    JoinPrefix(h, |h.members|)
  }

  /** The rows for which every predicate holds, in their original order. */
  function Filter(rows: seq<JoinedRow>, ps: seq<Predicate>): (r: seq<JoinedRow>)
    ensures |r| <= |rows|
    ensures forall k :: 0 <= k < |r| ==> r[k] in rows && HoldsAll(ps, r[k])
    ensures forall row :: row in rows && HoldsAll(ps, row) ==> row in r
    ensures Ascending(rows) ==> Ascending(r)
  {
    if |rows| == 0 then []
    else
      var init := rows[..|rows| - 1];
      var last := rows[|rows| - 1];
      var r := Filter(init, ps);
      assert forall row :: row in rows ==> row in init || row == last;
      if HoldsAll(ps, last) then
        assert Ascending(rows) ==> Ascending(r + [last]) by {
          if Ascending(rows) {
            AscendingSplit(rows);
            AscendingSnoc(r, last);
          }
        }
        r + [last]
      else r
  }

  /** Dropping the last row of an ascending sequence leaves it ascending, below that row. */
  lemma AscendingSplit(rows: seq<JoinedRow>)
    requires |rows| > 0 && Ascending(rows)
    ensures Ascending(rows[..|rows| - 1])
    ensures forall row :: row in rows[..|rows| - 1] ==> row.memberId < rows[|rows| - 1].memberId
  {
  }

  /** A row above every row of an ascending sequence extends it ascendingly. */
  lemma AscendingSnoc(r: seq<JoinedRow>, last: JoinedRow)
    requires Ascending(r)
    requires forall row :: row in r ==> row.memberId < last.memberId
    ensures Ascending(r + [last])
  {
  }

  /** `select(new QMemberTeamDto(...))`: one DTO per row, in order. */
  function Select(rows: seq<JoinedRow>): seq<MemberTeamDto>
  {
    seq(|rows|, k requires 0 <= k < |rows| => ToDto(rows[k]))
  }

  /** `offset(o).limit(n)`: the rows from position `o` on, at most `n` of them. */
  function OffsetLimit<T>(xs: seq<T>, offset: nat, limit: nat): (r: seq<T>)
    ensures |r| == Min(limit, Max(0, |xs| - offset))
    ensures forall k :: 0 <= k < |r| ==> offset + k < |xs| && r[k] == xs[offset + k]
  {
    if offset >= |xs| then [] else xs[offset..Min(offset + limit, |xs|)]
  }

  /**
   * The database applies `offset`/`limit` to the projected rows: slicing the
   * joined rows and then projecting them yields the same DTOs.
   */
  lemma SelectCommutesWithOffsetLimit(rows: seq<JoinedRow>, offset: nat, limit: nat)
    ensures Select(OffsetLimit(rows, offset, limit)) == OffsetLimit(Select(rows), offset, limit)
  {
  }

  /** `fetchResults()`: the slice of the query's rows and the count of all of them. */
  function FetchResults<T>(xs: seq<T>, offset: nat, limit: nat): (r: QueryResults<T>)
    ensures r.total == |xs|
    ensures |r.results| == Min(limit, Max(0, r.total - offset))
    ensures forall k :: 0 <= k < |r.results| ==> offset + k < |xs| && r.results[k] == xs[offset + k]
  {
    QueryResults(OffsetLimit(xs, offset, limit), |xs|)
  }

  /** `page` is the `p`-th page of `all`, and its total counts every row of `all`. */
  predicate IsPageOf<T(==)>(page: Page<T>, all: seq<T>, p: PageRequest)
  {
    && page.request == p
    && page.total == |all|
    && |page.content| == Min(p.size, Max(0, |all| - p.Offset()))
    && forall k :: 0 <= k < |page.content| ==> p.Offset() + k < |all| && page.content[k] == all[p.Offset() + k]
  }

  /** The offset/limit slice of `all`, with `|all|` as its total, is the requested page of `all`. */
  lemma SliceIsPage<T>(all: seq<T>, p: PageRequest)
    ensures var page := Page(OffsetLimit(all, p.Offset(), p.size), p, |all|);
      && IsPageOf(page, all, p)
      && |page.content| <= p.size
      && |page.content| <= |all|
  {
  }

  /** With no predicates, the filter keeps every row. */
  lemma {:induction false} FilterWithoutPredicates(rows: seq<JoinedRow>)
    ensures Filter(rows, []) == rows
  {
    if |rows| > 0 {
      var init, last := rows[..|rows| - 1], rows[|rows| - 1];
      assert init + [last] == rows;
      FilterWithoutPredicates(init);
      FilterKeepsPassingRow(init, last, []);
    }
  }

  /** A row that passes is kept after the rows the filter kept before it. */
  lemma FilterKeepsPassingRow(init: seq<JoinedRow>, last: JoinedRow, ps: seq<Predicate>)
    requires HoldsAll(ps, last)
    ensures Filter(init + [last], ps) == Filter(init, ps) + [last]
  {
    assert (init + [last])[..|init|] == init;
  }

  /** Rows in ascending member order name as many distinct members as there are rows. */
  lemma {:induction false} AscendingRowsNameDistinctMembers(rows: seq<JoinedRow>)
    requires Ascending(rows)
    ensures |set k | 0 <= k < |rows| :: rows[k].memberId| == |rows|
  {
    if |rows| > 0 {
      var init := rows[..|rows| - 1];
      var last := rows[|rows| - 1];
      var ids := set k | 0 <= k < |init| :: init[k].memberId;
      assert |ids| == |init| by {
        AscendingRowsNameDistinctMembers(init);
      }
      assert last.memberId !in ids by {
        forall k | 0 <= k < |init| ensures init[k].memberId < last.memberId {
          assert init[k] == rows[k];
        }
      }
      assert (set k | 0 <= k < |rows| :: rows[k].memberId) == ids + {last.memberId} by {
        forall k | 0 <= k < |rows| ensures rows[k].memberId in ids + {last.memberId} {
          if k < |init| { assert init[k] == rows[k]; }
        }
        forall k | 0 <= k < |init| ensures init[k].memberId in set k | 0 <= k < |rows| :: rows[k].memberId {
          assert init[k] == rows[k];
        }
      }
    }
  }

  /** Every row of the join belongs to a team that lists the member, when the heap is linked. */
  lemma JoinedMembersAreListed(h: Heap)
    requires Linked(h)
    ensures forall k :: 0 <= k < |Join(h)| ==> Join(h)[k].memberId in Join(h)[k].team.members
  {
  }
}
