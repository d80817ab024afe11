# Member search with optional filters, in Dafny

This project models the repository logic of a Spring Data JPA + QueryDSL
tutorial application with two entities, `Member` and `Team`. The model covers:

- **The Member–Team link.** A member owns a nullable reference to its team.
  The team keeps an inverse list of its members. The `Member` constructors
  and `changeTeam` keep that list up to date by appending to it.
- **The member search.** A `MemberSearchCondition` has four optional filters:
  username, team name, minimum age and maximum age. The search inner-joins
  members with their teams, ANDs the filters that are present, and projects
  each row to a five-column `MemberTeamDto`. Paging takes an offset/limit
  slice of the result. A total comes from a count query over the same join
  and filters.
- **Two repositories.** `MemberCustomRepositoryImpl` and
  `MemberCustom2RepositoryImpl` each implement this search. Each has its own
  copy of the four filter helpers.

Modules:

- `Nullable` (nullable.dfy): `Option`. `None` is Java's `null`.
- `Entity` (entity.dfy): the object heap, the constructors, `changeTeam`, and
  the invariants the constructors and `changeTeam` keep (`Valid`, `Linked`).
  A reference is the position at which the object was allocated.
- `SearchCondition` (search_condition.dfy): the condition, `hasLength`, and the
  intended field-by-field meaning of a condition (`Satisfies`).
- `Query` (query.dfy): the relational meaning of the QueryDSL calls. This
  covers the inner join in store order, `where` with null arguments skipped,
  projection, offset/limit, and counting.
- `MemberCustomRepository`, `MemberCustom2Repository`: the two repositories.
- `RepositoryExamples`: the fixture of the repository tests and the answers
  those tests expect.

The search contracts are stated against `Query.Selected`. A member is
selected when it has a team and passes every present filter. The search returns
exactly one DTO per selected member, in store order, and each DTO is copied from
the member and its team. The count equals the number of selected members.

Some members are plain definitions of what a library call or SQL operator
means. They carry no contract of their own, so they have no row below; the
contracts of the members that use them state their effect:

- `Query.Select` is the `QMemberTeamDto` projection
  (src/main/java/com/example/querydsl/repository/MemberCustomRepositoryImpl.java:34-39),
  with `Query.ToDto` for one joined row. The search contracts state the five
  copied columns (`DtoOf`), and `Query.SelectCommutesWithOffsetLimit` relates
  the projection to paging.
- `Query.Holds` is the meaning of `eq`, `goe` and `loe` on one row
  (src/main/java/com/example/querydsl/repository/MemberCustomRepositoryImpl.java:50-64).
  SQL equality against a NULL column is not true, so the row is not kept.
- `SearchCondition.HasLength` is Spring's `StringUtils.hasLength`
  (src/main/java/com/example/querydsl/repository/MemberCustomRepositoryImpl.java:50-56).
- `SearchCondition.Satisfies` is the field-by-field reading of a condition
  that the search contracts are checked against.

## Model

| member | source | states |
|---|---|---|
| Entity.NewTeam | src/main/java/com/example/querydsl/entity/Team.java:21-25 | a new team has the given name and an empty members list; nothing already allocated changes |
| Entity.NewMember | src/main/java/com/example/querydsl/entity/Member.java:24-26 | the new member has the given (possibly null) username, age 0 and a null team; no other object changes |
| Entity.NewMemberWithAge | src/main/java/com/example/querydsl/entity/Member.java:28-31 | the new member has the given username and age and a null team; no other object changes |
| Entity.NewMemberWithTeam | src/main/java/com/example/querydsl/entity/Member.java:33-39 | with a non-null team, the member's team is that team and the member is appended to its list; with null, the team stays null and no list changes; other teams are untouched |
| Entity.ChangeTeam | src/main/java/com/example/querydsl/entity/Member.java:42-45 | sets the team field, appends exactly this member at the end of the new team's list, leaves every other team (the previous one included) unchanged; a null team throws after the field was already cleared |
| Entity.ChangeTeamPreservesLink | src/main/java/com/example/querydsl/entity/Member.java:42-45 | changeTeam keeps every reference valid, keeps every member listed by its team, and only appends to members lists |
| Entity.ChangeTeamLeavesPreviousListing | src/main/java/com/example/querydsl/entity/Member.java:42-45 | after moving to another team, the member is still listed by its previous team |
| Entity.ConstructorsPreserveLink | src/main/java/com/example/querydsl/entity/Member.java:24-39 | all three Member constructors and the Team constructor (Team.java:23-25) keep the heap valid and linked, and no members list shrinks |
| Query.WhereClause | src/main/java/com/example/querydsl/repository/MemberCustomRepositoryImpl.java:42-45 | the non-null where arguments hold of a row exactly when each of them holds (AND, nulls skipped) |
| Query.Join | src/main/java/com/example/querydsl/repository/MemberCustomRepositoryImpl.java:40-41 | the inner join yields, in store order, exactly one row per member that has a team, carrying that member and its team |
| Query.Filter | src/main/java/com/example/querydsl/repository/MemberCustomRepositoryImpl.java:42-46 | keeps exactly the rows every predicate holds of; when the input is in ascending member order, so is the output |
| Query.SelectCommutesWithOffsetLimit | src/main/java/com/example/querydsl/repository/MemberCustomRepositoryImpl.java:69-82 | the database slices the projected rows; projecting the sliced join gives the same DTOs, so the projection and `offset`/`limit` may be applied in either order |
| Query.OffsetLimit | src/main/java/com/example/querydsl/repository/MemberCustomRepositoryImpl.java:110-111 | the slice starting at the offset, of length min(limit, max(0, n - offset)) |
| Query.FetchResults | src/main/java/com/example/querydsl/repository/MemberCustomRepositoryImpl.java:81-89 | the total counts every row, ignoring offset and limit; the results are the min(limit, max(0, total - offset)) rows that start at the offset, in order |
| Query.JoinedMembersAreListed | src/main/java/com/example/querydsl/entity/Member.java:42-45 | in a linked heap, every row of the join is listed in its team's members list |
| MemberCustomRepository.UsernameEq | src/main/java/com/example/querydsl/repository/MemberCustomRepositoryImpl.java:50-52 | no predicate exactly when the username is null or empty; otherwise the predicate holds iff the member's username equals it |
| MemberCustomRepository.TeamNameEq | src/main/java/com/example/querydsl/repository/MemberCustomRepositoryImpl.java:54-56 | no predicate exactly when the team name is null or empty; otherwise it holds iff the team's name equals it |
| MemberCustomRepository.AgeGoe | src/main/java/com/example/querydsl/repository/MemberCustomRepositoryImpl.java:58-60 | no predicate exactly when the bound is null; otherwise it holds iff bound <= age |
| MemberCustomRepository.AgeLoe | src/main/java/com/example/querydsl/repository/MemberCustomRepositoryImpl.java:62-64 | no predicate exactly when the bound is null; otherwise it holds iff age <= bound |
| MemberCustomRepository.WhereArguments | src/main/java/com/example/querydsl/repository/MemberCustomRepositoryImpl.java:42-45 | the four arguments together hold of a row iff the row satisfies every present filter of the condition |
| MemberCustomRepository.MatchingRows | src/main/java/com/example/querydsl/repository/MemberCustomRepositoryImpl.java:40-45 | the filtered join holds exactly the selected members' rows, in ascending member order |
| MemberCustomRepository.SearchWhereParameter | src/main/java/com/example/querydsl/repository/MemberCustomRepositoryImpl.java:32-47 | one DTO per selected member and none other, in store order, each copied from the member and its team |
| MemberCustomRepository.CountQuery | src/main/java/com/example/querydsl/repository/MemberCustomRepositoryImpl.java:124-132 | the count query's total equals the number of rows the unpaged search returns |
| MemberCustomRepository.SearchPaginationSimple | src/main/java/com/example/querydsl/repository/MemberCustomRepositoryImpl.java:67-92 | the content is the page's slice of the search result and the total is the full result size, so the content has at most size rows and at most total rows, and every row is selected |
| MemberCustomRepository.SearchPaginationComplex | src/main/java/com/example/querydsl/repository/MemberCustomRepositoryImpl.java:96-139 | same page as above, with the total taken from the separate count query |
| MemberCustomRepository.SearchPaginationCountQueryOptimization | src/main/java/com/example/querydsl/repository/MemberCustomRepositoryImpl.java:143-183 | same page as above; the total is the count query's result |
| MemberCustomRepository.TotalCountsSelectedMembers | src/main/java/com/example/querydsl/repository/MemberCustomRepositoryImpl.java:124-132 | the count equals the number of distinct selected members |
| MemberCustomRepository.ReturnedRowsMeetPresentFilters | src/main/java/com/example/querydsl/repository/MemberCustomRepositoryImpl.java:50-64 | every returned DTO has the requested username and team name when given, and an age within the inclusive bounds that are present |
| MemberCustomRepository.NoFilterReturnsEveryTeamMember | src/main/java/com/example/querydsl/repository/MemberCustomRepositoryImpl.java:40-45 | with no present filter, the search is the whole join projected: every member that has a team |
| MemberCustomRepository.EmptyStringIsNoFilter | src/main/java/com/example/querydsl/repository/MemberCustomRepositoryImpl.java:50-56 | an empty username or team name gives the same result as a null one |
| MemberCustomRepository.MemberWithoutTeamNeverAppears | src/main/java/com/example/querydsl/repository/MemberCustomRepositoryImpl.java:41 | a member with a null team is in no content of the four queries and is not counted |
| MemberCustomRepository.PagingStrategiesAgree | src/main/java/com/example/querydsl/repository/MemberCustomRepositoryImpl.java:124-132 | the three paging methods return the same page for every request |
| MemberCustom2Repository.UsernameEq | src/main/java/com/example/querydsl/repository/MemberCustom2RepositoryImpl.java:49-51 | no predicate exactly when the username is null or empty; otherwise username equality |
| MemberCustom2Repository.TeamNameEq | src/main/java/com/example/querydsl/repository/MemberCustom2RepositoryImpl.java:53-55 | no predicate exactly when the team name is null or empty; otherwise team-name equality |
| MemberCustom2Repository.AgeGoe | src/main/java/com/example/querydsl/repository/MemberCustom2RepositoryImpl.java:57-59 | no predicate exactly when the bound is null; otherwise an inclusive lower bound |
| MemberCustom2Repository.AgeLoe | src/main/java/com/example/querydsl/repository/MemberCustom2RepositoryImpl.java:61-63 | no predicate exactly when the bound is null; otherwise an inclusive upper bound |
| MemberCustom2Repository.MatchingRows2 | src/main/java/com/example/querydsl/repository/MemberCustom2RepositoryImpl.java:33-38 | the second repository's filtered join holds exactly the selected members' rows, in ascending member order |
| MemberCustom2Repository.SearchWhereParameter2 | src/main/java/com/example/querydsl/repository/MemberCustom2RepositoryImpl.java:32-46 | one DTO per selected member and none other, in store order, each copied from the member and its team |
| MemberCustom2Repository.SearchPaginationSimple2 | src/main/java/com/example/querydsl/repository/MemberCustom2RepositoryImpl.java:67-87 | the content is the page's slice of the search result, at most size rows, every row selected; the count is the unpaged result size |
| MemberCustom2Repository.SameOmissionRules | src/main/java/com/example/querydsl/repository/MemberCustom2RepositoryImpl.java:49-63 | each of the four helpers agrees with the first repository's on every input |
| MemberCustom2Repository.SameRowsAsFirstRepository | src/main/java/com/example/querydsl/repository/MemberCustom2RepositoryImpl.java:32-46 | for every condition, the same sequence (hence the same multiset) of rows as the first repository's search |
| MemberCustom2Repository.SamePageAsFirstRepository | src/main/java/com/example/querydsl/repository/MemberCustom2RepositoryImpl.java:67-87 | for every condition and request, the same page as the first repository's simple paging |
| RepositoryExamples.FixtureIsLinked | src/test/java/com/example/querydsl/repository/MemberRepositoryTest.java:56-68 | the fixture's constructors give teamA the list [member1, member2] and teamB the list [member3, member4] |
| RepositoryExamples.FixtureIsConsistent | src/test/java/com/example/querydsl/repository/MemberRepositoryTest.java:56-68 | the fixture heap is valid and linked |
| RepositoryExamples.WhereParameterFindsMember4 | src/test/java/com/example/querydsl/repository/MemberRepositoryTest.java:70-81 | username member4, age 35..40, team teamB returns member4 alone |
| RepositoryExamples.FirstPageOfThree | src/test/java/com/example/querydsl/repository/MemberRepositoryTest.java:102-108 | page 0 of size 3, unfiltered, holds member1, member2, member3 in that order, and the total is 4; the complex and count-optimised paging return the same page by PagingStrategiesAgree |
| RepositoryExamples.BlankUsernameStillFilters | src/main/java/com/example/querydsl/repository/MemberCustomRepositoryImpl.java:50-52 | a username of one blank is a filter, and on the fixture it returns nothing |

## Left out

- Persistence: `persist`, `flush`, `clear`, lazy loading and fetch joins. The database is the heap itself, and the generated id of a member or a team is its heap reference; so the DTO's `memberId` and `teamId` are heap references.
- The QueryDSL expression tree and JPQL generation. Only the filter, slice and count semantics of those calls are modelled.
- Row order without `orderBy` is chosen by the database. The model uses the order in which members were allocated, which is what the tests rely on.
- String equality is exact character-sequence equality. Database collation is left out.
- Sorting in `applyPagination` is left out. The page request has no sort.
- MemberCustomRepository.SearchPaginationCountQueryOptimization: the total is always the count query's result. `PageableExecutionUtils.getPage` may skip the count query when the page is not full. Its code is not part of this model, so that rule is not encoded.
- The commented-out count queries in `searchPaginationComplex` and `searchPaginationCountQueryOptimization` used a left join. They are dead code and are not modelled.
- `PageImpl`'s own adjustment of the total is library code and is left out. The page carries the total the query produced.
- Page requests: the page number and page size are Java `int`s in `PageRequest`; the model takes them as unbounded naturals with size at least 1, so the `int` upper bound is not modelled. The offset is page times size, as `PageRequest.getOffset` computes it in `long`, where the product of two `int`s cannot overflow.
- Null arguments to the search methods: a null condition throws a `NullPointerException` at `condition.getUsername()` (src/main/java/com/example/querydsl/repository/MemberCustomRepositoryImpl.java:42), and a null pageable at `pageable.getOffset()` (line 81). The model's `Condition` and `PageRequest` parameters are never null, so it has no such error path.
- `MemberApiController` is left out: it is HTTP binding and logging only. The repository interfaces are left out: they hold signatures only.
- The QueryDSL exercises in the basic test class are left out: aggregates, CASE, string concatenation, SQL functions, and bulk update and delete.
- Lombok setters (`setTeam`, `setUsername`, ...) are left out. The repositories never call them.
