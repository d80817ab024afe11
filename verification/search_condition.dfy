/**
 * MemberSearchCondition: four optional filters. An absent filter places no
 * constraint. The two strings count as absent when null or empty
 * (Spring's `StringUtils.hasLength`), the two ages when null.
 */
module SearchCondition {
  import opened Nullable
  import opened Entity

  datatype Condition = Condition(
    username: Option<string>,
    teamName: Option<string>,
    ageGoe: Option<Int32>,
    ageLoe: Option<Int32>)

  const NoCondition := Condition(None, None, None, None)

  /** `StringUtils.hasLength`: non-null and at least one character; whitespace counts. */
  predicate HasLength(s: Option<string>)
  {
    s.Some? && |s.value| > 0
  }

  /**
   * The intended meaning of a condition, field by field: each present filter
   * holds of the member and its team. An equality against a null column is
   * never true in SQL, so a member with a null username fails a username filter.
   */
  predicate Satisfies(m: Member, t: Team, c: Condition)
  {
    && (HasLength(c.username) ==> m.username == c.username)
    && (HasLength(c.teamName) ==> t.name == c.teamName)
    && (c.ageGoe.Some? ==> c.ageGoe.value <= m.age)
    && (c.ageLoe.Some? ==> m.age <= c.ageLoe.value)
  }
}
