/**
 * The two JPA entities, Member and Team, and the bidirectional link between
 * them. Objects live in a heap; a reference is the position at which the
 * object was allocated, so `new` appends and never disturbs existing objects.
 */
module Entity {
  import opened Nullable

  /** Java's `int`. Ages are only ever compared, never computed, so no wrap-around arises. */
  type Int32 = x: int | -0x8000_0000 <= x < 0x8000_0000

  type MemberRef = nat
  type TeamRef = nat

  /** Member: a nullable username, an `int` age (0 unless set) and the owning side of the relation. */
  datatype Member = Member(username: Option<string>, age: Int32, team: Option<TeamRef>)

  /** Team: a nullable name and the inverse side of the relation, an ordered list of members. */
  datatype Team = Team(name: Option<string>, members: seq<MemberRef>)

  datatype Heap = Heap(members: seq<Member>, teams: seq<Team>)

  /** What a Java call leaves behind: the heap, and whether it ended by throwing. */
  datatype Completion = Normal(heap: Heap) | NullPointerException(heap: Heap)

  const EmptyHeap := Heap([], [])

  /** Every reference stored in an object points at an allocated object. */
  predicate Valid(h: Heap)
  {
    && (forall i :: 0 <= i < |h.members| && h.members[i].team.Some? ==> h.members[i].team.value < |h.teams|)
    && (forall t, k :: 0 <= t < |h.teams| && 0 <= k < |h.teams[t].members| ==> h.teams[t].members[k] < |h.members|)
  }

  /** The inverse side covers the owning side: a member whose team is `t` is listed in `t.members`. */
  predicate Linked(h: Heap)
  {
    forall i :: 0 <= i < |h.members| && h.members[i].team.Some? && h.members[i].team.value < |h.teams| ==>
      i in h.teams[h.members[i].team.value].members
  }

  /** The members lists of `h` are prefixes of those of `h'`: no entry is removed or rewritten. */
  predicate ListsOnlyGrow(h: Heap, h': Heap)
  {
    && |h.teams| <= |h'.teams|
    && forall t :: 0 <= t < |h.teams| ==> h.teams[t].members <= h'.teams[t].members
  }

  /** `new Team(name)`: the new team carries the name and an empty members list. */
  function NewTeam(h: Heap, name: Option<string>): (h': Heap)
    ensures |h'.teams| == |h.teams| + 1
    ensures h'.teams[|h.teams|].name == name && h'.teams[|h.teams|].members == []
    ensures h'.members == h.members
    ensures forall t :: 0 <= t < |h.teams| ==> h'.teams[t] == h.teams[t]
  {
    Heap(h.members, h.teams + [Team(name, [])])
  }

  /** `new Member(username)`: age keeps Java's default 0 and the team stays null. */
  function NewMember(h: Heap, username: Option<string>): (h': Heap)
    ensures |h'.members| == |h.members| + 1
    ensures var m := h'.members[|h.members|]; m.username == username && m.age == 0 && m.team == None
    ensures forall i :: 0 <= i < |h.members| ==> h'.members[i] == h.members[i]
    ensures h'.teams == h.teams
  {
    Heap(h.members + [Member(username, 0, None)], h.teams)
  }

  /** `new Member(username, age)`: both fields are set and the team stays null. */
  function NewMemberWithAge(h: Heap, username: Option<string>, age: Int32): (h': Heap)
    ensures |h'.members| == |h.members| + 1
    ensures var m := h'.members[|h.members|]; m.username == username && m.age == age && m.team == None
    ensures forall i :: 0 <= i < |h.members| ==> h'.members[i] == h.members[i]
    ensures h'.teams == h.teams
  {
    Heap(h.members + [Member(username, age, None)], h.teams)
  }

  /**
   * `new Member(username, age, team)`: a non-null team is joined through
   * `changeTeam`, so the new member is appended to that team's list; a null
   * team leaves every list as it was.
   */
  function NewMemberWithTeam(h: Heap, username: Option<string>, age: Int32, team: Option<TeamRef>): (h': Heap)
    requires team.Some? ==> team.value < |h.teams|
    ensures |h'.members| == |h.members| + 1
    ensures var m := h'.members[|h.members|]; m.username == username && m.age == age && m.team == team
    ensures forall i :: 0 <= i < |h.members| ==> h'.members[i] == h.members[i]
    ensures team.None? ==> h'.teams == h.teams
    ensures |h'.teams| == |h.teams|
    ensures team.Some? ==> h'.teams[team.value].members == h.teams[team.value].members + [|h.members|]
    ensures forall t :: 0 <= t < |h.teams| && team != Some(t) ==> h'.teams[t] == h.teams[t]
    ensures forall t :: 0 <= t < |h.teams| ==> h'.teams[t].name == h.teams[t].name
  {
    var h1 := Heap(h.members + [Member(username, age, None)], h.teams);
    if team.Some? then ChangeTeam(h1, |h.members|, team).heap else h1
  }

  /**
   * `changeTeam(team)`: the member's team field is set first; then the
   * member is appended to `team.members`, which throws when `team` is null.
   * The previous team's list is not touched.
   */
  function ChangeTeam(h: Heap, m: MemberRef, team: Option<TeamRef>): (r: Completion)
    requires m < |h.members|
    requires team.Some? ==> team.value < |h.teams|
    ensures r.NullPointerException? <==> team.None?
    ensures |r.heap.members| == |h.members|
    ensures r.heap.members[m].team == team
    ensures r.heap.members[m].username == h.members[m].username && r.heap.members[m].age == h.members[m].age
    ensures forall i :: 0 <= i < |h.members| && i != m ==> r.heap.members[i] == h.members[i]
    ensures |r.heap.teams| == |h.teams|
    ensures team.Some? ==> r.heap.teams[team.value].members == h.teams[team.value].members + [m]
    ensures forall t :: 0 <= t < |h.teams| && team != Some(t) ==> r.heap.teams[t] == h.teams[t]
    ensures forall t :: 0 <= t < |h.teams| ==> r.heap.teams[t].name == h.teams[t].name
  {
    var member := h.members[m].(team := team);
    var withTeam := h.(members := h.members[m := member]);
    match team
    case None => NullPointerException(withTeam)
    case Some(t) =>
      var joined := h.teams[t].(members := h.teams[t].members + [m]);
      Normal(withTeam.(teams := h.teams[t := joined]))
  }

  /** `changeTeam` keeps the heap valid and linked, and only ever appends to a members list. */
  lemma ChangeTeamPreservesLink(h: Heap, m: MemberRef, team: Option<TeamRef>)
    requires m < |h.members|
    requires team.Some? ==> team.value < |h.teams|
    requires Valid(h) && Linked(h)
    ensures Valid(ChangeTeam(h, m, team).heap) && Linked(ChangeTeam(h, m, team).heap)
    ensures ListsOnlyGrow(h, ChangeTeam(h, m, team).heap)
  {
    var h' := ChangeTeam(h, m, team).heap;
    forall i | 0 <= i < |h'.members| && h'.members[i].team.Some? && h'.members[i].team.value < |h'.teams|
      ensures i in h'.teams[h'.members[i].team.value].members
    {
      var t := h'.members[i].team.value;
      if i == m {
        assert h'.teams[t].members == h.teams[t].members + [m];
      } else {
        assert i in h.teams[t].members;
      }
    }
  }

  /**
   * Moving a member to another team leaves it listed in its previous team:
   * the inverse side then lists a member whose team is elsewhere.
   */
  lemma ChangeTeamLeavesPreviousListing(h: Heap, m: MemberRef, team: TeamRef)
    requires m < |h.members| && team < |h.teams|
    requires Linked(h)
    requires h.members[m].team.Some? && h.members[m].team.value < |h.teams| && h.members[m].team.value != team
    ensures var previous := h.members[m].team.value;
      var h' := ChangeTeam(h, m, Some(team)).heap;
      m in h'.teams[previous].members && h'.members[m].team != Some(previous)
  {
  }

  /** Every constructor keeps the heap valid and linked and no members list shrinks. */
  lemma ConstructorsPreserveLink(h: Heap, name: Option<string>, username: Option<string>, age: Int32, team: Option<TeamRef>)
    requires Valid(h) && Linked(h)
    requires team.Some? ==> team.value < |h.teams|
    ensures Valid(NewTeam(h, name)) && Linked(NewTeam(h, name)) && ListsOnlyGrow(h, NewTeam(h, name))
    ensures Valid(NewMember(h, username)) && Linked(NewMember(h, username)) && ListsOnlyGrow(h, NewMember(h, username))
    ensures Valid(NewMemberWithAge(h, username, age)) && Linked(NewMemberWithAge(h, username, age))
    ensures ListsOnlyGrow(h, NewMemberWithAge(h, username, age))
    ensures Valid(NewMemberWithTeam(h, username, age, team)) && Linked(NewMemberWithTeam(h, username, age, team))
    ensures ListsOnlyGrow(h, NewMemberWithTeam(h, username, age, team))
  {
    var h1 := Heap(h.members + [Member(username, age, None)], h.teams);
    assert Valid(h1) && Linked(h1);
    if team.Some? {
      ChangeTeamPreservesLink(h1, |h.members|, team);
    }
  }
}
