/** Workspaces and projects. Both services apply the same rules, with the
    same error messages, to documents of the same shape
    `{ name, description, owner, members }`; a `Group` stands for either. */
module Membership {
  import opened Common

  datatype Group = Group(name: string, description: Option<string>, owner: UserId, members: seq<UserId>)

  /** The collection, by `_id`. */
  type Groups = map<GroupId, Group>

  ghost predicate NoDuplicates(xs: seq<UserId>) {
    forall i, j :: 0 <= i < j < |xs| ==> xs[i] != xs[j]
  }

  /** The owner is a member and nobody is a member twice. */
  ghost predicate Valid(g: Group) {
    g.owner in g.members && NoDuplicates(g.members)
  }

  ghost predicate AllValid(gs: Groups) {
    forall id :: id in gs ==> Valid(gs[id])
  }

  /** `getWorkspacesForUser` / `getProjectsForUser`: the query `{ members: u }`. */
  function GroupsFor(gs: Groups, u: UserId): (r: Groups)
    ensures forall id :: id in r <==> id in gs && u in gs[id].members
    ensures forall id :: id in r ==> r[id] == gs[id]
  {
    map id | id in gs && u in gs[id].members :: gs[id]
  }

  /** The membership test on an UNPOPULATED `members` array, as the task
      controller and the task service both apply it: the group exists and
      lists `u`, whether or not `u` is still a user. */
  predicate ListsMember(gs: Groups, id: GroupId, u: UserId) {
    id in gs && u in gs[id].members
  }

  /** The membership test on a POPULATED `members` array: population drops
      references to users that no longer exist, so the caller must be both
      listed and a user. */
  predicate IsListedUser(g: Group, users: seq<User>, u: UserId) {
    u in g.members && UserExists(users, u)
  }

  /** `getWorkspaceByIdAndValidateMember` / `getProjectByIdAndValidateMember`:
      unknown id first, then membership. */
  function FindAsMember(gs: Groups, users: seq<User>, caller: UserId, id: GroupId): (r: Result<Group>)
    ensures r == Err(ProjectNotFound) <==> id !in gs
    ensures r == Err(NotGroupMember) <==> id in gs && !IsListedUser(gs[id], users, caller)
    ensures r.Ok? <==> id in gs && IsListedUser(gs[id], users, caller)
    ensures r.Ok? ==> r.value == gs[id]
  {
    if id !in gs then Err(ProjectNotFound)
    else if !IsListedUser(gs[id], users, caller) then Err(NotGroupMember)
    else Ok(gs[id])
  }

  /** `createWorkspace` / `createProject`: a missing or empty name is refused;
      otherwise the creator owns the new group and is its only member. The
      store assigns the fresh `id`. */
  function Create(gs: Groups, caller: UserId, name: Option<string>, description: Option<string>,
                  id: GroupId): (r: Result<(Groups, Group)>)
    requires id !in gs
    ensures r.Err? <==> !Truthy(name)
    ensures r.Err? ==> r.error == NameRequired
    ensures r.Ok? ==> var (gs', g) := r.value;
              && gs' == gs[id := g]
              && Some(g.name) == name && g.description == description
              && g.owner == caller && g.members == [caller]
              && Valid(g)
  {
    if !Truthy(name) then Err(NameRequired)
    else
      var g := Group(name.value, description, caller, [caller]);
      Ok((gs[id := g], g))
  }

  /** `addMemberToWorkspace` / `addMemberToProject`: the checks run in the
      order existence, ownership, user existence, duplicate; on success the
      new member is appended once and no other group changes. */
  function AddMember(gs: Groups, users: seq<User>, caller: UserId, id: GroupId, memberId: UserId)
    : (r: Result<(Groups, Group)>)
    ensures r == Err(ProjectNotFound) <==> id !in gs
    ensures r == Err(OnlyOwnerMayAdd) <==> id in gs && gs[id].owner != caller
    ensures r == Err(UserNotFound) <==> id in gs && gs[id].owner == caller && !UserExists(users, memberId)
    ensures r == Err(AlreadyMember)
            <==> id in gs && gs[id].owner == caller && UserExists(users, memberId) && memberId in gs[id].members
    ensures r.Ok? <==> id in gs && gs[id].owner == caller && UserExists(users, memberId) && memberId !in gs[id].members
    ensures r.Ok? ==> var (gs', g) := r.value;
              && id in gs
              && gs' == gs[id := g]
              && g == gs[id].(members := gs[id].members + [memberId])
              && |g.members| == |gs[id].members| + 1
              && (Valid(gs[id]) ==> Valid(g))
  {
    if id !in gs then Err(ProjectNotFound)
    else
      var g := gs[id];
      if g.owner != caller then Err(OnlyOwnerMayAdd)
      else if !UserExists(users, memberId) then Err(UserNotFound)
      else if memberId in g.members then Err(AlreadyMember)
      else
        var g' := g.(members := g.members + [memberId]);
        Ok((gs[id := g'], g'))
  }

  /** `deleteWorkspace` / `deleteProject`: the group must exist and the caller
      must own it; then only that group is removed. */
  function Delete(gs: Groups, caller: UserId, id: GroupId): (r: Result<Groups>)
    ensures r == Err(ProjectNotFound) <==> id !in gs
    ensures r == Err(OnlyOwnerMayDelete) <==> id in gs && gs[id].owner != caller
    ensures r.Ok? <==> id in gs && gs[id].owner == caller
    ensures r.Ok? ==> r.value.Keys == gs.Keys - {id}
    ensures r.Ok? ==> forall k :: k in r.value ==> r.value[k] == gs[k]
  {
    if id !in gs then Err(ProjectNotFound)
    else if gs[id].owner != caller then Err(OnlyOwnerMayDelete)
    else Ok(gs - {id})
  }

  /** Every operation that changes the collection keeps every group valid. */
  lemma OperationsPreserveValidity(gs: Groups, users: seq<User>, caller: UserId, id: GroupId,
                                   memberId: UserId, name: Option<string>, description: Option<string>)
    requires AllValid(gs)
    ensures id !in gs && Create(gs, caller, name, description, id).Ok? ==>
              AllValid(Create(gs, caller, name, description, id).value.0)
    ensures AddMember(gs, users, caller, id, memberId).Ok? ==>
              AllValid(AddMember(gs, users, caller, id, memberId).value.0)
    ensures Delete(gs, caller, id).Ok? ==> AllValid(Delete(gs, caller, id).value)
  {
  }

  /** The member check and the member listing agree: a user passes the check
      on a group exactly when the listing for that user contains it. */
  lemma FindAgreesWithListing(gs: Groups, users: seq<User>, caller: UserId, id: GroupId)
    ensures FindAsMember(gs, users, caller, id).Ok?
            <==> id in GroupsFor(gs, caller) && UserExists(users, caller)
  {
  }

  /** The creator of a group (when a user) passes the member check on it. */
  lemma CreatorCanFind(gs: Groups, users: seq<User>, caller: UserId, name: Option<string>,
                       description: Option<string>, id: GroupId)
    requires id !in gs
    requires Create(gs, caller, name, description, id).Ok?
    requires UserExists(users, caller)
    ensures FindAsMember(Create(gs, caller, name, description, id).value.0, users, caller, id).Ok?
  {
  }

  /** An added member passes the member check; members listed before still do. */
  lemma AddedMemberCanFind(gs: Groups, users: seq<User>, caller: UserId, id: GroupId, memberId: UserId, u: UserId)
    requires AddMember(gs, users, caller, id, memberId).Ok?
    ensures FindAsMember(AddMember(gs, users, caller, id, memberId).value.0, users, memberId, id).Ok?
    ensures FindAsMember(gs, users, u, id).Ok? ==>
              FindAsMember(AddMember(gs, users, caller, id, memberId).value.0, users, u, id).Ok?
  {
  }

  /** After a deletion the group is unknown to everyone. */
  lemma DeletedIsNotFound(gs: Groups, users: seq<User>, caller: UserId, id: GroupId, u: UserId)
    requires Delete(gs, caller, id).Ok?
    ensures FindAsMember(Delete(gs, caller, id).value, users, u, id) == Err(ProjectNotFound)
  {
  }
}
