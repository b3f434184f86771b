/** The membership and role handlers: the single-member view that projects a
    user's grants onto one workspace, the role-detail request guarded by the
    fixed list of workspace roles, and member removal by a comma list. */
module Membership {
  import opened Wrappers
  import opened Text
  import opened Entities
  import opened Stores

  /** The names of a list of namespaces. */
  function Names(namespaces: seq<Namespace>): set<string> {
    set i | 0 <= i < |namespaces| :: namespaces[i].name
  }

  /** The namespace roles of `roles` kept by the per-namespace loop: one entry
      per listed namespace whose role is non-empty, in list order. */
  function OwnedRoles(owned: seq<Namespace>, roles: map<string, string>): (r: map<string, string>)
    ensures forall n :: n in r <==> n in Names(owned) && Lookup(roles, n) != ""
    ensures forall n :: n in r ==> n in roles && r[n] == roles[n]
  {
    if |owned| == 0 then map[]
    else
      var prefix := owned[..|owned| - 1];
      var last := owned[|owned| - 1].name;
      assert Names(owned) == Names(prefix) + {last} by {
        assert owned == prefix + [owned[|owned| - 1]];
        forall n | n in Names(owned) ensures n in Names(prefix) + {last} {
          var i :| 0 <= i < |owned| && owned[i].name == n;
          if i < |owned| - 1 { assert prefix[i].name == n; }
        }
        forall n | n in Names(prefix) ensures n in Names(owned) {
          var i :| 0 <= i < |prefix| && prefix[i].name == n;
          assert owned[i].name == n;
        }
      }
      var kept := OwnedRoles(prefix, roles);
      if Lookup(roles, last) != "" then kept[last := roles[last]] else kept
  }

  /** The view of `u` returned for one member of `workspace`, given the
      namespaces the workspace owns. */
  function ProjectMember(u: User, workspace: string, owned: seq<Namespace>): (p: User)
    // exactly the non-empty grants on owned namespaces survive, unchanged
    ensures forall n :: n in p.roles <==> n in Names(owned) && Lookup(u.roles, n) != ""
    ensures forall n :: n in p.roles ==> n in u.roles && p.roles[n] == u.roles[n]
    // the single workspace role, "" when the user has none here
    ensures p.workspaceRole == Lookup(u.workspaceRoles, workspace)
    // no rule payloads and no other workspaces' roles are exposed
    ensures p.rules == map[] && p.workspaceRules == map[] && p.workspaceRoles == map[] && p.clusterRules == []
    ensures p.username == u.username && p.email == u.email
  {
    u.(workspaceRole := Lookup(u.workspaceRoles, workspace),
       roles := OwnedRoles(owned, u.roles),
       rules := map[], workspaceRules := map[], workspaceRoles := map[], clusterRules := [])
  }

  /** GET /{name}/members/{member}. */
  function MemberHandler(
    st: Store, workspace: string, username: string,
    userReply: Result<User, string>,
    namespacesReply: Result<seq<Namespace>, string>): (h: Handled)
    ensures h.store == st
    ensures userReply.Failure? ==>
              h.response == ErrorMessage(StatusInternalServerError, userReply.error) && h.calls == [GetUser(username)]
    ensures userReply.Success? ==> h.calls == [GetUser(username), WorkspaceNamespaces(workspace)]
    ensures userReply.Success? && namespacesReply.Failure? ==>
              h.response == ErrorMessage(StatusInternalServerError, namespacesReply.error)
    ensures userReply.Success? && namespacesReply.Success? ==>
              h.response.status == StatusOK && h.response.body.UserEntity?
              && h.response.body.user == ProjectMember(userReply.value, workspace, namespacesReply.value)
  {
    if userReply.Failure? then
      Handled(ErrorMessage(StatusInternalServerError, userReply.error), st, [GetUser(username)])
    else
      var calls := [GetUser(username), WorkspaceNamespaces(workspace)];
      if namespacesReply.Failure? then
        Handled(ErrorMessage(StatusInternalServerError, namespacesReply.error), st, calls)
      else
        Handled(Response(StatusOK, UserEntity(ProjectMember(userReply.value, workspace, namespacesReply.value))), st, calls)
  }

  /** GET /{name}/roles/{role}. `knownRoles` is the fixed list of workspace
      roles; an unknown role is not found before any identity-store call. */
  function RoleHandler(
    st: Store, workspace: string, roleName: string, knownRoles: seq<string>,
    rulesReply: Result<(Role, seq<Rule>), string>,
    usersReply: Result<seq<User>, string>): (h: Handled)
    ensures h.store == st
    ensures h.response.status == StatusNotFound <==> roleName !in knownRoles
    ensures roleName !in knownRoles ==>
              h.response == ErrorMessage(StatusNotFound, "role " + roleName + " not found") && h.calls == []
    ensures roleName in knownRoles ==> |h.calls| >= 1 && h.calls[0] == WorkspaceRoleRules(workspace, roleName)
    // a rules failure stops before the users are asked for
    ensures roleName in knownRoles && rulesReply.Failure? ==>
              h.response == ErrorMessage(StatusInternalServerError, rulesReply.error) && |h.calls| == 1
    ensures roleName in knownRoles && rulesReply.Success? ==>
              h.calls[1..] == [WorkspaceRoleUsers(workspace, roleName)]
    ensures roleName in knownRoles && rulesReply.Success? && usersReply.Failure? ==>
              h.response == ErrorMessage(StatusInternalServerError, usersReply.error)
    ensures h.response.status == StatusOK <==> roleName in knownRoles && rulesReply.Success? && usersReply.Success?
    ensures h.response.status == StatusOK ==>
              h.response.body == RoleDetailEntity(RoleDetail(rulesReply.value.0, rulesReply.value.1, usersReply.value))
  {
    if roleName !in knownRoles then
      Handled(ErrorMessage(StatusNotFound, "role " + roleName + " not found"), st, [])
    else
      var rulesCall := WorkspaceRoleRules(workspace, roleName);
      if rulesReply.Failure? then
        Handled(ErrorMessage(StatusInternalServerError, rulesReply.error), st, [rulesCall])
      else
        var calls := [rulesCall, WorkspaceRoleUsers(workspace, roleName)];
        if usersReply.Failure? then
          Handled(ErrorMessage(StatusInternalServerError, usersReply.error), st, calls)
        else
          var (role, rules) := rulesReply.value;
          Handled(Response(StatusOK, RoleDetailEntity(RoleDetail(role, rules, usersReply.value))), st, calls)
  }

  /** DELETE /{name}/members?name=a,b: the query is always split, so an
      empty query removes the single empty name. */
  function MembersRemoveHandler(
    st: Store, workspace: string, query: string,
    removeReply: Outcome<string>): (h: Handled)
    ensures |h.calls| == 1 && h.calls[0].RemoveMembers? && h.calls[0].workspace == workspace
    ensures var names := h.calls[0].names;
            && |names| >= 1 && Join(names, Comma) == query
            && (forall i :: 0 <= i < |names| ==> Comma !in names[i])
    // membership lives in the identity store, outside the modelled state
    ensures h.store == st
    ensures removeReply.Pass? ==> h.response == SuccessResponse
    ensures removeReply.Fail? ==> h.response == ErrorMessage(StatusInternalServerError, removeReply.error)
  {
    JoinSplit(query, Comma);
    var call := RemoveMembers(workspace, Split(query, Comma));
    if removeReply.Fail? then
      Handled(ErrorMessage(StatusInternalServerError, removeReply.error), st, [call])
    else
      Handled(SuccessResponse, st, [call])
  }

  /** The reference definition of the kept namespace roles: the user's
      non-empty grants restricted to the workspace's namespaces. */
  function RestrictRoles(roles: map<string, string>, owned: set<string>): map<string, string> {
    map n | n in roles && n in owned && roles[n] != "" :: roles[n]
  }

  /** The per-namespace loop computes the restriction, whatever the order or
      repetitions of the namespace list. */
  lemma OwnedRolesIsRestriction(owned: seq<Namespace>, roles: map<string, string>)
    ensures OwnedRoles(owned, roles) == RestrictRoles(roles, Names(owned))
  {
  }

  /** Grants on namespaces outside the workspace never appear, and the view
      depends only on the set of owned namespace names. */
  lemma ProjectionIgnoresListOrder(u: User, workspace: string, a: seq<Namespace>, b: seq<Namespace>)
    requires Names(a) == Names(b)
    ensures ProjectMember(u, workspace, a) == ProjectMember(u, workspace, b)
  {
  }

  /** Projecting an already projected view again keeps its namespace roles but
      loses the workspace role, because the workspace-role map was cleared. */
  lemma ReprojectionLosesWorkspaceRole(u: User, workspace: string, owned: seq<Namespace>)
    ensures var p := ProjectMember(u, workspace, owned);
            var q := ProjectMember(p, workspace, owned);
            q.roles == p.roles && q.workspaceRole == ""
  {
  }
}
