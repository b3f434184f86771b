# Workspace handlers: a Dafny model

This project models the REST handlers of the workspace API in
`pkg/apis/v1alpha/workspaces/workspaces.go`. A workspace is a tenant that groups
Kubernetes namespaces, CI/CD (DevOps) projects, members and roles. The handlers
validate requests, call two external stores, and write an HTTP response. The
model covers the decisions they make:

- the compensating two-step protocol for child resources: create then bind, and
  delete the child again if the bind fails; unbind then delete, unless the unbind
  failed and `force` is not `"true"`;
- workspace-name validation and payload normalisation in create, edit and delete;
- the single-member view, which keeps only the namespace roles of namespaces the
  workspace owns, picks the one workspace role and clears every rule payload;
- the role-detail guard, which checks the fixed role list before any store call;
- the comma splitting of the `name` query in member removal and workspace listing.

Each handler is a pure function. It takes the abstract store, the request fields
and a scripted reply for every external call it may issue. It returns `Handled`,
which holds the response (status and body), the store afterwards and the sequence
of external calls issued. The trace lets contracts say "delete is never issued"
or "no store call precedes validation".

The abstract `Store` holds:

- the existing namespaces and project ids (the resource store);
- a map from each bound child to its one owning workspace;
- the workspace records keyed by name.

A failed call leaves the store unchanged. An acknowledged call has these effects:

- a create adds the child it returned;
- a bind records the child's owner as the workspace;
- a delete removes the child;
- an unbind of `(workspace, child)` removes the child's binding only if the
  child is bound to that workspace. A binding to another workspace survives;
- a workspace create or edit stores the payload the handler sent, under its
  name, not the record the store returns (the returned record is only the
  response body);
- a workspace delete removes the key of the record the lookup returned.

`Consistent` says that every binding names an existing child. `WellFormed` says
that every stored workspace has a valid name, `path == name` and no members.

Files:

- `wrappers.dfy`: `Option`, `Result` and `Outcome`.
- `text.dfy`: the name rule and Go's `strings.Split`, with both round trips.
- `entities.dfy`: entities, responses and status codes.
- `store.dfy`: the store, the call trace and store effects.
- `binding.dfy` and `binding_properties.dfy`: the namespace and DevOps handlers and their lemmas.
- `lifecycle.dfy`: workspace create, edit, delete and list.
- `membership.dfy`: member view, role detail and member removal.

Behaviours worth noting:

- Every namespace-create failure is a 400, even a store failure. DevOps failures
  after decoding are 500s.
- The DevOps "no id" check is a nil check only. A present but empty id is bound.
- Edit passes the body's `creator` through unchanged. The handler does not keep
  the creator immutable, so whether it stays immutable depends on the store
  (`EditOverwritesStampedCreator` shows the result when the store saves the payload
  as sent).
- A failed workspace lookup in delete is a 500, not a not-found.
- Member removal always splits the query. An empty query sends the single name
  `""`. Listing sends no filter for an empty query.
- The delete handlers never check that the workspace in the URL owns the child.
  Deleting a child through another workspace succeeds, but the owner's binding
  then points at a child that no longer exists
  (`NamespaceDeleteThroughOtherWorkspace`). A forced delete after a failed unbind
  has the same effect.

## Model

| member | source | states |
|---|---|---|
| BindingCoordinator.Annotate | pkg/apis/v1alpha/workspaces/workspaces.go:262-267 | The namespace sent for creation keeps its name and every other annotation, and always carries `creator = username` and `workspace = <workspace>`, overwriting client values |
| BindingCoordinator.NamespaceCreateHandler | pkg/apis/v1alpha/workspaces/workspaces.go:249-285 | A decode failure issues no call. Creation of the annotated namespace comes first. A failed create is terminal (no bind, no delete, store unchanged). A failed bind issues `DeleteNamespace` on exactly the created name and reports the bind error. If that delete fails too, the namespace is left existing, with the bindings unchanged. Success leaves the namespace existing and bound. Only the returned namespace and its binding can change. Every failure is a 400 |
| BindingCoordinator.NamespaceDeleteHandler | pkg/apis/v1alpha/workspaces/workspaces.go:169-187 | Unbind comes first. A failed unbind without `force == "true"` never issues the delete, reports the unbind error and changes nothing. Otherwise the delete is issued and its reply alone decides success or 500. The response is 200 exactly when unbind passed or was forced and the delete passed. The namespace is gone exactly when the delete was issued and acknowledged. Its binding is removed exactly when the unbind was acknowledged and the namespace was bound to this workspace. Nothing else in the store changes |
| BindingCoordinator.DevOpsProjectCreateHandler | pkg/apis/v1alpha/workspaces/workspaces.go:212-247 | A decode failure is 400 with no call. A create failure is 500 with the store's error text. A created project with a nil id is 500 with the fixed text `project create failed`. Neither issues a bind or a delete. Any present id, even the empty one, is bound. A failed bind deletes that same id and reports the bind error as 500. If that delete fails too, the project is left existing, with the bindings unchanged. Success leaves the project existing and bound. Only that project and its binding can change |
| BindingCoordinator.DevOpsProjectDeleteHandler | pkg/apis/v1alpha/workspaces/workspaces.go:189-210 | Same unbind-then-delete rule and the same store effects as for namespaces, with the delete issued under the requesting username |
| BindingProperties.NamespaceCompensationHidesDelete | pkg/apis/v1alpha/workspaces/workspaces.go:276-281 | The compensating delete's reply never changes the response or the calls: the caller always sees the bind error |
| BindingProperties.NamespaceCompensationRestores | pkg/apis/v1alpha/workspaces/workspaces.go:269-282 | If creation yields a fresh namespace, a failed bind followed by an acknowledged compensating delete leaves the store exactly as before |
| BindingProperties.NamespaceCreateThenDelete | pkg/apis/v1alpha/workspaces/workspaces.go:169-284 | Creating a namespace in a workspace and then deleting it, all calls acknowledged, restores the original store |
| BindingProperties.NamespaceCreateKeepsConsistency | pkg/apis/v1alpha/workspaces/workspaces.go:269-284 | Whatever the replies, namespace creation never leaves a binding to a missing namespace |
| BindingProperties.NamespaceDeleteConsistency | pkg/apis/v1alpha/workspaces/workspaces.go:173-186 | Deletion keeps the store consistent if and only if it does not delete a namespace whose binding survives. The binding survives when the unbind failed and was forced past, or when the namespace is bound to another workspace |
| BindingProperties.NamespaceForceIrrelevantAfterUnbind | pkg/apis/v1alpha/workspaces/workspaces.go:173-179 | When the unbind is acknowledged, the force flag makes no difference to anything |
| BindingProperties.NamespaceForceOnlyAdds | pkg/apis/v1alpha/workspaces/workspaces.go:175-186 | A delete that succeeds unforced has the identical outcome with `force == "true"` |
| BindingProperties.NamespaceDeleteThroughOtherWorkspace | pkg/apis/v1alpha/workspaces/workspaces.go:169-186 | Deleting a namespace bound to another workspace, with every call acknowledged, reports success and leaves the owner's binding dangling |
| BindingProperties.ProjectDeleteThroughOtherWorkspace | pkg/apis/v1alpha/workspaces/workspaces.go:189-209 | Deleting a project bound to another workspace, all calls acknowledged, reports success and leaves the owner's binding dangling |
| BindingProperties.ProjectCompensationHidesDelete | pkg/apis/v1alpha/workspaces/workspaces.go:236-241 | The compensating project delete's reply never surfaces: the caller sees the bind error as 500 |
| BindingProperties.ProjectCompensationRestores | pkg/apis/v1alpha/workspaces/workspaces.go:226-242 | For a fresh project id, a failed bind plus an acknowledged compensating delete restores the store |
| BindingProperties.ProjectCreateThenDelete | pkg/apis/v1alpha/workspaces/workspaces.go:189-245 | Creating a project in a workspace and then deleting it, all acknowledged, restores the original store |
| BindingProperties.ProjectCreateKeepsConsistency | pkg/apis/v1alpha/workspaces/workspaces.go:226-245 | Project creation never leaves a binding to a missing project |
| BindingProperties.ProjectDeleteConsistency | pkg/apis/v1alpha/workspaces/workspaces.go:195-209 | Project deletion breaks consistency exactly when it deletes a project whose binding survives: a forced delete after a failed unbind, or a project bound to another workspace |
| BindingProperties.ProjectForceIrrelevantAfterUnbind | pkg/apis/v1alpha/workspaces/workspaces.go:195-202 | When the project unbind is acknowledged, the force flag makes no difference |
| WorkspaceLifecycle.WorkspaceCreateHandler | pkg/apis/v1alpha/workspaces/workspaces.go:314-341 | An empty or `:`-containing name yields 400 `invalid workspace name` with no call. Otherwise exactly one create is sent with `path = name`, no members and `creator = username`. On success that record is stored. The response is 200 exactly when decode, the name and the store all succeed. Namespaces, projects and bindings never change |
| WorkspaceLifecycle.WorkspaceEditHandler | pkg/apis/v1alpha/workspaces/workspaces.go:367-399 | A body name different from the URL name yields 400 with the mismatch text before name validation and before any call. A valid edit sends `path = name`, no members and the creator as supplied. A store call is issued only for a matching, valid name. On success the sent record is stored. Namespaces, projects and bindings never change |
| WorkspaceLifecycle.DeleteWorkspaceHandler | pkg/apis/v1alpha/workspaces/workspaces.go:343-366 | An invalid name yields 400 with no call. The lookup comes first. An acknowledged delete removes exactly the record the lookup returned. Every failure leaves the store unchanged. Only the lookup and the delete are ever issued, never a call on a namespace or project |
| WorkspaceLifecycle.WorkspaceListHandler | pkg/apis/v1alpha/workspaces/workspaces.go:414-430 | The filter sent is empty exactly when the query is empty. Otherwise it is the comma pieces of the query, which join back to the query |
| WorkspaceLifecycle.CreateKeepsWellFormed | pkg/apis/v1alpha/workspaces/workspaces.go:322-332 | Create preserves the invariant that every stored workspace has a valid name, `path == name` and no members |
| WorkspaceLifecycle.EditKeepsWellFormed | pkg/apis/v1alpha/workspaces/workspaces.go:377-391 | Edit preserves the same invariant |
| WorkspaceLifecycle.DeleteKeepsWellFormed | pkg/apis/v1alpha/workspaces/workspaces.go:346-358 | Delete preserves the same invariant |
| WorkspaceLifecycle.EditWithStoredRecordIsNoop | pkg/apis/v1alpha/workspaces/workspaces.go:387-391 | Normalisation is idempotent: editing a stored workspace with its own record succeeds and leaves the store unchanged |
| WorkspaceLifecycle.EditOverwritesStampedCreator | pkg/apis/v1alpha/workspaces/workspaces.go:327-391 | Editing with the original create body stores the body's creator. The record survives unchanged exactly when that creator equals the one stamped at creation |
| Membership.OwnedRoles | pkg/apis/v1alpha/workspaces/workspaces.go:117-123 | The loop's map has as keys exactly the listed namespaces where the user's role is non-empty, each mapped to the user's original role |
| Membership.ProjectMember | pkg/apis/v1alpha/workspaces/workspaces.go:115-129 | The view keeps only non-empty roles of owned namespaces, unchanged. Its workspace role is the user's role for this workspace, or `""`. Rules, workspace rules, workspace roles and cluster rules are cleared. Identity fields are kept |
| Membership.MemberHandler | pkg/apis/v1alpha/workspaces/workspaces.go:99-131 | The user is fetched before the namespaces, each failure is 500, the store is untouched, and success returns the projected view |
| Membership.RoleHandler | pkg/apis/v1alpha/workspaces/workspaces.go:39-63 | 404 exactly when the role is not in the fixed list, then with no call. A rules failure is 500 without the users call. 200 exactly when both calls succeed, returning exactly `{role, rules, users}` |
| Membership.MembersRemoveHandler | pkg/apis/v1alpha/workspaces/workspaces.go:153-167 | One removal call with the comma pieces of the query: at least one piece, none containing a comma, and joining back to the query. The modelled store is unchanged, because it holds no membership |
| Membership.OwnedRolesIsRestriction | pkg/apis/v1alpha/workspaces/workspaces.go:117-123 | The loop equals the reference definition: the user's non-empty grants restricted to the workspace's namespace names |
| Membership.ProjectionIgnoresListOrder | pkg/apis/v1alpha/workspaces/workspaces.go:119-123 | The view depends only on the set of owned namespace names, not on their order or repetition |
| Membership.ReprojectionLosesWorkspaceRole | pkg/apis/v1alpha/workspaces/workspaces.go:115-128 | Projecting a projected view again keeps its namespace roles but loses the workspace role, because the workspace-role map was cleared |
| Text.ValidNameIsOnePiece | pkg/apis/v1alpha/workspaces/workspaces.go:322 | The name check shared by create, delete and edit (also lines 346 and 382): a name is valid exactly when it is non-empty and splitting it at `:` leaves it whole |
| Text.Split | pkg/apis/v1alpha/workspaces/workspaces.go:157 | Splitting yields at least one piece and no piece contains the separator |
| Text.JoinSplit | pkg/apis/v1alpha/workspaces/workspaces.go:157 | Joining the pieces of a split with the separator gives back the input |
| Text.SplitJoin | pkg/apis/v1alpha/workspaces/workspaces.go:419 | Splitting the join of separator-free pieces gives back the pieces |
| Text.SplitLength | pkg/apis/v1alpha/workspaces/workspaces.go:419 | A split has exactly one more piece than the input has separators |

## Left out

- Route registration (`Register`) and go-restful request and response writing: transport plumbing. A response is only a status and a body value.
- JSON body decoding: modelled only as a `Result` that either gives the entity or an error message.
- The internals of the workspace and identity stores (creation, binding, lookup, invitation): not visible. Each call is an uninterpreted step with a scripted reply. Its effect on the store is the one listed above, and each listed effect is an assumption about the unseen store. In particular:
  - Only this workspace's binding is removed by an unbind. How the real identity store treats an unbind through a non-owning workspace is not known.
  - Create and edit are taken to save the payload as sent. The record the store returns is not modelled as stored, because the store may add or change fields.
  - Delete is taken to remove the looked-up record's key.
- WorkspaceLifecycle.EditOverwritesStampedCreator: rests on the assumption that the workspace store saves the edit payload's creator unchanged. The handler itself only passes the creator through.
- WorkspaceLifecycle.DeleteWorkspaceHandler: the store-level "no cascade" (bindings kept after a workspace is deleted) follows from the chosen effect of the unseen workspace delete. The handler-level fact is only that it issues no call on a child resource.
- The store contract that a successful creation yields a new namespace or project is assumed (`FreshNamespace`, `FreshProject`) only in the lemmas that need it, not imposed on the handlers.
- The Kubernetes namespace beyond its name and annotations, and the fields of users, roles, rules, projects and workspaces beyond those the handlers read or write.
- Go's nil versus empty collections: a nil map or slice is the empty one, so "cleared" means empty.
- The fixed list of workspace roles is defined in the store package, which is not part of this model. `RoleHandler` takes it as the parameter `knownRoles`.
- Pass-through read handlers (`RolesHandler`, `MembersHandler`, `NamespaceHandler`, `DevOpsProjectHandler`, `WorkspaceDetailHandler`): they only forward a store reply or its error as 500.
- `MembersInviteHandler`: a forwarder. Its one quirk is that a decode failure is a 500.
- Membership records and the idempotence of member removal: these belong to the identity store, so the model's store does not hold members.
- Concurrency between requests: the handlers take no locks, and races are the stores' concern.
