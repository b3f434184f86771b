/** Properties of the binding protocol that relate several runs of a handler
    or runs of two handlers: the compensating delete's reply never surfaces,
    compensation and create-then-delete restore the store, the store stays
    consistent except when a still-bound child is deleted, and force matters
    only when the unbind failed. */
module BindingProperties {
  import opened Wrappers
  import opened Entities
  import opened Stores
  import opened BindingCoordinator

  /** Store contract assumed of the resource store: creation reports success
      only for a namespace that did not exist. */
  predicate FreshNamespace(st: Store, createReply: Result<Namespace, string>) {
    createReply.Success? ==> createReply.value.name !in st.namespaces
  }

  /** The same contract for CI/CD project ids. */
  predicate FreshProject(st: Store, createReply: Result<DevopsProject, string>) {
    createReply.Success? && createReply.value.projectId.Some? ==>
      createReply.value.projectId.value !in st.projects
  }

  /** The reply of the compensating delete changes neither the response nor
      the calls: the caller always sees the bind error. */
  lemma NamespaceCompensationHidesDelete(
    st: Store, workspace: string, username: string, ns: Namespace, created: Namespace,
    bindError: string, d1: Outcome<string>, d2: Outcome<string>)
    ensures var h1 := NamespaceCreateHandler(st, workspace, username, Success(ns), Success(created), Fail(bindError), d1);
            var h2 := NamespaceCreateHandler(st, workspace, username, Success(ns), Success(created), Fail(bindError), d2);
            h1.response == h2.response == ErrorMessage(StatusBadRequest, bindError) && h1.calls == h2.calls
  {
  }

  /** A successful compensating delete undoes the creation completely. */
  lemma NamespaceCompensationRestores(
    st: Store, workspace: string, username: string, ns: Namespace,
    createReply: Result<Namespace, string>, bindError: string)
    requires FreshNamespace(st, createReply)
    ensures NamespaceCreateHandler(st, workspace, username, Success(ns), createReply, Fail(bindError), Pass).store == st
  {
  }

  /** Creating a namespace in a workspace and then deleting it from that
      workspace, with every store call acknowledged, restores the store. */
  lemma NamespaceCreateThenDelete(
    st: Store, workspace: string, username: string, force: string, ns: Namespace, created: Namespace)
    requires Consistent(st) && FreshNamespace(st, Success(created))
    ensures var h1 := NamespaceCreateHandler(st, workspace, username, Success(ns), Success(created), Pass, Pass);
            var h2 := NamespaceDeleteHandler(h1.store, workspace, created.name, force, Pass, Pass);
            h1.response.status == StatusOK && h2.response == SuccessResponse && h2.store == st
  {
  }

  /** Namespace creation keeps every binding pointing at an existing namespace,
      whatever the replies. */
  lemma NamespaceCreateKeepsConsistency(
    st: Store, workspace: string, username: string, body: Result<Namespace, string>,
    createReply: Result<Namespace, string>, bindReply: Outcome<string>, deleteReply: Outcome<string>)
    requires Consistent(st) && FreshNamespace(st, createReply)
    ensures Consistent(NamespaceCreateHandler(st, workspace, username, body, createReply, bindReply, deleteReply).store)
  {
  }

  /** Namespace deletion leaves the store consistent exactly unless the
      namespace is deleted while a binding to it survives: the unbind failed
      and was forced past, or the namespace is bound to another workspace than
      the one named in the request. */
  lemma NamespaceDeleteConsistency(
    st: Store, workspace: string, namespace: string, force: string,
    unbindReply: Outcome<string>, deleteReply: Outcome<string>)
    requires Consistent(st)
    ensures var h := NamespaceDeleteHandler(st, workspace, namespace, force, unbindReply, deleteReply);
            var deleted := (unbindReply.Pass? || Forced(force)) && deleteReply.Pass?;
            var stillBound := namespace in st.namespaceOwner
                              && (unbindReply.Fail? || st.namespaceOwner[namespace] != workspace);
            Consistent(h.store) <==> !(deleted && stillBound)
  {
  }

  /** The handler never checks that the workspace in the request owns the
      namespace: deleting through another workspace, with every call
      acknowledged, reports success and leaves the owner's binding dangling. */
  lemma NamespaceDeleteThroughOtherWorkspace(
    st: Store, workspace: string, namespace: string, force: string)
    requires namespace in st.namespaceOwner && st.namespaceOwner[namespace] != workspace
    ensures var h := NamespaceDeleteHandler(st, workspace, namespace, force, Pass, Pass);
            h.response == SuccessResponse && !Consistent(h.store)
            && h.store.namespaceOwner[namespace] == st.namespaceOwner[namespace]
  {
  }

  /** When the unbind is acknowledged the force flag makes no difference. */
  lemma NamespaceForceIrrelevantAfterUnbind(
    st: Store, workspace: string, namespace: string, f1: string, f2: string, deleteReply: Outcome<string>)
    ensures NamespaceDeleteHandler(st, workspace, namespace, f1, Pass, deleteReply)
         == NamespaceDeleteHandler(st, workspace, namespace, f2, Pass, deleteReply)
  {
  }

  /** Forcing never turns a success into a failure: whatever succeeds
      unforced succeeds identically when forced. */
  lemma NamespaceForceOnlyAdds(
    st: Store, workspace: string, namespace: string, force: string,
    unbindReply: Outcome<string>, deleteReply: Outcome<string>)
    requires NamespaceDeleteHandler(st, workspace, namespace, force, unbindReply, deleteReply).response.status == StatusOK
    ensures NamespaceDeleteHandler(st, workspace, namespace, "true", unbindReply, deleteReply)
         == NamespaceDeleteHandler(st, workspace, namespace, force, unbindReply, deleteReply)
  {
  }

  /** The reply of the compensating project delete never surfaces. */
  lemma ProjectCompensationHidesDelete(
    st: Store, workspace: string, username: string, p: DevopsProject, created: DevopsProject,
    bindError: string, d1: Outcome<string>, d2: Outcome<string>)
    requires created.projectId.Some?
    ensures var h1 := DevOpsProjectCreateHandler(st, workspace, username, Success(p), Success(created), Fail(bindError), d1);
            var h2 := DevOpsProjectCreateHandler(st, workspace, username, Success(p), Success(created), Fail(bindError), d2);
            h1.response == h2.response == ErrorMessage(StatusInternalServerError, bindError) && h1.calls == h2.calls
  {
  }

  /** A successful compensating project delete undoes the creation. */
  lemma ProjectCompensationRestores(
    st: Store, workspace: string, username: string, p: DevopsProject,
    createReply: Result<DevopsProject, string>, bindError: string)
    requires FreshProject(st, createReply)
    ensures DevOpsProjectCreateHandler(st, workspace, username, Success(p), createReply, Fail(bindError), Pass).store == st
  {
  }

  /** Creating a project in a workspace and deleting it again restores the store. */
  lemma ProjectCreateThenDelete(
    st: Store, workspace: string, username: string, force: string, p: DevopsProject, created: DevopsProject)
    requires Consistent(st) && FreshProject(st, Success(created)) && created.projectId.Some?
    ensures var h1 := DevOpsProjectCreateHandler(st, workspace, username, Success(p), Success(created), Pass, Pass);
            var h2 := DevOpsProjectDeleteHandler(h1.store, workspace, created.projectId.value, force, username, Pass, Pass);
            h1.response.status == StatusOK && h2.response == SuccessResponse && h2.store == st
  {
  }

  lemma ProjectCreateKeepsConsistency(
    st: Store, workspace: string, username: string, body: Result<DevopsProject, string>,
    createReply: Result<DevopsProject, string>, bindReply: Outcome<string>, deleteReply: Outcome<string>)
    requires Consistent(st) && FreshProject(st, createReply)
    ensures Consistent(DevOpsProjectCreateHandler(st, workspace, username, body, createReply, bindReply, deleteReply).store)
  {
  }

  /** Project deletion breaks consistency exactly when the project is deleted
      while a binding to it survives (forced past a failed unbind, or bound to
      another workspace than the one in the request). */
  lemma ProjectDeleteConsistency(
    st: Store, workspace: string, id: string, force: string, username: string,
    unbindReply: Outcome<string>, deleteReply: Outcome<string>)
    requires Consistent(st)
    ensures var h := DevOpsProjectDeleteHandler(st, workspace, id, force, username, unbindReply, deleteReply);
            var deleted := (unbindReply.Pass? || Forced(force)) && deleteReply.Pass?;
            var stillBound := id in st.projectOwner && (unbindReply.Fail? || st.projectOwner[id] != workspace);
            Consistent(h.store) <==> !(deleted && stillBound)
  {
  }

  /** Deleting a project through a workspace that does not own it succeeds
      and leaves the owner's binding dangling. */
  lemma ProjectDeleteThroughOtherWorkspace(
    st: Store, workspace: string, id: string, force: string, username: string)
    requires id in st.projectOwner && st.projectOwner[id] != workspace
    ensures var h := DevOpsProjectDeleteHandler(st, workspace, id, force, username, Pass, Pass);
            h.response == SuccessResponse && !Consistent(h.store)
            && h.store.projectOwner[id] == st.projectOwner[id]
  {
  }

  lemma ProjectForceIrrelevantAfterUnbind(
    st: Store, workspace: string, id: string, f1: string, f2: string, username: string, deleteReply: Outcome<string>)
    ensures DevOpsProjectDeleteHandler(st, workspace, id, f1, username, Pass, deleteReply)
         == DevOpsProjectDeleteHandler(st, workspace, id, f2, username, Pass, deleteReply)
  {
  }
}
