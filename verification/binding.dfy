/** The compensating two-step protocol of the namespace and DevOps-project
    handlers: create the child then bind it (deleting it again if the bind
    fails), or unbind the child then delete it (unless the unbind failed and
    the caller did not force). Every external call is given a scripted reply. */
module BindingCoordinator {
  import opened Wrappers
  import opened Entities
  import opened Stores

  /** The force query flag overrides an unbind failure only when it is
      exactly "true". */
  predicate Forced(force: string) {
    force == "true"
  }

  /** The payload sent to the resource store: the client's namespace with the
      creator and workspace annotations stamped over whatever it carried. */
  function Annotate(ns: Namespace, username: string, workspace: string): (r: Namespace)
    ensures r.name == ns.name
    ensures r.annotations.Keys == ns.annotations.Keys + {CreatorAnnotation, WorkspaceAnnotation}
    ensures r.annotations[CreatorAnnotation] == username
    ensures r.annotations[WorkspaceAnnotation] == workspace
    ensures forall k :: k in ns.annotations && k != CreatorAnnotation && k != WorkspaceAnnotation ==>
              r.annotations[k] == ns.annotations[k]
  {
    ns.(annotations := ns.annotations[CreatorAnnotation := username][WorkspaceAnnotation := workspace])
  }

  /** POST /{name}/namespaces. Every failure is reported as a bad request. */
  function NamespaceCreateHandler(
    st: Store, workspace: string, username: string,
    body: Result<Namespace, string>,
    createReply: Result<Namespace, string>,
    bindReply: Outcome<string>,
    deleteReply: Outcome<string>): (h: Handled)
    // an undecodable body touches no store
    ensures body.Failure? ==> h == Handled(ErrorMessage(StatusBadRequest, body.error), st, [])
    // otherwise creation of the annotated namespace comes first
    ensures body.Success? ==>
              |h.calls| >= 1 && h.calls[0] == CreateNamespace(Annotate(body.value, username, workspace))
    // a failed creation is terminal: no bind, no delete, nothing changed
    ensures body.Success? && createReply.Failure? ==>
              h.calls == [h.calls[0]] && h.store == st
              && h.response == ErrorMessage(StatusBadRequest, createReply.error)
    // a failed bind deletes exactly the created namespace and reports the bind error;
    // if that delete fails too, the namespace is left existing and unbound
    ensures body.Success? && createReply.Success? && bindReply.Fail? ==>
              var name := createReply.value.name;
              && h.calls[1..] == [BindingNamespace(workspace, name), DeleteNamespace(name)]
              && h.response == ErrorMessage(StatusBadRequest, bindReply.error)
              && h.store.namespaceOwner == st.namespaceOwner
              && (name in h.store.namespaces <==> deleteReply.Fail?)
    // both steps succeeded: the namespace exists and is bound to the workspace
    ensures body.Success? && createReply.Success? && bindReply.Pass? ==>
              var name := createReply.value.name;
              && h.calls[1..] == [BindingNamespace(workspace, name)]
              && h.response == Response(StatusOK, NamespaceEntity(createReply.value))
              && name in h.store.namespaces
              && name in h.store.namespaceOwner && h.store.namespaceOwner[name] == workspace
    ensures h.response.status == StatusOK || h.response.status == StatusBadRequest
    // only the created namespace and its binding can change
    ensures body.Success? && createReply.Success? ==>
              var name := createReply.value.name;
              && h.store.namespaces - {name} == st.namespaces - {name}
              && h.store.namespaceOwner - {name} == st.namespaceOwner - {name}
    ensures h.store.(namespaces := st.namespaces, namespaceOwner := st.namespaceOwner) == st
  {
    if body.Failure? then Handled(ErrorMessage(StatusBadRequest, body.error), st, [])
    else
      var create := CreateNamespace(Annotate(body.value, username, workspace));
      if createReply.Failure? then Handled(ErrorMessage(StatusBadRequest, createReply.error), st, [create])
      else
        var name := createReply.value.name;
        var created := WithNamespace(st, name);
        var bind := BindingNamespace(workspace, name);
        if bindReply.Fail? then
          var compensated := if deleteReply.Pass? then WithoutNamespace(created, name) else created;
          Handled(ErrorMessage(StatusBadRequest, bindReply.error), compensated, [create, bind, DeleteNamespace(name)])
        else
          Handled(Response(StatusOK, NamespaceEntity(createReply.value)), WithNamespaceOwner(created, name, workspace), [create, bind])
  }

  /** DELETE /{name}/namespaces/{namespace}. */
  function NamespaceDeleteHandler(
    st: Store, workspace: string, namespace: string, force: string,
    unbindReply: Outcome<string>,
    deleteReply: Outcome<string>): (h: Handled)
    ensures |h.calls| >= 1 && h.calls[0] == UnBindNamespace(workspace, namespace)
    // a failed unbind without force stops before the delete and changes nothing
    ensures unbindReply.Fail? && !Forced(force) ==>
              h == Handled(ErrorMessage(StatusInternalServerError, unbindReply.error), st, [h.calls[0]])
    // otherwise the delete is issued and its reply alone decides the response
    ensures unbindReply.Pass? || Forced(force) ==>
              && h.calls == [h.calls[0], DeleteNamespace(namespace)]
              && (deleteReply.Pass? ==> h.response == SuccessResponse)
              && (deleteReply.Fail? ==> h.response == ErrorMessage(StatusInternalServerError, deleteReply.error))
    ensures h.response.status == StatusOK <==> (unbindReply.Pass? || Forced(force)) && deleteReply.Pass?
    // the namespace disappears exactly when the delete was issued and acknowledged
    ensures h.store.namespaces - {namespace} == st.namespaces - {namespace}
    ensures namespace in h.store.namespaces <==>
              namespace in st.namespaces && !((unbindReply.Pass? || Forced(force)) && deleteReply.Pass?)
    // an acknowledged unbind removes this workspace's binding only; a binding
    // to another workspace survives, whatever happens to the namespace
    ensures h.store.namespaceOwner - {namespace} == st.namespaceOwner - {namespace}
    ensures namespace in h.store.namespaceOwner <==>
              namespace in st.namespaceOwner && !(unbindReply.Pass? && st.namespaceOwner[namespace] == workspace)
    ensures namespace in h.store.namespaceOwner ==> h.store.namespaceOwner[namespace] == st.namespaceOwner[namespace]
    ensures h.store.(namespaces := st.namespaces, namespaceOwner := st.namespaceOwner) == st
  {
    var unbind := UnBindNamespace(workspace, namespace);
    if unbindReply.Fail? && !Forced(force) then
      Handled(ErrorMessage(StatusInternalServerError, unbindReply.error), st, [unbind])
    else
      var unbound := if unbindReply.Pass? then WithoutNamespaceBinding(st, workspace, namespace) else st;
      var calls := [unbind, DeleteNamespace(namespace)];
      if deleteReply.Fail? then
        Handled(ErrorMessage(StatusInternalServerError, deleteReply.error), unbound, calls)
      else
        Handled(SuccessResponse, WithoutNamespace(unbound, namespace), calls)
  }

  /** POST /{name}/devops. Every failure after decoding is a server error. */
  function DevOpsProjectCreateHandler(
    st: Store, workspace: string, username: string,
    body: Result<DevopsProject, string>,
    createReply: Result<DevopsProject, string>,
    bindReply: Outcome<string>,
    deleteReply: Outcome<string>): (h: Handled)
    ensures body.Failure? ==> h == Handled(ErrorMessage(StatusBadRequest, body.error), st, [])
    ensures body.Success? ==> |h.calls| >= 1 && h.calls[0] == CreateDevopsProject(username, body.value)
    ensures body.Success? && createReply.Failure? ==>
              h == Handled(ErrorMessage(StatusInternalServerError, createReply.error), st, [h.calls[0]])
    // a project created without an id is a failure and is never bound
    ensures body.Success? && createReply.Success? && createReply.value.projectId.None? ==>
              h == Handled(ErrorMessage(StatusInternalServerError, "project create failed"), st, [h.calls[0]])
    // any present id, even the empty one, is bound; a failed bind deletes that same id
    ensures body.Success? && createReply.Success? && createReply.value.projectId.Some? && bindReply.Fail? ==>
              var id := createReply.value.projectId.value;
              && h.calls[1..] == [BindingDevopsProject(workspace, id), DeleteDevopsProject(username, id)]
              && h.response == ErrorMessage(StatusInternalServerError, bindReply.error)
              && h.store.projectOwner == st.projectOwner
              && (id in h.store.projects <==> deleteReply.Fail?)
    ensures body.Success? && createReply.Success? && createReply.value.projectId.Some? && bindReply.Pass? ==>
              var id := createReply.value.projectId.value;
              && h.calls[1..] == [BindingDevopsProject(workspace, id)]
              && h.response == Response(StatusOK, ProjectEntity(createReply.value))
              && id in h.store.projects
              && id in h.store.projectOwner && h.store.projectOwner[id] == workspace
    ensures h.response.status in {StatusOK, StatusBadRequest, StatusInternalServerError}
    // only the created project and its binding can change
    ensures body.Success? && createReply.Success? && createReply.value.projectId.Some? ==>
              var id := createReply.value.projectId.value;
              && h.store.projects - {id} == st.projects - {id}
              && h.store.projectOwner - {id} == st.projectOwner - {id}
    ensures h.store.(projects := st.projects, projectOwner := st.projectOwner) == st
  {
    if body.Failure? then Handled(ErrorMessage(StatusBadRequest, body.error), st, [])
    else
      var create := CreateDevopsProject(username, body.value);
      if createReply.Failure? then Handled(ErrorMessage(StatusInternalServerError, createReply.error), st, [create])
      else
        var project := createReply.value;
        if project.projectId.None? then
          Handled(ErrorMessage(StatusInternalServerError, "project create failed"), st, [create])
        else
          var id := project.projectId.value;
          var created := WithProject(st, id);
          var bind := BindingDevopsProject(workspace, id);
          if bindReply.Fail? then
            var compensated := if deleteReply.Pass? then WithoutProject(created, id) else created;
            Handled(ErrorMessage(StatusInternalServerError, bindReply.error), compensated, [create, bind, DeleteDevopsProject(username, id)])
          else
            Handled(Response(StatusOK, ProjectEntity(project)), WithProjectOwner(created, id, workspace), [create, bind])
  }

  /** DELETE /{name}/devops/{id}. */
  function DevOpsProjectDeleteHandler(
    st: Store, workspace: string, id: string, force: string, username: string,
    unbindReply: Outcome<string>,
    deleteReply: Outcome<string>): (h: Handled)
    ensures |h.calls| >= 1 && h.calls[0] == UnBindDevopsProject(workspace, id)
    ensures unbindReply.Fail? && !Forced(force) ==>
              h == Handled(ErrorMessage(StatusInternalServerError, unbindReply.error), st, [h.calls[0]])
    ensures unbindReply.Pass? || Forced(force) ==>
              && h.calls == [h.calls[0], DeleteDevopsProject(username, id)]
              && (deleteReply.Pass? ==> h.response == SuccessResponse)
              && (deleteReply.Fail? ==> h.response == ErrorMessage(StatusInternalServerError, deleteReply.error))
    ensures h.response.status == StatusOK <==> (unbindReply.Pass? || Forced(force)) && deleteReply.Pass?
    ensures h.store.projects - {id} == st.projects - {id}
    ensures id in h.store.projects <==>
              id in st.projects && !((unbindReply.Pass? || Forced(force)) && deleteReply.Pass?)
    ensures h.store.projectOwner - {id} == st.projectOwner - {id}
    ensures id in h.store.projectOwner <==>
              id in st.projectOwner && !(unbindReply.Pass? && st.projectOwner[id] == workspace)
    ensures id in h.store.projectOwner ==> h.store.projectOwner[id] == st.projectOwner[id]
    ensures h.store.(projects := st.projects, projectOwner := st.projectOwner) == st
  {
    var unbind := UnBindDevopsProject(workspace, id);
    if unbindReply.Fail? && !Forced(force) then
      Handled(ErrorMessage(StatusInternalServerError, unbindReply.error), st, [unbind])
    else
      var unbound := if unbindReply.Pass? then WithoutProjectBinding(st, workspace, id) else st;
      var calls := [unbind, DeleteDevopsProject(username, id)];
      if deleteReply.Fail? then
        Handled(ErrorMessage(StatusInternalServerError, deleteReply.error), unbound, calls)
      else
        Handled(SuccessResponse, WithoutProject(unbound, id), calls)
  }
}
