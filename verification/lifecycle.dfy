/** The workspace entity's own handlers: create, edit, delete and list, with
    the name rule checked before any store is touched and the payload
    normalised (path mirrors name, members cleared) before it is persisted. */
module WorkspaceLifecycle {
  import opened Wrappers
  import opened Text
  import opened Entities
  import opened Stores

  const InvalidNameMessage := "invalid workspace name"

  /** The text of the error written when the body renames the workspace. */
  function MismatchMessage(bodyName: string, urlName: string): string {
    "the name of workspace (" + bodyName + ") does not match the name on the URL (" + urlName + ")"
  }

  /** A persisted workspace record: keyed by its valid name, path mirroring
      the name, no embedded members. */
  predicate Normalized(key: string, w: Workspace) {
    w.name == key && ValidWorkspaceName(key) && w.path == key && w.members == []
  }

  /** Every workspace record in the store is normalised. */
  predicate WellFormed(st: Store) {
    forall n :: n in st.workspaces ==> Normalized(n, st.workspaces[n])
  }

  /** POST the workspace collection. */
  function WorkspaceCreateHandler(
    st: Store, username: string,
    body: Result<Workspace, string>,
    createReply: Result<Workspace, string>): (h: Handled)
    ensures body.Failure? ==> h == Handled(ErrorMessage(StatusBadRequest, body.error), st, [])
    // an invalid name is rejected before any store call
    ensures body.Success? && !ValidWorkspaceName(body.value.name) ==>
              h == Handled(ErrorMessage(StatusBadRequest, InvalidNameMessage), st, [])
    // a valid name leads to exactly one create call with the normalised payload
    ensures body.Success? && ValidWorkspaceName(body.value.name) ==>
              var w := body.value;
              && |h.calls| == 1 && h.calls[0].CreateWorkspace?
              && var sent := h.calls[0].entity;
              && Normalized(w.name, sent) && sent.creator == username && sent.description == w.description
              && (createReply.Failure? ==>
                    h.response == ErrorMessage(StatusInternalServerError, createReply.error) && h.store == st)
              && (createReply.Success? ==>
                    h.response == Response(StatusOK, WorkspaceEntity(createReply.value))
                    && h.store.workspaces == st.workspaces[w.name := sent])
    ensures h.response.status == StatusOK <==>
              body.Success? && ValidWorkspaceName(body.value.name) && createReply.Success?
    // only the workspace records can change
    ensures h.store.(workspaces := st.workspaces) == st
  {
    if body.Failure? then Handled(ErrorMessage(StatusBadRequest, body.error), st, [])
    else if !ValidWorkspaceName(body.value.name) then
      Handled(ErrorMessage(StatusBadRequest, InvalidNameMessage), st, [])
    else
      var w := body.value;
      var payload := w.(path := w.name, members := [], creator := username);
      if createReply.Failure? then
        Handled(ErrorMessage(StatusInternalServerError, createReply.error), st, [CreateWorkspace(payload)])
      else
        Handled(Response(StatusOK, WorkspaceEntity(createReply.value)), WithWorkspace(st, payload), [CreateWorkspace(payload)])
  }

  /** PUT /{name}. */
  function WorkspaceEditHandler(
    st: Store, name: string,
    body: Result<Workspace, string>,
    editReply: Result<Workspace, string>): (h: Handled)
    ensures body.Failure? ==> h == Handled(ErrorMessage(StatusBadRequest, body.error), st, [])
    // a renaming body is refused first, whether or not either name is valid
    ensures body.Success? && body.value.name != name ==>
              h == Handled(Response(StatusBadRequest, ErrorText(MismatchMessage(body.value.name, name))), st, [])
    ensures body.Success? && body.value.name == name && !ValidWorkspaceName(name) ==>
              h == Handled(ErrorMessage(StatusBadRequest, InvalidNameMessage), st, [])
    // the creator is passed through as supplied; path and members are normalised
    ensures body.Success? && body.value.name == name && ValidWorkspaceName(name) ==>
              var w := body.value;
              && |h.calls| == 1 && h.calls[0].EditWorkspace?
              && var sent := h.calls[0].entity;
              && Normalized(name, sent) && sent.creator == w.creator && sent.description == w.description
              && (editReply.Failure? ==>
                    h.response == ErrorMessage(StatusInternalServerError, editReply.error) && h.store == st)
              && (editReply.Success? ==>
                    h.response == Response(StatusOK, WorkspaceEntity(editReply.value))
                    && h.store.workspaces == st.workspaces[name := sent])
    ensures h.calls != [] ==> body.Success? && body.value.name == name && ValidWorkspaceName(name)
    ensures h.store.(workspaces := st.workspaces) == st
  {
    if body.Failure? then Handled(ErrorMessage(StatusBadRequest, body.error), st, [])
    else if name != body.value.name then
      Handled(Response(StatusBadRequest, ErrorText(MismatchMessage(body.value.name, name))), st, [])
    else if !ValidWorkspaceName(body.value.name) then
      Handled(ErrorMessage(StatusBadRequest, InvalidNameMessage), st, [])
    else
      var w := body.value;
      var payload := w.(path := w.name, members := []);
      if editReply.Failure? then
        Handled(ErrorMessage(StatusInternalServerError, editReply.error), st, [EditWorkspace(payload)])
      else
        Handled(Response(StatusOK, WorkspaceEntity(editReply.value)), WithWorkspace(st, payload), [EditWorkspace(payload)])
  }

  /** DELETE /{name}: look the workspace up, then delete it. Bound children
      are left alone. */
  function DeleteWorkspaceHandler(
    st: Store, name: string,
    detailReply: Result<Workspace, string>,
    deleteReply: Outcome<string>): (h: Handled)
    ensures !ValidWorkspaceName(name) ==> h == Handled(ErrorMessage(StatusBadRequest, InvalidNameMessage), st, [])
    ensures ValidWorkspaceName(name) ==> |h.calls| >= 1 && h.calls[0] == WorkspaceDetail(name)
    // the delete is issued only on the record the lookup returned
    ensures ValidWorkspaceName(name) && detailReply.Failure? ==>
              h == Handled(ErrorMessage(StatusInternalServerError, detailReply.error), st, [h.calls[0]])
    ensures ValidWorkspaceName(name) && detailReply.Success? ==>
              && h.calls[1..] == [DeleteWorkspace(detailReply.value)]
              && (deleteReply.Fail? ==> h.response == ErrorMessage(StatusInternalServerError, deleteReply.error))
              && (deleteReply.Pass? ==> h.response == SuccessResponse)
    // an acknowledged delete removes exactly the record the lookup returned
    ensures ValidWorkspaceName(name) && detailReply.Success? && deleteReply.Pass? ==>
              h.store.workspaces == st.workspaces - {detailReply.value.name}
    // every failure leaves the store as it was
    ensures h.response.status != StatusOK ==> h.store == st
    ensures h.response.status == StatusOK <==> ValidWorkspaceName(name) && detailReply.Success? && deleteReply.Pass?
    // no child resource is ever touched: only the lookup and the delete are issued
    ensures forall i :: 0 <= i < |h.calls| ==> h.calls[i].WorkspaceDetail? || h.calls[i].DeleteWorkspace?
    ensures h.store.(workspaces := st.workspaces) == st
  {
    if !ValidWorkspaceName(name) then Handled(ErrorMessage(StatusBadRequest, InvalidNameMessage), st, [])
    else
      var detail := WorkspaceDetail(name);
      if detailReply.Failure? then
        Handled(ErrorMessage(StatusInternalServerError, detailReply.error), st, [detail])
      else
        var w := detailReply.value;
        if deleteReply.Fail? then
          Handled(ErrorMessage(StatusInternalServerError, deleteReply.error), st, [detail, DeleteWorkspace(w)])
        else
          Handled(SuccessResponse, WithoutWorkspace(st, w.name), [detail, DeleteWorkspace(w)])
  }

  /** GET the workspace collection, optionally filtered by a comma list of
      names; an empty query means no filter at all. */
  function WorkspaceListHandler(
    st: Store, query: string,
    listReply: Result<seq<Workspace>, string>): (h: Handled)
    ensures |h.calls| == 1 && h.calls[0].ListWorkspaces? && h.store == st
    ensures var names := h.calls[0].names;
            && (names == [] <==> query == "")
            && (query != "" ==> |names| >= 1 && Join(names, Comma) == query)
            && (forall i :: 0 <= i < |names| ==> Comma !in names[i])
    ensures listReply.Failure? ==> h.response == ErrorMessage(StatusInternalServerError, listReply.error)
    ensures listReply.Success? ==> h.response == Response(StatusOK, WorkspaceList(listReply.value))
  {
    var names := if query != "" then Split(query, Comma) else [];
    JoinSplit(query, Comma);
    if listReply.Failure? then
      Handled(ErrorMessage(StatusInternalServerError, listReply.error), st, [ListWorkspaces(names)])
    else
      Handled(Response(StatusOK, WorkspaceList(listReply.value)), st, [ListWorkspaces(names)])
  }

  lemma CreateKeepsWellFormed(
    st: Store, username: string, body: Result<Workspace, string>, createReply: Result<Workspace, string>)
    requires WellFormed(st)
    ensures WellFormed(WorkspaceCreateHandler(st, username, body, createReply).store)
  {
  }

  lemma EditKeepsWellFormed(
    st: Store, name: string, body: Result<Workspace, string>, editReply: Result<Workspace, string>)
    requires WellFormed(st)
    ensures WellFormed(WorkspaceEditHandler(st, name, body, editReply).store)
  {
  }

  lemma DeleteKeepsWellFormed(
    st: Store, name: string, detailReply: Result<Workspace, string>, deleteReply: Outcome<string>)
    requires WellFormed(st)
    ensures WellFormed(DeleteWorkspaceHandler(st, name, detailReply, deleteReply).store)
  {
  }

  /** Normalisation is idempotent: editing a stored record with itself is a
      successful no-op on the store. */
  lemma EditWithStoredRecordIsNoop(st: Store, name: string, edited: Workspace)
    requires WellFormed(st) && name in st.workspaces
    ensures var h := WorkspaceEditHandler(st, name, Success(st.workspaces[name]), Success(edited));
            h.response.status == StatusOK && h.store == st
  {
  }

  /** Editing with the original create body writes that body's creator over
      the one stamped at creation: the record is unchanged exactly when the
      two agree, so the edit path does not keep the creator immutable. */
  lemma EditOverwritesStampedCreator(
    st: Store, username: string, w: Workspace, created: Workspace, edited: Workspace)
    requires ValidWorkspaceName(w.name)
    ensures var h1 := WorkspaceCreateHandler(st, username, Success(w), Success(created));
            var h2 := WorkspaceEditHandler(h1.store, w.name, Success(w), Success(edited));
            h2.store.workspaces[w.name].creator == w.creator
            && (h2.store.workspaces[w.name] == h1.store.workspaces[w.name] <==> w.creator == username)
  {
  }
}
