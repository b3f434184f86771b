/** The abstract state of the two external stores, the calls a handler
    issues to them, and what a handler produces. */
module Stores {
  import opened Entities

  /** The resource store (existing namespaces and project ids) together with
      the identity store's associations and workspace records. A child maps
      to the one workspace it is bound to. */
  datatype Store = Store(
    namespaces: set<string>,
    projects: set<string>,
    namespaceOwner: map<string, string>,
    projectOwner: map<string, string>,
    workspaces: map<string, Workspace>)

  /** One call into an external store, with the arguments it was given. */
  datatype Call =
    | CreateNamespace(payload: Namespace)
    | BindingNamespace(workspace: string, namespace: string)
    | UnBindNamespace(workspace: string, namespace: string)
    | DeleteNamespace(namespace: string)
    | CreateDevopsProject(username: string, project: DevopsProject)
    | BindingDevopsProject(workspace: string, projectId: string)
    | UnBindDevopsProject(workspace: string, projectId: string)
    | DeleteDevopsProject(username: string, projectId: string)
    | CreateWorkspace(entity: Workspace)
    | EditWorkspace(entity: Workspace)
    | WorkspaceDetail(name: string)
    | DeleteWorkspace(entity: Workspace)
    | ListWorkspaces(names: seq<string>)
    | GetUser(username: string)
    | WorkspaceNamespaces(workspace: string)
    | WorkspaceRoleRules(workspace: string, role: string)
    | WorkspaceRoleUsers(workspace: string, role: string)
    | RemoveMembers(workspace: string, names: seq<string>)

  /** The result of one request: the response written, the store afterwards,
      and the external calls issued, in order. */
  datatype Handled = Handled(response: Response, store: Store, calls: seq<Call>)

  /** Every binding refers to a child that exists in the resource store. */
  predicate Consistent(st: Store) {
    && st.namespaceOwner.Keys <= st.namespaces
    && st.projectOwner.Keys <= st.projects
  }

  // Effects of acknowledged calls on the store.

  function WithNamespace(st: Store, name: string): Store {
    st.(namespaces := st.namespaces + {name})
  }

  function WithoutNamespace(st: Store, name: string): Store {
    st.(namespaces := st.namespaces - {name})
  }

  function WithNamespaceOwner(st: Store, name: string, workspace: string): Store {
    st.(namespaceOwner := st.namespaceOwner[name := workspace])
  }

  /** An acknowledged unbind drops the association of `name` with `workspace`;
      a namespace bound to another workspace keeps its binding. */
  function WithoutNamespaceBinding(st: Store, workspace: string, name: string): Store {
    if name in st.namespaceOwner && st.namespaceOwner[name] == workspace
    then st.(namespaceOwner := st.namespaceOwner - {name})
    else st
  }

  function WithProject(st: Store, id: string): Store {
    st.(projects := st.projects + {id})
  }

  function WithoutProject(st: Store, id: string): Store {
    st.(projects := st.projects - {id})
  }

  function WithProjectOwner(st: Store, id: string, workspace: string): Store {
    st.(projectOwner := st.projectOwner[id := workspace])
  }

  /** An acknowledged unbind drops the association of `id` with `workspace`
      only. */
  function WithoutProjectBinding(st: Store, workspace: string, id: string): Store {
    if id in st.projectOwner && st.projectOwner[id] == workspace
    then st.(projectOwner := st.projectOwner - {id})
    else st
  }

  function WithWorkspace(st: Store, w: Workspace): Store {
    st.(workspaces := st.workspaces[w.name := w])
  }

  function WithoutWorkspace(st: Store, name: string): Store {
    st.(workspaces := st.workspaces - {name})
  }
}
