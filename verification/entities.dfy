/** The entities the workspace handlers exchange with their clients and
    with the two external stores, and the HTTP responses they write. */
module Entities {
  import opened Wrappers

  const StatusOK := 200
  const StatusBadRequest := 400
  const StatusNotFound := 404
  const StatusInternalServerError := 500

  /** Annotation keys stamped on a namespace created through a workspace. */
  const CreatorAnnotation := "creator"
  const WorkspaceAnnotation := "workspace"

  /** A Kubernetes namespace, reduced to its name and annotations
      (a nil annotation map is the empty map). */
  datatype Namespace = Namespace(name: string, annotations: map<string, string>)

  /** A CI/CD project; its id may be nil. */
  datatype DevopsProject = DevopsProject(projectId: Option<string>, name: string, description: string)

  /** The workspace entity; a nil member list is the empty sequence. */
  datatype Workspace = Workspace(name: string, path: string, creator: string, description: string, members: seq<string>)

  /** An access rule, kept opaque. */
  datatype Rule = Rule(verbs: seq<string>, resources: seq<string>)

  /** A workspace role as returned by the identity store. */
  datatype Role = Role(name: string)

  /** A user with its three kinds of grants: per-namespace role names,
      per-workspace role names, and the rule payloads behind them. */
  datatype User = User(
    username: string,
    email: string,
    roles: map<string, string>,
    workspaceRole: string,
    workspaceRoles: map<string, string>,
    rules: map<string, seq<Rule>>,
    workspaceRules: map<string, seq<Rule>>,
    clusterRules: seq<Rule>)

  /** The composite answer of the role-detail request. */
  datatype RoleDetail = RoleDetail(role: Role, rules: seq<Rule>, users: seq<User>)

  /** What a handler writes as the response entity. */
  datatype Body =
    | Message(text: string)          // a message response
    | ErrorText(text: string)        // a plain error written with WriteError
    | NamespaceEntity(namespace: Namespace)
    | ProjectEntity(project: DevopsProject)
    | WorkspaceEntity(workspace: Workspace)
    | WorkspaceList(list: seq<Workspace>)
    | UserEntity(user: User)
    | RoleDetailEntity(detail: RoleDetail)

  datatype Response = Response(status: int, body: Body)

  /** A failure response carrying `text` as its message. */
  function ErrorMessage(status: int, text: string): Response {
    Response(status, Message(text))
  }

  /** The fixed acknowledgement of a successful mutation. */
  const SuccessResponse := Response(StatusOK, Message("success"))

  /** Go's map read with zero-value default: a missing key reads as "". */
  function Lookup(m: map<string, string>, key: string): string {
    if key in m then m[key] else ""
  }
}
