/** The task service without a cache: what each request does to the stores and answers. Requests carry the answers
    of everything outside the model: whether a store was reachable, what a replica had seen, ids, instants. */
module ServiceModel {
  import opened Results
  import opened MachineInts
  import opened Decimal
  import opened CacheKeys
  import opened CommentModel
  import opened CommentCollection

  datatype Project = Project(id: int32, name: string, description: string, key: string, ownerId: int32,
                             createdAt: int)

  datatype Store = Store(comments: Collection, projects: seq<Project>)

  // ---------- listings ----------

  /** The rows a response is rendered from; the text is a function of them. */
  datatype Rows = CommentRows(comments: seq<Comment>) | ProjectRows(projects: seq<Project>)

  /** What a database read of a listing yields; an exception when a comment of the task cannot be read. */
  function View(store: Store, res: Resource): Result<Rows> {
    match res
    case Comments(taskId) =>
      (match OfTask(store.comments, taskId)
       case Ok(comments) => Ok(CommentRows(comments))
       case Threw => Threw)
    case Projects => Ok(ProjectRows(store.projects))
  }

  /** How listings become JSON text. For projects it includes the query's ordering and its LIMIT. */
  datatype Renderer = Renderer(comments: seq<Comment> -> string, projects: seq<Project> -> string)

  function Text(render: Renderer, rows: Rows): string {
    match rows
    case CommentRows(comments) => render.comments(comments)
    case ProjectRows(projects) => render.projects(projects)
  }

  /** The store as a replica shows it that has seen only the first `visible` projects. */
  function Lagging(store: Store, visible: nat): Store {
    store.(projects := if visible <= |store.projects| then store.projects[..visible] else store.projects)
  }

  // ---------- requests ----------

  /** What request bodies parse to; a missing or mistyped field counts as malformed, except a project's name. */
  datatype CommentBody = MalformedComment | CommentBody(author: string, text: string)

  datatype ProjectBody = MalformedProject | MissingName | ProjectBody(name: string, description: string, key: string)

  /** `getNow` and `setNow` are what the cache reads from its clock; comments are read from the primary, projects from
      a replica. */
  datatype Request =
    | GetComments(path: string, reachable: bool, getNow: int, setNow: int)
    | AddComment(path: string, userId: int32, body: CommentBody, createdAt: int, oid: string, accepted: bool)
    | AddReply(commentId: string, body: CommentBody, createdAt: int, updatedAt: int, lookupReachable: bool,
               accepted: bool)
    | GetProjects(visible: nat, reachable: bool, getNow: int, setNow: int)
    | CreateProject(userId: int32, form: ProjectBody, createdAt: int, newId: int32, accepted: bool)

  /** `Failed` is an exception that leaves the handler. */
  datatype Response =
    | Listing(text: string)
    | CommentCreated
    | ProjectCreated(project: Project)
    | BadRequest
    | Failed

  function NewComment(req: Request, taskId: int32): Comment
    requires req.AddComment? && req.body.CommentBody?
  {
    Comment("", taskId, req.body.author, req.userId, req.body.text, req.createdAt, None, [])
  }

  function NewReply(req: Request): Reply
    requires req.AddReply? && req.body.CommentBody?
  {
    Reply(req.body.author, req.body.text, req.createdAt)
  }

  function NewProject(req: Request): Project
    requires req.CreateProject? && req.form.ProjectBody?
  {
    Project(req.newId, req.form.name, req.form.description, req.form.key, req.userId, req.createdAt)
  }

  /** The listing a request asks for, unless it is no read or its path is no number. */
  function Wanted(req: Request): Option<Resource> {
    match req
    case GetComments(path, _, _, _) => if Stoi(path).Ok? then Some(Comments(Stoi(path).value)) else None
    case GetProjects(_, _, _, _) => Some(Projects)
    case _ => None
  }

  /** The rows the database gives to a read. */
  function RowsRead(store: Store, req: Request): Result<Rows>
    requires Wanted(req).Some?
  {
    if !req.reachable then Threw
    else View(if req.GetProjects? then Lagging(store, req.visible) else store, Wanted(req).value)
  }

  function Listed(render: Renderer, rows: Result<Rows>): Response {
    match rows
    case Ok(read) => Listing(Text(render, read))
    case Threw => Failed
  }

  /** Whether a request writes, and its write goes through. */
  predicate Succeeds(store: Store, req: Request) {
    match req
    case AddComment(path, _, body, _, _, accepted) => Stoi(path).Ok? && body.CommentBody? && accepted
    case AddReply(commentId, body, _, _, _, accepted) =>
      && body.CommentBody? && ParseOid(commentId).Ok? && accepted
      && AcceptsReply(store.comments, ParseOid(commentId).value)
    case CreateProject(_, form, _, _, accepted) => form.ProjectBody? && accepted
    case _ => false
  }

  function Applied(store: Store, req: Request): Store {
    if !Succeeds(store, req) then store
    else
      match req
      case AddComment(path, _, _, _, oid, _) =>
        store.(comments := Inserted(store.comments, oid, NewComment(req, Stoi(path).value)))
      case AddReply(commentId, _, _, updatedAt, _, _) =>
        store.(comments := Replied(store.comments, ParseOid(commentId).value, NewReply(req), updatedAt))
      case CreateProject(_, _, _, _, _) => store.(projects := store.projects + [NewProject(req)])
      case _ => store
  }

  /** The answer to a request served straight from the stores. */
  function Respond(render: Renderer, store: Store, req: Request): Response {
    match req
    case GetComments(path, _, _, _) => if Stoi(path).Threw? then Failed else Listed(render, RowsRead(store, req))
    case GetProjects(_, _, _, _) => Listed(render, RowsRead(store, req))
    case CreateProject(_, form, _, _, _) =>
      if form.MissingName? then BadRequest
      else if Succeeds(store, req) then ProjectCreated(NewProject(req)) else Failed
    case _ => if Succeeds(store, req) then CommentCreated else Failed
  }

  function StoreAfter(store: Store, reqs: seq<Request>): Store {
    if reqs == [] then store
    else Applied(StoreAfter(store, reqs[..|reqs| - 1]), reqs[|reqs| - 1])
  }

  /** The responses of a service that has no cache. */
  function CacheFreeResponses(render: Renderer, store: Store, reqs: seq<Request>): (responses: seq<Response>)
    ensures |responses| == |reqs|
  {
    if reqs == [] then []
    else
      var pre, req := reqs[..|reqs| - 1], reqs[|reqs| - 1];
      CacheFreeResponses(render, store, pre) + [Respond(render, StoreAfter(store, pre), req)]
  }
}
