/** The cached handlers, run one request at a time, on any stores. The cache holds, under text keys and rendered, what
    `HeldListings` says is held, and every response is the one it says. */
module TaskService {
  import opened Results
  import opened MachineInts
  import opened Decimal
  import opened CacheKeys
  import opened CacheModel
  import opened CacheManager
  import opened CommentCollection
  import opened MongoStorage
  import opened ServiceModel
  import opened HeldListings

  class PostgresStorage {
    var projects: seq<Project>

    constructor (projects: seq<Project>)
      ensures this.projects == projects
    {
      this.projects := projects;
    }

    method CreateProject(project: Project, accepted: bool) returns (created: Result<Project>)
      modifies this
      ensures created == if accepted then Ok(project) else Threw
      ensures projects == if accepted then old(projects) + [project] else old(projects)
    {
      if !accepted {
        return Threw;
      }
      projects := projects + [project];
      return Ok(project);
    }

    /** The read goes to a replica that has seen the first `visible` projects. */
    method GetAllProjects(visible: nat, reachable: bool) returns (rows: Result<seq<Project>>)
      ensures rows == if !reachable then Threw
                      else if visible <= |projects| then Ok(projects[..visible]) else Ok(projects)
    {
      if !reachable {
        return Threw;
      }
      return Ok(if visible <= |projects| then projects[..visible] else projects);
    }
  }

  /** The cache holds exactly the listings that are held, each under its key, rendered, with its expiry. */
  ghost predicate Represents(render: Renderer, cache: Cache, held: Holdings) {
    forall res ::
      && (KeyOf(res) in cache <==> res in held)
      && (res in held ==> cache[KeyOf(res)] == CacheEntry(Text(render, held[res].rows), held[res].expiresAt))
  }

  lemma DropRepresents(render: Renderer, cache: Cache, held: Holdings, res: Resource)
    requires Represents(render, cache, held)
    ensures Represents(render, cache - {KeyOf(res)}, held - {res})
  {
    forall other
      ensures KeyOf(other) == KeyOf(res) ==> other == res
    {
      KeyOfInjective(other, res);
    }
  }

  /** A `Get` answers by what is held, and drops a listing that has expired. */
  lemma GetRepresents(render: Renderer, cache: Cache, held: Holdings, res: Resource, now: int)
    requires Represents(render, cache, held)
    ensures var (after, value) := Step(Lazy, cache, CacheModel.Get(KeyOf(res), now));
            if res in held && now <= held[res].expiresAt
            then after == cache && value == Some(Text(render, held[res].rows))
            else value == None && Represents(render, after, held - {res})
  {
    DropRepresents(render, cache, held, res);
    assert KeyOf(res) in cache <==> res in held;
    assert KeyOf(res) !in cache ==> cache - {KeyOf(res)} == cache;
  }

  lemma HoldRepresents(render: Renderer, cache: Cache, held: Holdings, res: Resource, listing: Held)
    requires Represents(render, cache, held)
    ensures Represents(render, cache[KeyOf(res) := CacheEntry(Text(render, listing.rows), listing.expiresAt)],
                       held[res := listing])
  {
    forall other
      ensures KeyOf(other) == KeyOf(res) ==> other == res
    {
      KeyOfInjective(other, res);
    }
  }

  lemma SweepRepresents(render: Renderer, cache: Cache, held: Holdings)
    requires Represents(render, cache, held)
    ensures Represents(render, Swept(cache, COMMENTS_PREFIX), WithoutComments(held))
  {
    forall res
      ensures StartsWith(KeyOf(res), COMMENTS_PREFIX) <==> res.Comments?
    {
      KeyOfInjective(res, res);
    }
  }

  /** A read that hits. */
  lemma HitRepresents(render: Renderer, store: Store, cache: Cache, held: Holdings, req: Request)
    requires Represents(render, cache, held) && Hit(held, req)
    ensures var res := Wanted(req).value;
            var text := Text(render, held[res].rows);
            && Step(Lazy, cache, CacheModel.Get(KeyOf(res), req.getNow)) == (cache, Some(text))
            && Answer(render, store, held, req) == Listing(text)
            && Next(store, held, req) == held
  {
    GetRepresents(render, cache, held, Wanted(req).value, req.getNow);
  }

  /** A read that misses, up to what the database gives. */
  lemma MissRepresents(render: Renderer, store: Store, cache: Cache, held: Holdings, req: Request)
    requires Represents(render, cache, held) && Wanted(req).Some? && !Hit(held, req)
    ensures var res := Wanted(req).value;
            var (got, value) := Step(Lazy, cache, CacheModel.Get(KeyOf(res), req.getNow));
            && value == None && Represents(render, got, held - {res})
            && Answer(render, store, held, req) == Listed(render, RowsRead(store, req))
  {
    GetRepresents(render, cache, held, Wanted(req).value, req.getNow);
  }

  /** And the `Set` that follows. */
  lemma SetRepresents(render: Renderer, store: Store, got: Cache, held: Holdings, req: Request)
    requires Wanted(req).Some? && !Hit(held, req) && RowsRead(store, req).Ok?
    requires Represents(render, got, held - {Wanted(req).value})
    ensures var res, text := Wanted(req).value, Text(render, RowsRead(store, req).value);
            Represents(render, Step(Lazy, got, CacheModel.Set(KeyOf(res), text, TtlSeconds(res), req.setNow)).0,
                       Next(store, held, req))
  {
    var res := Wanted(req).value;
    var listing := Held(RowsRead(store, req).value, req.setNow + TtlSeconds(res) * SECOND);
    HoldRepresents(render, got, held - {res}, res, listing);
    assert (held - {res})[res := listing] == held[res := listing];
  }

  /** A read on the cache's own terms: its `Get`, the database read and the `Set`. */
  function ReadThrough(render: Renderer, store: Store, cache: Cache, req: Request): (Cache, Response)
    requires Wanted(req).Some?
  {
    var res := Wanted(req).value;
    var (got, value) := Step(Lazy, cache, CacheModel.Get(KeyOf(res), req.getNow));
    match (value, RowsRead(store, req))
    case (Some(text), _) => (got, Listing(text))
    case (None, Threw) => (got, Failed)
    case (None, Ok(rows)) =>
      var text := Text(render, rows);
      (Step(Lazy, got, CacheModel.Set(KeyOf(res), text, TtlSeconds(res), req.setNow)).0, Listing(text))
  }

  /** What it does to the cache and answers is what it does to the listings held, and the answer they give. */
  lemma ReadRepresents(render: Renderer, store: Store, cache: Cache, held: Holdings, req: Request)
    requires Represents(render, cache, held) && Wanted(req).Some?
    ensures Represents(render, ReadThrough(render, store, cache, req).0, Next(store, held, req))
    ensures ReadThrough(render, store, cache, req).1 == Answer(render, store, held, req)
  {
    if Hit(held, req) {
      HitRepresents(render, store, cache, held, req);
    } else {
      MissRepresents(render, store, cache, held, req);
      if RowsRead(store, req).Ok? {
        SetRepresents(render, store, Step(Lazy, cache, CacheModel.Get(KeyOf(Wanted(req).value), req.getNow)).0, held,
                      req);
      }
    }
  }

  /** What the invalidation of a successful write does to the cache. */
  lemma WriteRepresents(render: Renderer, store: Store, cache: Cache, held: Holdings, req: Request)
    requires Represents(render, cache, held) && Succeeds(store, req)
    ensures Represents(render,
              match req
              case AddComment(path, _, _, _, _, _) => cache - {CommentsKey(Stoi(path).value)}
              case AddReply(id, _, _, _, reachable, _) =>
                var found := TaskIdFor(store.comments, id, reachable);
                if found > 0 then cache - {CommentsKey(found)} else Swept(cache, COMMENTS_PREFIX)
              case _ => cache - {PROJECTS_KEY},
              Next(store, held, req))
  {
    match req
    case AddComment(path, _, _, _, _, _) => DropRepresents(render, cache, held, Comments(Stoi(path).value));
    case AddReply(id, _, _, _, reachable, _) =>
      var found := TaskIdFor(store.comments, id, reachable);
      if found > 0 {
        DropRepresents(render, cache, held, Comments(found));
      } else {
        SweepRepresents(render, cache, held);
      }
    case _ => DropRepresents(render, cache, held, Projects);
  }

  class TaskService {
    const cache: CacheManager
    const mongo: MongoStorage
    const postgres: PostgresStorage
    const render: Renderer
    ghost var held: Holdings

    ghost function Stores(): Store
      reads mongo, postgres
    {
      Store(mongo.docs, postgres.projects)
    }

    ghost predicate Valid()
      reads this, cache
    {
      Represents(render, cache.cache, held)
    }

    /** The service starts with an empty cache and whatever the databases hold. */
    constructor (render: Renderer, store: Store)
      ensures Valid() && Stores() == store && this.render == render && held == map[]
      ensures Sound(Stores(), held) && UpToDate(Stores(), held)
      ensures fresh(cache) && fresh(mongo) && fresh(postgres)
    {
      this.render := render;
      cache := new CacheManager();
      mongo := new MongoStorage(store.comments);
      postgres := new PostgresStorage(store.projects);
      held := map[];
    }

    method HandleGetComments(req: Request) returns (response: Response)
      requires Valid() && req.GetComments?
      modifies this, cache
      ensures Valid() && held == Next(Stores(), old(held), req)
      ensures response == Answer(render, Stores(), old(held), req)
    {
      var taskId := Stoi(req.path);
      if taskId.Threw? {
        return Failed;
      }
      ReadRepresents(render, Stores(), cache.cache, held, req);
      held := Next(Stores(), held, req);
      var cacheKey := CommentsKey(taskId.value);
      var cached := cache.Get(cacheKey, req.getNow);
      if cached.Some? {
        return Listing(cached.value);
      }
      var comments := mongo.GetCommentsByTask(taskId.value, req.reachable);
      if comments.Threw? {
        return Failed;
      }
      var text := render.comments(comments.value);
      cache.Set(cacheKey, text, COMMENTS_TTL, req.setNow);
      return Listing(text);
    }

    method HandleAddComment(req: Request) returns (response: Response)
      requires Valid() && req.AddComment?
      modifies this, cache, mongo
      ensures Valid() && held == Next(old(Stores()), old(held), req)
      ensures Stores() == Applied(old(Stores()), req) && response == Respond(render, old(Stores()), req)
    {
      ghost var before := Stores();
      var taskId := Stoi(req.path);
      if taskId.Threw? || req.body.MalformedComment? {
        return Failed;
      }
      var ok := mongo.InsertComment(NewComment(req, taskId.value), req.oid, req.accepted);
      if !ok {
        return Failed;
      }
      WriteRepresents(render, before, cache.cache, held, req);
      cache.Invalidate(CommentsKey(taskId.value));
      held := Next(before, held, req);
      return CommentCreated;
    }

    method HandleAddReply(req: Request) returns (response: Response)
      requires Valid() && req.AddReply?
      modifies this, cache, mongo
      ensures Valid() && held == Next(old(Stores()), old(held), req)
      ensures Stores() == Applied(old(Stores()), req) && response == Respond(render, old(Stores()), req)
    {
      ghost var before := Stores();
      if req.body.MalformedComment? {
        return Failed;
      }
      var taskId := mongo.GetTaskIdByCommentId(req.commentId, req.lookupReachable);
      var ok := mongo.AddReply(req.commentId, NewReply(req), req.updatedAt, req.accepted);
      if !ok {
        return Failed;
      }
      WriteRepresents(render, before, cache.cache, held, req);
      if taskId > 0 {
        cache.Invalidate(CommentsKey(taskId));
      } else {
        cache.InvalidateByPrefix(COMMENTS_PREFIX);
      }
      held := Next(before, held, req);
      return CommentCreated;
    }

    method HandleGetProjects(req: Request) returns (response: Response)
      requires Valid() && req.GetProjects?
      modifies this, cache
      ensures Valid() && held == Next(Stores(), old(held), req)
      ensures response == Answer(render, Stores(), old(held), req)
    {
      ReadRepresents(render, Stores(), cache.cache, held, req);
      held := Next(Stores(), held, req);
      var cached := cache.Get(PROJECTS_KEY, req.getNow);
      if cached.Some? {
        return Listing(cached.value);
      }
      var projects := postgres.GetAllProjects(req.visible, req.reachable);
      if projects.Threw? {
        return Failed;
      }
      var text := render.projects(projects.value);
      cache.Set(PROJECTS_KEY, text, PROJECTS_TTL, req.setNow);
      return Listing(text);
    }

    method HandleCreateProject(req: Request) returns (response: Response)
      requires Valid() && req.CreateProject?
      modifies this, cache, postgres
      ensures Valid() && held == Next(old(Stores()), old(held), req)
      ensures Stores() == Applied(old(Stores()), req) && response == Respond(render, old(Stores()), req)
    {
      ghost var before := Stores();
      if req.form.MalformedProject? {
        return Failed;
      }
      if req.form.MissingName? {
        return BadRequest;
      }
      var created := postgres.CreateProject(NewProject(req), req.accepted);
      if created.Threw? {
        return Failed;
      }
      WriteRepresents(render, before, cache.cache, held, req);
      cache.Invalidate(PROJECTS_KEY);
      held := Next(before, held, req);
      return ProjectCreated(created.value);
    }

    method Handle(req: Request) returns (response: Response)
      requires Valid()
      modifies this, cache, mongo, postgres
      ensures Valid() && held == Next(old(Stores()), old(held), req)
      ensures Stores() == Applied(old(Stores()), req)
      ensures response == Answer(render, old(Stores()), old(held), req)
    {
      match req
      case GetComments(_, _, _, _) => response := HandleGetComments(req);
      case AddComment(_, _, _, _, _, _) => response := HandleAddComment(req);
      case AddReply(_, _, _, _, _, _) => response := HandleAddReply(req);
      case GetProjects(_, _, _, _) => response := HandleGetProjects(req);
      case CreateProject(_, _, _, _, _) => response := HandleCreateProject(req);
    }

    /** Over every sequence of requests and whatever the clock shows: the stores go through the states of a cache-free
        service, and the responses are exactly those that `HeldListings` computes. So hits that go
        unnoticed leave it transparent, and, as far as the text tells listings of projects apart, nothing else does. At
        the start nothing is held, which is sound. */
    method Run(reqs: seq<Request>) returns (responses: seq<Response>)
      requires Valid()
      modifies this, cache, mongo, postgres
      ensures Valid() && held == HeldAfter(old(Stores()), old(held), reqs)
      ensures Stores() == StoreAfter(old(Stores()), reqs)
      ensures responses == Responses(render, old(Stores()), old(held), reqs)
      ensures Sound(old(Stores()), old(held)) && AllUnnoticed(old(Stores()), old(held), reqs) ==>
                responses == CacheFreeResponses(render, old(Stores()), reqs)
      ensures Sound(old(Stores()), old(held)) && TellsApart(render, Stores().projects) ==>
                (responses == CacheFreeResponses(render, old(Stores()), reqs) <==>
                 AllUnnoticed(old(Stores()), old(held), reqs))
    {
      ghost var store, holds := Stores(), held;
      responses := [];
      for n := 0 to |reqs|
        invariant Valid() && held == HeldAfter(store, holds, reqs[..n])
        invariant Stores() == StoreAfter(store, reqs[..n])
        invariant responses == Responses(render, store, holds, reqs[..n])
      {
        var response := Handle(reqs[n]);
        RunStep(render, store, holds, reqs, n);
        responses := responses + [response];
      }
      assert reqs[..|reqs|] == reqs;
      if Sound(store, holds) && TellsApart(render, Stores().projects) {
        TransparentIff(render, store, holds, reqs);
      } else if Sound(store, holds) && AllUnnoticed(store, holds, reqs) {
        UnnoticedTransparent(render, store, holds, reqs);
      }
    }
  }
}
