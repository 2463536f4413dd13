/** What caching does to the answers, without keys, texts or sweeps: for each listing, the rows held and until when.
    The cached service answers a hit with the rows held and everything else as the cache-free service does. */
module HeldListings {
  import opened Results
  import opened MachineInts
  import opened Decimal
  import opened CacheKeys
  import opened CommentModel
  import opened CommentCollection
  import opened ServiceModel
  import opened ServiceHistory

  datatype Held = Held(rows: Rows, expiresAt: int)

  type Holdings = map<Resource, Held>

  /** The read finds its listing held and not expired. */
  predicate Hit(held: Holdings, req: Request) {
    Wanted(req).Some? && Wanted(req).value in held && req.getNow <= held[Wanted(req).value].expiresAt
  }

  function Answer(render: Renderer, store: Store, held: Holdings, req: Request): Response {
    if Hit(held, req) then Listing(Text(render, held[Wanted(req).value].rows)) else Respond(render, store, req)
  }

  function WithoutComments(held: Holdings): Holdings {
    held - set res | res in held && res.Comments?
  }

  /** What is held afterwards: a miss holds what it read, if it could read, and a successful write drops listings. */
  function Next(store: Store, held: Holdings, req: Request): Holdings {
    if Wanted(req).Some? then
      var res := Wanted(req).value;
      if Hit(held, req) then held
      else
        match RowsRead(store, req)
        case Ok(rows) => held[res := Held(rows, req.setNow + TtlSeconds(res) * SECOND)]
        case Threw => held - {res}
    else if !Succeeds(store, req) then held
    else if req.CreateProject? then held - {Projects}
    else if req.AddComment? then held - {Comments(Stoi(req.path).value)}
    else
      var found := TaskIdFor(store.comments, req.commentId, req.lookupReachable);
      if found > 0 then held - {Comments(found)} else WithoutComments(held)
  }

  function HeldAfter(store: Store, held: Holdings, reqs: seq<Request>): Holdings {
    if reqs == [] then held
    else
      var pre, req := reqs[..|reqs| - 1], reqs[|reqs| - 1];
      Next(StoreAfter(store, pre), HeldAfter(store, held, pre), req)
  }

  /** The responses of the service with its cache. */
  function Responses(render: Renderer, store: Store, held: Holdings, reqs: seq<Request>): (responses: seq<Response>)
    ensures |responses| == |reqs|
  {
    if reqs == [] then []
    else
      var pre, req := reqs[..|reqs| - 1], reqs[|reqs| - 1];
      Responses(render, store, held, pre) +
      [Answer(render, StoreAfter(store, pre), HeldAfter(store, held, pre), req)]
  }

  /** One request more. */
  lemma RunStep(render: Renderer, store: Store, held: Holdings, reqs: seq<Request>, n: nat)
    requires n < |reqs|
    ensures var now, holds := StoreAfter(store, reqs[..n]), HeldAfter(store, held, reqs[..n]);
            && StoreAfter(store, reqs[..n + 1]) == Applied(now, reqs[n])
            && HeldAfter(store, held, reqs[..n + 1]) == Next(now, holds, reqs[n])
            && Responses(render, store, held, reqs[..n + 1]) ==
               Responses(render, store, held, reqs[..n]) + [Answer(render, now, holds, reqs[n])]
  {
    assert reqs[..n + 1][..n] == reqs[..n];
  }

  // ---------- what is held is current ----------

  /** Rows that a read of the store as it is now could give: for comments the rows of the store itself, for projects
      those of some replica. */
  ghost predicate Current(store: Store, res: Resource, rows: Rows) {
    match res
    case Comments(_) => View(store, res) == Ok(rows)
    case Projects => rows.ProjectRows? && rows.projects <= store.projects
  }

  ghost predicate Sound(store: Store, held: Holdings) {
    forall res :: res in held ==> Current(store, res, held[res].rows)
  }

  lemma InsertStaysSound(store: Store, held: Holdings, oid: string, c: Comment)
    requires Sound(store, held)
    ensures Sound(store.(comments := Inserted(store.comments, oid, c)), held - {Comments(c.taskId)})
  {
    var after := store.(comments := Inserted(store.comments, oid, c));
    forall res | res in held - {Comments(c.taskId)}
      ensures Current(after, res, held[res].rows)
    {
      assert Current(store, res, held[res].rows);
      if res.Comments? {
        InsertedElsewhere(store.comments, oid, c, res.taskId);
      }
    }
  }

  /** Why a reply drops enough: a positive answer of the lookup is the comment's own task, and any other answer -- the
      lookup failed, the comment is unknown, or the id really is not positive -- drops every listing of comments. */
  lemma ReplyStaysSound(store: Store, held: Holdings, id: string, reachable: bool, reply: Reply, now: int)
    requires Sound(store, held) && ParseOid(id).Ok? && AcceptsReply(store.comments, ParseOid(id).value)
    ensures var found := TaskIdFor(store.comments, id, reachable);
            Sound(store.(comments := Replied(store.comments, ParseOid(id).value, reply, now)),
                  if found > 0 then held - {Comments(found)} else WithoutComments(held))
  {
    var found := TaskIdFor(store.comments, id, reachable);
    var after := store.(comments := Replied(store.comments, ParseOid(id).value, reply, now));
    forall res | res in (if found > 0 then held - {Comments(found)} else WithoutComments(held))
      ensures Current(after, res, held[res].rows)
    {
      assert Current(store, res, held[res].rows);
      if res.Comments? {
        RepliedElsewhere(store.comments, ParseOid(id).value, reply, now, res.taskId);
      }
    }
  }

  /** Every request keeps what is held current. */
  lemma SoundStep(store: Store, held: Holdings, req: Request)
    requires Sound(store, held)
    ensures Sound(Applied(store, req), Next(store, held, req))
  {
    if Succeeds(store, req) {
      match req
      case AddComment(path, _, _, _, oid, _) =>
        InsertStaysSound(store, held, oid, NewComment(req, Stoi(path).value));
      case AddReply(id, _, _, updatedAt, lookupReachable, _) =>
        ReplyStaysSound(store, held, id, lookupReachable, NewReply(req), updatedAt);
      case CreateProject(_, _, _, _, _) =>
        forall res | res in held && res != Projects
          ensures Current(Applied(store, req), res, held[res].rows)
        {
          assert Current(store, res, held[res].rows);
        }
      case _ => assert false;
    }
  }

  lemma {:induction false} SoundAfter(store: Store, held: Holdings, reqs: seq<Request>)
    requires Sound(store, held)
    ensures Sound(StoreAfter(store, reqs), HeldAfter(store, held, reqs))
  {
    if reqs != [] {
      var pre := reqs[..|reqs| - 1];
      SoundAfter(store, held, pre);
      SoundStep(StoreAfter(store, pre), HeldAfter(store, held, pre), reqs[|reqs| - 1]);
    }
  }

  /** What a successful write drops, and nothing more: the listing of its task, that of the task the lookup found or
      else all listings of comments, or the list of projects. */
  lemma DropsOnly(store: Store, held: Holdings, req: Request)
    requires Succeeds(store, req)
    ensures forall res :: res in Next(store, held, req) ==>
              res in held && Next(store, held, req)[res] == held[res]
    ensures forall res :: res in Next(store, held, req) <==>
              res in held &&
              match req
              case AddComment(path, _, _, _, _, _) => res.Projects? || !Spells(path, res.taskId)
              case AddReply(id, _, _, _, reachable, _) =>
                res.Projects? || (TaskIdFor(store.comments, id, reachable) > 0 &&
                                  TaskIdFor(store.comments, id, reachable) != res.taskId)
              case _ => res.Comments?
  {
    if req.AddComment? {
      forall taskId: int32
        ensures Spells(req.path, taskId) <==> taskId == Stoi(req.path).value
      {
        StoiIffSpells(req.path, taskId);
      }
    }
  }

  /** A listing that was read is a hit for sixty seconds, or three hundred for projects, and not longer. */
  lemma HitWhileAlive(store: Store, held: Holdings, req: Request, later: Request)
    requires Wanted(req).Some? && Wanted(later) == Wanted(req) && !Hit(held, req) && RowsRead(store, req).Ok?
    ensures Hit(Next(store, held, req), later) <==>
            later.getNow <= req.setNow + (if req.GetProjects? then 300 else 60) * 1_000_000_000
  {
  }

  // ---------- when caching shows ----------

  /** How many projects a read of the replica gets. */
  function Seen(store: Store, visible: nat): nat {
    if visible <= |store.projects| then visible else |store.projects|
  }

  /** A hit shows nothing of the cache: the store could have been read, and for projects, which come from replicas, the
      replica would have given as many as are held. */
  predicate Unnoticed(store: Store, held: Holdings, req: Request) {
    Hit(held, req) ==>
      && req.reachable
      && (req.GetProjects? && held[Projects].rows.ProjectRows? ==>
            |held[Projects].rows.projects| == Seen(store, req.visible))
  }

  /** The text tells listings of different lengths apart. (Projects are only ever added.) */
  ghost predicate TellsApart(render: Renderer, projects: seq<Project>) {
    forall i, j :: 0 <= i < j <= |projects| ==> render.projects(projects[..i]) != render.projects(projects[..j])
  }

  lemma HeldIsPrefix(store: Store, held: Holdings)
    requires Sound(store, held) && Projects in held
    ensures held[Projects].rows.ProjectRows?
    ensures var projects := held[Projects].rows.projects;
            |projects| <= |store.projects| && projects == store.projects[..|projects|]
  {
    assert Current(store, Projects, held[Projects].rows);
  }

  /** What goes unnoticed is answered as without a cache, whatever the text. */
  lemma UnnoticedAnswer(render: Renderer, store: Store, held: Holdings, req: Request)
    requires Sound(store, held) && Unnoticed(store, held, req)
    ensures Answer(render, store, held, req) == Respond(render, store, req)
  {
    if Hit(held, req) {
      if req.GetProjects? {
        HeldIsPrefix(store, held);
        assert Lagging(store, req.visible).projects == held[Projects].rows.projects;
      } else {
        assert Current(store, Wanted(req).value, held[Wanted(req).value].rows);
      }
    }
  }

  /** What is noticed is a store that cannot be reached, or another number of projects. */
  lemma NoticedAnswer(render: Renderer, store: Store, held: Holdings, req: Request)
    requires Sound(store, held) && !Unnoticed(store, held, req)
    requires req.reachable ==> TellsApart(render, store.projects)
    ensures Answer(render, store, held, req) != Respond(render, store, req)
  {
    if req.reachable {
      HeldIsPrefix(store, held);
      var have, see := |held[Projects].rows.projects|, Seen(store, req.visible);
      assert Lagging(store, req.visible).projects == store.projects[..see];
      assert have < see || see < have;
    }
  }

  /** The same of the i-th request of a run. */
  predicate UnnoticedAt(store: Store, held: Holdings, reqs: seq<Request>, i: nat)
    requires i < |reqs|
  {
    Unnoticed(StoreAfter(store, reqs[..i]), HeldAfter(store, held, reqs[..i]), reqs[i])
  }

  ghost predicate AllUnnoticed(store: Store, held: Holdings, reqs: seq<Request>) {
    forall i: nat :: i < |reqs| ==> UnnoticedAt(store, held, reqs, i)
  }

  /** The answer to the i-th request of a run. */
  lemma {:induction false} AnswerAt(render: Renderer, store: Store, held: Holdings, reqs: seq<Request>, i: nat)
    requires i < |reqs|
    ensures Responses(render, store, held, reqs)[i] ==
            Answer(render, StoreAfter(store, reqs[..i]), HeldAfter(store, held, reqs[..i]), reqs[i])
  {
    var pre := reqs[..|reqs| - 1];
    if i < |pre| {
      AnswerAt(render, store, held, pre, i);
      assert pre[..i] == reqs[..i];
    }
  }

  /** And the one without a cache. */
  lemma {:induction false} RespondAt(render: Renderer, store: Store, reqs: seq<Request>, i: nat)
    requires i < |reqs|
    ensures CacheFreeResponses(render, store, reqs)[i] == Respond(render, StoreAfter(store, reqs[..i]), reqs[i])
  {
    var pre := reqs[..|reqs| - 1];
    if i < |pre| {
      RespondAt(render, store, pre, i);
      assert pre[..i] == reqs[..i];
    }
  }

  /** Caching that goes unnoticed is transparent, whatever the text. */
  lemma UnnoticedTransparent(render: Renderer, store: Store, held: Holdings, reqs: seq<Request>)
    requires Sound(store, held) && AllUnnoticed(store, held, reqs)
    ensures Responses(render, store, held, reqs) == CacheFreeResponses(render, store, reqs)
  {
    forall i: nat | i < |reqs|
      ensures Responses(render, store, held, reqs)[i] == CacheFreeResponses(render, store, reqs)[i]
    {
      assert UnnoticedAt(store, held, reqs, i);
      AnswerAt(render, store, held, reqs, i);
      RespondAt(render, store, reqs, i);
      SoundAfter(store, held, reqs[..i]);
      UnnoticedAnswer(render, StoreAfter(store, reqs[..i]), HeldAfter(store, held, reqs[..i]), reqs[i]);
    }
  }

  lemma PrefixTellsApart(render: Renderer, shorter: seq<Project>, longer: seq<Project>)
    requires shorter <= longer && TellsApart(render, longer)
    ensures TellsApart(render, shorter)
  {
    assert forall i :: 0 <= i <= |shorter| ==> shorter[..i] == longer[..i];
  }

  /** Sequential transparency, exactly: for a text that tells listings of different lengths apart, the cached service
      gives the responses of the cache-free one if and only if every hit goes unnoticed. */
  lemma TransparentIff(render: Renderer, store: Store, held: Holdings, reqs: seq<Request>)
    requires Sound(store, held) && TellsApart(render, StoreAfter(store, reqs).projects)
    ensures Responses(render, store, held, reqs) == CacheFreeResponses(render, store, reqs) <==>
            AllUnnoticed(store, held, reqs)
  {
    if AllUnnoticed(store, held, reqs) {
      UnnoticedTransparent(render, store, held, reqs);
    } else {
      var i: nat :| i < |reqs| && !UnnoticedAt(store, held, reqs, i);
      AnswerAt(render, store, held, reqs, i);
      RespondAt(render, store, reqs, i);
      SoundAfter(store, held, reqs[..i]);
      ProjectsGrow(store, reqs, i);
      PrefixTellsApart(render, StoreAfter(store, reqs[..i]).projects, StoreAfter(store, reqs).projects);
      NoticedAnswer(render, StoreAfter(store, reqs[..i]), HeldAfter(store, held, reqs[..i]), reqs[i]);
    }
  }

  /** A text that tells how many projects there are. */
  function Tally(): Renderer {
    Renderer(_ => "", (projects: seq<Project>) => seq(|projects|, _ => 'x'))
  }

  lemma TallyTellsApart(projects: seq<Project>)
    ensures TellsApart(Tally(), projects)
  {
    forall i, j | 0 <= i < j <= |projects|
      ensures Tally().projects(projects[..i]) != Tally().projects(projects[..j])
    {
      assert |Tally().projects(projects[..i])| == i && |Tally().projects(projects[..j])| == j;
    }
  }

  /** Without a word about the text: the responses are the cache-free ones under every rendering if and only if every
      hit goes unnoticed. */
  lemma TransparentForEveryTextIff(store: Store, held: Holdings, reqs: seq<Request>)
    requires Sound(store, held)
    ensures (forall render :: Responses(render, store, held, reqs) == CacheFreeResponses(render, store, reqs)) <==>
            AllUnnoticed(store, held, reqs)
  {
    if AllUnnoticed(store, held, reqs) {
      forall render
        ensures Responses(render, store, held, reqs) == CacheFreeResponses(render, store, reqs)
      {
        UnnoticedTransparent(render, store, held, reqs);
      }
    } else {
      TallyTellsApart(StoreAfter(store, reqs).projects);
      TransparentIff(Tally(), store, held, reqs);
    }
  }

  /** Lag shows: a listing read from a replica that had seen only `k` projects is still served when the replica has
      caught up, and it differs unless the two listings have the same text. */
  lemma HitFromLaggingReplica(render: Renderer, store: Store, k: nat)
    requires k <= |store.projects|
    ensures var reqs := [GetProjects(k, true, 0, 0), GetProjects(|store.projects|, true, 0, 0)];
            && Responses(render, store, map[], reqs) == [Listing(render.projects(store.projects[..k])),
                                                         Listing(render.projects(store.projects[..k]))]
            && CacheFreeResponses(render, store, reqs) == [Listing(render.projects(store.projects[..k])),
                                                           Listing(render.projects(store.projects))]
  {
    var first, second := GetProjects(k, true, 0, 0), GetProjects(|store.projects|, true, 0, 0);
    assert Lagging(store, |store.projects|) == store;
    assert [first, second][..1] == [first] && [first][..0] == [];
    assert HeldAfter(store, map[], [first])[Projects].rows == ProjectRows(store.projects[..k]);
  }

  // ---------- replicas that have caught up ----------

  ghost predicate CaughtUp(store: Store, reqs: seq<Request>) {
    forall i :: 0 <= i < |reqs| && reqs[i].GetProjects? ==>
      reqs[i].visible >= |StoreAfter(store, reqs[..i]).projects|
  }

  /** Everything held is the listing of the store as it is now. */
  ghost predicate UpToDate(store: Store, held: Holdings) {
    forall res :: res in held ==> View(store, res) == Ok(held[res].rows)
  }

  lemma UpToDateSound(store: Store, held: Holdings)
    requires UpToDate(store, held)
    ensures Sound(store, held)
  {
    forall res | res in held
      ensures Current(store, res, held[res].rows)
    {
      assert View(store, res) == Ok(held[res].rows);
    }
  }

  lemma UpToDateStep(store: Store, held: Holdings, req: Request)
    requires UpToDate(store, held)
    requires req.GetProjects? ==> req.visible >= |store.projects|
    ensures UpToDate(Applied(store, req), Next(store, held, req))
  {
    UpToDateSound(store, held);
    SoundStep(store, held, req);
    var after, next := Applied(store, req), Next(store, held, req);
    forall res | res in next
      ensures View(after, res) == Ok(next[res].rows)
    {
      assert Current(after, res, next[res].rows);
      if res.Projects? && req.GetProjects? {
        assert Lagging(store, req.visible) == store;
      }
    }
  }

  lemma {:induction false} UpToDateAfter(store: Store, held: Holdings, reqs: seq<Request>)
    requires UpToDate(store, held) && CaughtUp(store, reqs)
    ensures UpToDate(StoreAfter(store, reqs), HeldAfter(store, held, reqs))
  {
    if reqs != [] {
      var n := |reqs| - 1;
      var pre := reqs[..n];
      assert forall i :: 0 <= i < n ==> pre[..i] == reqs[..i] && pre[i] == reqs[i];
      UpToDateAfter(store, held, pre);
      UpToDateStep(StoreAfter(store, pre), HeldAfter(store, held, pre), reqs[n]);
    }
  }

  /** The i-th request is answered from the cache. */
  predicate HitAt(store: Store, held: Holdings, reqs: seq<Request>, i: nat)
    requires i < |reqs|
  {
    Hit(HeldAfter(store, held, reqs[..i]), reqs[i])
  }

  lemma UnnoticedIffReachable(store: Store, held: Holdings, reqs: seq<Request>, i: nat)
    requires UpToDate(store, held) && CaughtUp(store, reqs) && i < |reqs|
    ensures UnnoticedAt(store, held, reqs, i) <==>
            (HitAt(store, held, reqs, i) ==> reqs[i].reachable)
  {
    assert forall j :: 0 <= j < i ==> reqs[..i][..j] == reqs[..j] && reqs[..i][j] == reqs[j];
    UpToDateAfter(store, held, reqs[..i]);
    var now := StoreAfter(store, reqs[..i]);
    if reqs[i].GetProjects? {
      assert reqs[i].visible >= |now.projects|;
      assert Lagging(now, reqs[i].visible) == now;
    }
  }

  /** Without lag the cache shows in one case only: a read that hits although its store cannot be reached. That much
      holds whatever the text. */
  lemma TransparentIffReachable(render: Renderer, store: Store, held: Holdings, reqs: seq<Request>)
    requires UpToDate(store, held) && CaughtUp(store, reqs)
    ensures Responses(render, store, held, reqs) == CacheFreeResponses(render, store, reqs) <==>
            forall i: nat :: i < |reqs| && HitAt(store, held, reqs, i) ==> reqs[i].reachable
  {
    UpToDateSound(store, held);
    if i: nat :| i < |reqs| && HitAt(store, held, reqs, i) && !reqs[i].reachable {
      AnswerAt(render, store, held, reqs, i);
      RespondAt(render, store, reqs, i);
      SoundAfter(store, held, reqs[..i]);
      NoticedAnswer(render, StoreAfter(store, reqs[..i]), HeldAfter(store, held, reqs[..i]), reqs[i]);
    } else {
      forall i: nat | i < |reqs|
        ensures UnnoticedAt(store, held, reqs, i)
      {
        UnnoticedIffReachable(store, held, reqs, i);
      }
      UnnoticedTransparent(render, store, held, reqs);
    }
  }

  /** The failing case is real: a listing read once is still served when its store has gone away. */
  lemma HitWithoutStore(render: Renderer, store: Store)
    ensures var n, text := |store.projects|, render.projects(store.projects);
            var reqs := [GetProjects(n, true, 0, 0), GetProjects(n, false, 0, 0)];
            && Responses(render, store, map[], reqs) == [Listing(text), Listing(text)]
            && CacheFreeResponses(render, store, reqs) == [Listing(text), Failed]
  {
    var n := |store.projects|;
    var first, second := GetProjects(n, true, 0, 0), GetProjects(n, false, 0, 0);
    assert Lagging(store, n) == store;
    assert [first, second][..1] == [first] && [first][..0] == [];
    assert HeldAfter(store, map[], [first])[Projects].rows == ProjectRows(store.projects);
  }
}
