/** What requests leave in the stores, said with the requests' own fields: a comment, a reply and a project can be read
    back after any further requests, and the answer to a write tells whether the store gained anything. */
module ServiceHistory {
  import opened Results
  import opened MachineInts
  import opened Decimal
  import opened CacheKeys
  import opened CommentModel
  import opened CommentCollection
  import opened ServiceModel

  // ---------- requests as operations on the collection ----------

  /** What a request does to the comment collection. */
  function OpsOfOne(req: Request): seq<StoreOp> {
    match req
    case AddComment(path, _, body, _, oid, accepted) =>
      if Stoi(path).Ok? && body.CommentBody? && accepted then [InsertOp(oid, NewComment(req, Stoi(path).value))] else []
    case AddReply(commentId, body, _, updatedAt, _, accepted) =>
      if body.CommentBody? && ParseOid(commentId).Ok? && accepted
      then [ReplyOp(ParseOid(commentId).value, NewReply(req), updatedAt)] else []
    case _ => []
  }

  function OpsOf(reqs: seq<Request>): seq<StoreOp> {
    if reqs == [] then [] else OpsOf(reqs[..|reqs| - 1]) + OpsOfOne(reqs[|reqs| - 1])
  }

  lemma OpsOfOneApplies(store: Store, req: Request, ops: seq<StoreOp>, docs: Collection)
    requires store.comments == ApplyAll(docs, ops)
    ensures Applied(store, req).comments == ApplyAll(docs, ops + OpsOfOne(req))
  {
    if OpsOfOne(req) == [] {
      assert ops + OpsOfOne(req) == ops;
    } else {
      assert (ops + OpsOfOne(req))[..|ops|] == ops;
    }
  }

  lemma {:induction false} CommentsFollow(store: Store, reqs: seq<Request>)
    ensures StoreAfter(store, reqs).comments == ApplyAll(store.comments, OpsOf(reqs))
  {
    if reqs != [] {
      var pre, req := reqs[..|reqs| - 1], reqs[|reqs| - 1];
      CommentsFollow(store, pre);
      OpsOfOneApplies(StoreAfter(store, pre), req, OpsOf(pre), store.comments);
    }
  }

  lemma {:induction false} StoreAfterConcat(store: Store, a: seq<Request>, b: seq<Request>)
    ensures StoreAfter(store, a + b) == StoreAfter(StoreAfter(store, a), b)
  {
    if b == [] {
      assert a + b == a;
    } else {
      StoreAfterConcat(store, a, b[..|b| - 1]);
      assert (a + b)[..|a + b| - 1] == a + b[..|b| - 1];
    }
  }

  // ---------- comments and replies ----------

  /** The replies that requests post to the comment `oid`, in order, as they read back. */
  function RepliesPosted(reqs: seq<Request>, oid: string): seq<Reply> {
    if reqs == [] then []
    else
      var earlier, req := RepliesPosted(reqs[..|reqs| - 1], oid), reqs[|reqs| - 1];
      if req.AddReply? && req.accepted && req.body.CommentBody? && ParseOid(req.commentId) == Ok(oid)
      then earlier + [Reply(req.body.author, req.body.text, Truncated(req.createdAt))]
      else earlier
  }

  lemma RepliesSnoc(ops: seq<StoreOp>, req: Request, oid: string)
    ensures RepliesTo(ops + OpsOfOne(req), oid) ==
            if req.AddReply? && req.accepted && req.body.CommentBody? && ParseOid(req.commentId) == Ok(oid)
            then RepliesTo(ops, oid) + [Reply(req.body.author, req.body.text, Truncated(req.createdAt))]
            else RepliesTo(ops, oid)
  {
    if OpsOfOne(req) == [] {
      assert ops + [] == ops;
    } else {
      assert (ops + OpsOfOne(req))[..|ops|] == ops;
    }
  }

  lemma {:induction false} RepliesFollow(reqs: seq<Request>, oid: string)
    ensures RepliesTo(OpsOf(reqs), oid) == RepliesPosted(reqs, oid)
  {
    if reqs != [] {
      var pre, req := reqs[..|reqs| - 1], reqs[|reqs| - 1];
      RepliesFollow(pre, oid);
      RepliesSnoc(OpsOf(pre), req, oid);
    }
  }

  /** No comment carries the id, and no request before inserts it. */
  ghost predicate Unused(store: Store, before: seq<Request>, oid: string) {
    && (forall i :: 0 <= i < |store.comments| ==> !HasId(store.comments[i], oid))
    && (forall i :: 0 <= i < |before| && before[i].AddComment? ==> before[i].oid != oid)
  }

  lemma {:induction false} UnusedFresh(store: Store, before: seq<Request>, oid: string)
    requires Unused(store, before, oid)
    ensures FreshId(store.comments, OpsOf(before), oid)
  {
    if before != [] {
      assert Unused(store, before[..|before| - 1], oid);
      UnusedFresh(store, before[..|before| - 1], oid);
    }
  }

  /** The stores after `before`, the request and `after`. */
  function Around(store: Store, before: seq<Request>, req: Request, after: seq<Request>): Store {
    StoreAfter(store, before + [req] + after)
  }

  lemma CommentsAround(store: Store, before: seq<Request>, req: Request, after: seq<Request>)
    ensures Around(store, before, req, after).comments ==
            ApplyAll(ApplyAll(ApplyAll(store.comments, OpsOf(before)), OpsOfOne(req)), OpsOf(after))
  {
    var first, second := StoreAfter(store, before), StoreAfter(store, before + [req]);
    assert second == Applied(first, req) by {
      assert (before + [req])[..|before|] == before;
    }
    CommentsFollow(store, before);
    OpsOfOneApplies(first, req, [], first.comments);
    assert [] + OpsOfOne(req) == OpsOfOne(req);
    StoreAfterConcat(store, before + [req], after);
    CommentsFollow(second, after);
  }

  /** The comment as its request described it: the task its path spells, the author and text of its body, the user of
      the token, its time to less than a millisecond, and these replies. */
  ghost predicate AsPosted(c: Comment, req: Request, taskId: int32, replies: seq<Reply>)
    requires req.AddComment? && req.body.CommentBody?
  {
    && c.id == req.oid && c.taskId == taskId && c.author == req.body.author && c.authorId == req.userId
    && c.text == req.body.text && -1_000_000 < req.createdAt - c.createdAt < 1_000_000 && c.replies == replies
  }

  lemma CommentStored(store: Store, before: seq<Request>, req: Request, after: seq<Request>, n: int32)
    requires req.AddComment? && Spells(req.path, n) && req.body.CommentBody? && req.accepted
    requires Unused(store, before, req.oid)
    ensures var docs := Around(store, before, req, after).comments;
            var i := IndexOf(docs, req.oid);
            && i < |docs| && Readable(docs[i])
            && AsPosted(CommentOf(docs[i]), req, n, RepliesPosted(after, req.oid))
            && (OfTask(docs, n).Ok? ==> CommentOf(docs[i]) in OfTask(docs, n).value)
  {
    StoiIffSpells(req.path, n);
    var comment := NewComment(req, n);
    var base := ApplyAll(store.comments, OpsOf(before));
    CommentsAround(store, before, req, after);
    UnusedFresh(store, before, req.oid);
    assert OpsOfOne(req) == [InsertOp(req.oid, comment)] && OpsOfOne(req)[..0] == [];
    assert ApplyAll(base, OpsOfOne(req)) == Inserted(base, req.oid, comment);
    History(store.comments, OpsOf(before), req.oid, comment, OpsOf(after));
    RepliesFollow(after, req.oid);
    assert StoredReplies([]) + RepliesPosted(after, req.oid) == RepliesPosted(after, req.oid);
  }

  /** A comment that was accepted reads back as posted after any further requests, with exactly the replies posted to it
      since, in order; and a read of its task, under any spelling of the task, lists it, unless some document of the
      task cannot be read. */
  lemma CommentKept(render: Renderer, store: Store, before: seq<Request>, req: Request, after: seq<Request>, n: int32,
                    get: Request)
    requires req.AddComment? && Spells(req.path, n) && req.body.CommentBody? && req.accepted
    requires forall i :: 0 <= i < |store.comments| ==> !HasId(store.comments[i], req.oid)
    requires forall i :: 0 <= i < |before| && before[i].AddComment? ==> before[i].oid != req.oid
    requires get.GetComments? && Spells(get.path, n) && get.reachable
    ensures var final := Around(store, before, req, after);
            var i, replies := IndexOf(final.comments, req.oid), RepliesPosted(after, req.oid);
            && i < |final.comments| && Readable(final.comments[i])
            && AsPosted(CommentOf(final.comments[i]), req, n, replies)
            && (Respond(render, final, get) == Failed <==> OfTask(final.comments, n).Threw?)
            && (OfTask(final.comments, n).Ok? ==>
                exists rows, c :: Respond(render, final, get) == Listing(render.comments(rows)) && c in rows &&
                                  AsPosted(c, req, n, replies))
  {
    CommentStored(store, before, req, after, n);
    StoiIffSpells(get.path, n);
    var final := Around(store, before, req, after);
    if OfTask(final.comments, n).Ok? {
      var c := CommentOf(final.comments[IndexOf(final.comments, req.oid)]);
      assert c in OfTask(final.comments, n).value && AsPosted(c, req, n, RepliesPosted(after, req.oid));
      assert Respond(render, final, get) == Listing(render.comments(OfTask(final.comments, n).value));
    }
  }

  lemma {:induction false} CommentStays(docs: Collection, ops: seq<StoreOp>, oid: string)
    requires IndexOf(docs, oid) < |docs| && Readable(docs[IndexOf(docs, oid)])
    ensures var i, final := IndexOf(docs, oid), ApplyAll(docs, ops);
            && IndexOf(final, oid) == i < |final| && Readable(final[i])
            && CommentOf(final[i]) ==
               CommentOf(docs[i]).(replies := CommentOf(docs[i]).replies + RepliesTo(ops, oid),
                                   updatedAt := CommentOf(final[i]).updatedAt)
  {
    var i := IndexOf(docs, oid);
    if ops == [] {
      assert CommentOf(docs[i]).replies + [] == CommentOf(docs[i]).replies;
    } else {
      var n := |ops| - 1;
      CommentStays(docs, ops[..n], oid);
      StepKeepsComment(ApplyAll(docs, ops[..n]), ops[n], oid);
    }
  }

  /** A comment that is there already keeps everything but its update time, and gains exactly the replies posted to it,
      in order, each with the author and text of its request and its time to the millisecond. */
  lemma RepliesKept(store: Store, reqs: seq<Request>, oid: string)
    requires IndexOf(store.comments, oid) < |store.comments|
    requires Readable(store.comments[IndexOf(store.comments, oid)])
    ensures var i, final := IndexOf(store.comments, oid), StoreAfter(store, reqs).comments;
            && IndexOf(final, oid) == i < |final| && Readable(final[i])
            && var was, now := CommentOf(store.comments[i]), CommentOf(final[i]);
               now == was.(replies := was.replies + RepliesPosted(reqs, oid), updatedAt := now.updatedAt)
  {
    CommentsFollow(store, reqs);
    CommentStays(store.comments, OpsOf(reqs), oid);
    RepliesFollow(reqs, oid);
  }

  // ---------- projects ----------

  lemma {:induction false} ProjectsGrow(store: Store, reqs: seq<Request>, i: nat)
    requires i <= |reqs|
    ensures StoreAfter(store, reqs[..i]).projects <= StoreAfter(store, reqs).projects
  {
    if i == |reqs| {
      assert reqs[..i] == reqs;
    } else {
      var n := |reqs| - 1;
      ProjectsGrow(store, reqs[..n], i);
      assert reqs[..n][..i] == reqs[..i];
    }
  }

  /** A project that was accepted is in the list after any further requests, behind those before it, with the id the
      database gave it, the fields of its form, and the user of the token as its owner. */
  lemma ProjectKept(store: Store, before: seq<Request>, req: Request, after: seq<Request>)
    requires req.CreateProject? && req.form.ProjectBody? && req.accepted
    ensures var projects, k := Around(store, before, req, after).projects, |StoreAfter(store, before).projects|;
            && k < |projects| && projects[..k] == StoreAfter(store, before).projects
            && projects[k].id == req.newId && projects[k].ownerId == req.userId
            && projects[k].name == req.form.name && projects[k].description == req.form.description
            && projects[k].key == req.form.key && projects[k].createdAt == req.createdAt
  {
    var reqs := before + [req] + after;
    var n := |before|;
    assert reqs[..n] == before && reqs[..n + 1] == before + [req] && (before + [req])[..n] == before;
    ProjectsGrow(store, reqs, n + 1);
    var upTo := StoreAfter(store, before + [req]).projects;
    assert upTo == StoreAfter(store, before).projects + [NewProject(req)];
  }

  // ---------- what the answer to a write tells ----------

  /** A comment is reported as created exactly when its path spells an int, its body is complete and the insert is
      accepted; then the collection has one document more, and otherwise it is as before. */
  lemma CommentAnswer(render: Renderer, store: Store, req: Request)
    requires req.AddComment?
    ensures var after, response := Applied(store, req), Respond(render, store, req);
            && (response == CommentCreated || response == Failed)
            && (response == CommentCreated <==>
                  (exists n: int32 :: Spells(req.path, n)) && req.body.CommentBody? && req.accepted)
            && (response == CommentCreated ==> |after.comments| == |store.comments| + 1)
            && (response == Failed ==> after == store)
  {
    if Stoi(req.path).Ok? {
      StoiIffSpells(req.path, Stoi(req.path).value);
    }
    if n: int32 :| Spells(req.path, n) {
      StoiIffSpells(req.path, n);
    }
  }

  /** A reply is reported as created exactly when its body is complete, its id parses and the server carries out the
      update; then the comment with the id, if there is one, has one reply more, and otherwise all is as before. */
  lemma ReplyAnswer(render: Renderer, store: Store, req: Request)
    requires req.AddReply?
    ensures var after, response := Applied(store, req), Respond(render, store, req);
            && (response == CommentCreated || response == Failed)
            && (response == CommentCreated <==>
                  && req.body.CommentBody? && req.accepted && ParseOid(req.commentId).Ok?
                  && AcceptsReply(store.comments, ParseOid(req.commentId).value))
            && (response == Failed ==> after == store)
            && (response == CommentCreated ==>
                  var i := IndexOf(store.comments, ParseOid(req.commentId).value);
                  if i < |store.comments|
                  then |after.comments| == |store.comments| &&
                       |RepliesIn(after.comments[i])| == |RepliesIn(store.comments[i])| + 1
                  else after == store)
  {
    if Succeeds(store, req) && IndexOf(store.comments, ParseOid(req.commentId).value) < |store.comments| {
      PushedReads(store.comments[IndexOf(store.comments, ParseOid(req.commentId).value)], NewReply(req), req.updatedAt);
    }
  }

  /** A project is answered exactly when its form is complete and the insert is accepted; it is then the last one of the
      list, with its own fields. A missing name is a bad request, and everything else fails. */
  lemma ProjectAnswer(render: Renderer, store: Store, req: Request)
    requires req.CreateProject?
    ensures var after, response := Applied(store, req), Respond(render, store, req);
            && (response.ProjectCreated? <==> req.form.ProjectBody? && req.accepted)
            && (response == BadRequest <==> req.form.MissingName?)
            && (response == Failed <==> req.form.MalformedProject? || (req.form.ProjectBody? && !req.accepted))
            && (response.ProjectCreated? ==>
                  && after.projects == store.projects + [response.project] && after.comments == store.comments
                  && response.project.id == req.newId && response.project.name == req.form.name
                  && response.project.description == req.form.description && response.project.key == req.form.key
                  && response.project.ownerId == req.userId)
            && (!response.ProjectCreated? ==> after == store)
  {
  }
}
