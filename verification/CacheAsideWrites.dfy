/** Which writes a cached listing shows. A write stays recorded in the store once it is committed, and a listing shows
    exactly what is recorded in the store it was read from. */
module CacheAsideWrites {
  import opened Results
  import opened MachineInts
  import opened CacheKeys
  import opened CommentModel
  import opened CommentCollection
  import opened ServiceModel
  import opened CacheAside

  /** What a client looks for: the comment under its id with its fields, the reply in its comment, the project. */
  ghost predicate Shows(rows: Rows, w: Write) {
    match w
    case PostComment(oid, comment) =>
      && rows.CommentRows?
      && exists c :: c in rows.comments && c.id == oid && c.author == comment.author &&
                     c.authorId == comment.authorId && c.text == comment.text &&
                     c.createdAt == Truncated(comment.createdAt)
    case PostReply(id, reply, _) =>
      && rows.CommentRows? && ParseOid(id).Ok?
      && exists c :: c in rows.comments && c.id == ParseOid(id).value && StoredReply(reply) in c.replies
    case PostProject(project) => rows.ProjectRows? && project in rows.projects
  }

  /** The document holds the comment or the reply. */
  ghost predicate Carries(doc: Bson, w: Write) {
    match w
    case PostComment(oid, comment) =>
      && HasId(doc, oid)
      && HasStr(doc, "author") && doc.fields["author"].text == comment.author
      && HasInt(doc, "author_id") && doc.fields["author_id"].number == comment.authorId
      && HasStr(doc, "text") && doc.fields["text"].text == comment.text
      && HasDate(doc, "created_at") && doc.fields["created_at"].millis == ToMillis(comment.createdAt)
    case PostReply(id, reply, _) =>
      && ParseOid(id).Ok? && HasId(doc, ParseOid(id).value)
      && exists k :: 0 <= k < |RepliesIn(doc)| && ReplyFromBson(RepliesIn(doc)[k]) == Ok(StoredReply(reply))
    case PostProject(_) => false
  }

  /** The part of the store that `res` lists holds the write. */
  ghost predicate Recorded(store: Store, res: Resource, w: Write) {
    match res
    case Comments(taskId) =>
      exists i :: 0 <= i < |store.comments| && OnTask(store.comments[i], taskId) && Carries(store.comments[i], w)
    case Projects => w.PostProject? && w.project in store.projects
  }

  lemma CarriesIffRead(doc: Bson, w: Write)
    requires Readable(doc)
    ensures Carries(doc, w) <==> Shows(CommentRows([CommentOf(doc)]), w)
  {
    var c, rows := CommentOf(doc), CommentRows([CommentOf(doc)]);
    assert c in rows.comments;
    if w.PostReply? && Carries(doc, w) {
      var k :| 0 <= k < |RepliesIn(doc)| && ReplyFromBson(RepliesIn(doc)[k]) == Ok(StoredReply(w.reply));
      assert c.replies[k] == StoredReply(w.reply);
    }
    if w.PostReply? && Shows(rows, w) {
      var k :| 0 <= k < |c.replies| && c.replies[k] == StoredReply(w.reply);
      assert ReplyFromBson(RepliesIn(doc)[k]) == Ok(StoredReply(w.reply));
    }
  }

  lemma ShownIsRecorded(docs: Collection, taskId: int32, w: Write)
    requires OfTask(docs, taskId).Ok? && Shows(CommentRows(OfTask(docs, taskId).value), w)
    ensures exists i :: 0 <= i < |docs| && OnTask(docs[i], taskId) && Carries(docs[i], w)
  {
    var c :| c in OfTask(docs, taskId).value && Shows(CommentRows([c]), w);
    ListedIff(docs, taskId, c);
    var i :| 0 <= i < |docs| && Readable(docs[i]) && CommentOf(docs[i]) == c;
    CarriesIffRead(docs[i], w);
    assert OnTask(docs[i], taskId);
  }

  lemma RecordedIsShown(docs: Collection, taskId: int32, i: nat, w: Write)
    requires OfTask(docs, taskId).Ok? && i < |docs| && OnTask(docs[i], taskId) && Carries(docs[i], w)
    ensures Shows(CommentRows(OfTask(docs, taskId).value), w)
  {
    ReadableIff(docs, taskId);
    ListedIff(docs, taskId, CommentOf(docs[i]));
    CarriesIffRead(docs[i], w);
  }

  /** A listing shows exactly the writes recorded in the store it was read from. */
  lemma ShowsIffRecorded(store: Store, res: Resource, w: Write)
    requires View(store, res).Ok?
    ensures Shows(View(store, res).value, w) <==> Recorded(store, res, w)
  {
    if res.Comments? {
      if Shows(View(store, res).value, w) {
        ShownIsRecorded(store.comments, res.taskId, w);
      }
      if i :| 0 <= i < |store.comments| && OnTask(store.comments[i], res.taskId) && Carries(store.comments[i], w) {
        RecordedIsShown(store.comments, res.taskId, i, w);
      }
    }
  }

  lemma PushedCarries(doc: Bson, reply: Reply, now: int, w: Write)
    requires Pushable(doc)
    ensures Carries(doc, w) ==> Carries(Pushed(doc, reply, now), w)
    ensures w.PostReply? && w.reply == reply && ParseOid(w.commentId).Ok? && HasId(doc, ParseOid(w.commentId).value) ==>
              Carries(Pushed(doc, reply, now), w)
  {
    PushedReads(doc, reply, now);
    var before, after := RepliesIn(doc), RepliesIn(Pushed(doc, reply, now));
    assert after[|before|] == ReplyToBson(reply);
    assert forall k :: 0 <= k < |before| ==> after[k] == before[k];
  }

  /** What is recorded stays recorded. */
  lemma WrittenKeepsRecorded(store: Store, other: Write, res: Resource, w: Write)
    requires Committable(store, other) && Recorded(store, res, w)
    ensures Recorded(Written(store, other), res, w)
  {
    if res.Comments? {
      var docs, after := store.comments, Written(store, other).comments;
      var i :| 0 <= i < |docs| && OnTask(docs[i], res.taskId) && Carries(docs[i], w);
      if other.PostReply? && i == IndexOf(docs, ParseOid(other.commentId).value) {
        PushedReads(docs[i], other.reply, other.updatedAt);
        PushedCarries(docs[i], other.reply, other.updatedAt, w);
      }
      assert OnTask(after[i], res.taskId) && Carries(after[i], w);
    }
  }

  /** A commit records its write in the listing it goes to. */
  lemma CommitRecords(store: Store, res: Resource, w: Write)
    requires Committable(store, w) && GoesTo(store, w, res)
    ensures Recorded(Written(store, w), res, w)
  {
    if res.Comments? {
      var docs, after := store.comments, Written(store, w).comments;
      match w
      case PostComment(oid, c) =>
        NewDocReads(oid, c);
        assert OnTask(after[|docs|], res.taskId) && Carries(after[|docs|], w);
      case PostReply(id, reply, now) =>
        var i := IndexOf(docs, ParseOid(id).value);
        IndexOfFirst(docs, ParseOid(id).value);
        PushedReads(docs[i], reply, now);
        PushedCarries(docs[i], reply, now, w);
        assert OnTask(after[i], res.taskId) && Carries(after[i], w);
    }
  }

  /** A listing that can be read stays so. */
  lemma WrittenKeepsReadable(store: Store, w: Write, res: Resource)
    requires Committable(store, w) && View(store, res).Ok?
    ensures View(Written(store, w), res).Ok?
  {
    ChangesIffGoesTo(store, w, res);
  }

  lemma {:induction false} ReadableStays(run: Run, i: nat, n: nat, res: Resource)
    requires IsRun(run) && i <= n <= |run.events| && View(run.states[i].store, res).Ok?
    ensures View(run.states[n].store, res).Ok?
  {
    if i < n {
      ReadableStays(run, i, n - 1, res);
      assert Step(run, n - 1);
      var s, e := run.states[n - 1], run.events[n - 1];
      if e.action.Commit? {
        WrittenKeepsReadable(s.store, s.handlers[e.id].write, res);
      }
    }
  }

  lemma StepKeepsRecorded(run: Run, i: nat, res: Resource, w: Write)
    requires IsRun(run) && i < |run.events| && Recorded(run.states[i].store, res, w)
    ensures Recorded(run.states[i + 1].store, res, w)
  {
    assert Step(run, i);
    var s, e := run.states[i], run.events[i];
    if e.action.Commit? {
      WrittenKeepsRecorded(s.store, s.handlers[e.id].write, res, w);
    } else {
      assert run.states[i + 1].store == s.store;
    }
  }

  lemma {:induction false} RecordedStays(run: Run, i: nat, n: nat, res: Resource, w: Write)
    requires IsRun(run) && i <= n <= |run.events|
    requires Recorded(run.states[i].store, res, w)
    ensures Recorded(run.states[n].store, res, w)
  {
    if i < n {
      RecordedStays(run, i, n - 1, res, w);
      StepKeepsRecorded(run, n - 1, res, w);
    }
  }

  /** Event `c` commits `w`. */
  ghost predicate Commits(run: Run, c: nat, w: Write)
    requires IsRun(run)
  {
    && c < |run.events| && run.events[c].action.Commit?
    && run.events[c].id in run.states[c].handlers
    && var h := run.states[c].handlers[run.events[c].id];
       (h.Writing? || h.LookedUp?) && h.write == w
  }

  /** Event `c` commits `w`, which goes to `res`. */
  ghost predicate CommitsTo(run: Run, c: nat, w: Write, res: Resource)
    requires IsRun(run)
  {
    Commits(run, c, w) && GoesTo(run.states[c].store, w, res)
  }

  lemma RecordedOnceCommitted(run: Run, c: nat, res: Resource, w: Write)
    requires IsRun(run) && CommitsTo(run, c, w, res)
    ensures Recorded(run.states[c + 1].store, res, w)
  {
    assert Step(run, c);
    CommitRecords(run.states[c].store, res, w);
  }

  /** Seen from a snapshot that could be read, a later commit changes the listing it goes to. */
  lemma CommitChanges(run: Run, snapshot: nat, c: nat, res: Resource, w: Write)
    requires IsRun(run) && CommitsTo(run, c, w, res)
    requires snapshot <= c && View(run.states[snapshot].store, res).Ok?
    ensures Changes(run, c, res)
  {
    assert Step(run, c);
    ReadableStays(run, snapshot, c, res);
    ChangesIffGoesTo(run.states[c].store, w, res);
  }

  /** A listing read from the store at `snapshot` shows every write committed to it before, and, if the write was not
      there already, shows it only then. */
  lemma ShownIffLater(run: Run, snapshot: nat, c: nat, res: Resource, w: Write)
    requires IsRun(run) && snapshot <= |run.events| && View(run.states[snapshot].store, res).Ok?
    requires CommitsTo(run, c, w, res)
    ensures c < snapshot ==> Shows(View(run.states[snapshot].store, res).value, w)
    ensures !Recorded(run.states[c].store, res, w) ==>
              (Shows(View(run.states[snapshot].store, res).value, w) <==> c < snapshot)
  {
    ShowsIffRecorded(run.states[snapshot].store, res, w);
    if c < snapshot {
      RecordedOnceCommitted(run, c, res, w);
      RecordedStays(run, c + 1, snapshot, res, w);
    } else if Recorded(run.states[snapshot].store, res, w) {
      RecordedStays(run, snapshot, c, res, w);
    }
  }

  /** An entry does not show a write that has been invalidated exactly when its own span straddles that write. */
  lemma EntryLacksWriteIffStraddled(run: Run, n: nat, key: string, c: nat, v: nat, w: Write)
    requires IsRun(run) && n <= |run.events| && key in run.states[n].cache
    requires CommitsTo(run, c, w, run.states[n].cache[key].res)
    requires v < n && InvalidationOf(run, c, v)
    requires !Recorded(run.states[c].store, run.states[n].cache[key].res, w)
    ensures var entry := run.states[n].cache[key];
            !Shows(entry.value, w) <==> Straddles(run, entry.snapshot, c, v, entry.setAt, entry.res)
  {
    var entry := run.states[n].cache[key];
    EntriesSound(run, n, key);
    ShownIffLater(run, entry.snapshot, c, entry.res, w);
    if entry.snapshot <= c {
      CommitChanges(run, entry.snapshot, c, entry.res, w);
      InvalidationErases(run, c, v, entry.res);
      assert run.events[v].action.Invalidate? && run.events[entry.setAt].action.Set?;
    }
  }
}
