/** The cache-aside protocol under concurrency. Any number of readers (`Get`, database read, `Set`) and writers
    (optional lookup, database commit, invalidation) interleave; every step is atomic, as each cache call is under
    the cache's mutex and each store operation under the store. A handler may stop after any of its steps.

    A run is a sequence of states with the events between them. Positions in the run date everything: state `i` is
    the one in which event `i` happens. */
module CacheAside {
  import opened Results
  import opened MachineInts
  import opened CacheKeys
  import opened CommentModel
  import opened CommentCollection
  import opened ServiceModel

  function TimeToLive(res: Resource): int {
    TtlSeconds(res) * SECOND
  }

  datatype Write =
    | PostComment(oid: string, comment: Comment)
    | PostReply(commentId: string, reply: Reply, updatedAt: int)
    | PostProject(project: Project)

  /** A reply to a malformed id throws before it commits, and so does one the server does not carry out. */
  predicate Committable(store: Store, w: Write) {
    w.PostReply? ==> ParseOid(w.commentId).Ok? && AcceptsReply(store.comments, ParseOid(w.commentId).value)
  }

  /** The store after a commit. */
  function Written(store: Store, w: Write): Store
    requires Committable(store, w)
  {
    match w
    case PostComment(oid, comment) => store.(comments := Inserted(store.comments, oid, comment))
    case PostReply(commentId, reply, updatedAt) =>
      store.(comments := Replied(store.comments, ParseOid(commentId).value, reply, updatedAt))
    case PostProject(project) => store.(projects := store.projects + [project])
  }

  /** The listing a write goes to: of the comment's task, of the task of the comment replied to, or of the projects. */
  predicate GoesTo(store: Store, w: Write, res: Resource) {
    match w
    case PostComment(_, comment) => res == Comments(comment.taskId)
    case PostReply(commentId, _, _) =>
      && res.Comments? && ParseOid(commentId).Ok?
      && TaskOf(store.comments, ParseOid(commentId).value) == Some(res.taskId)
    case PostProject(_) => res == Projects
  }

  /** Whether the invalidation of a write erases `key`; `taskId` is what the lookup of a reply returned. */
  predicate Erases(w: Write, taskId: int32, key: string) {
    match w
    case PostComment(_, comment) => key == CommentsKey(comment.taskId)
    case PostReply(_, _, _) => if taskId > 0 then key == CommentsKey(taskId) else StartsWith(key, COMMENTS_PREFIX)
    case PostProject(_) => key == PROJECTS_KEY
  }

  function Erased<T>(cache: map<string, T>, w: Write, taskId: int32): set<string> {
    set key | key in cache && Erases(w, taskId, key)
  }

  /** A cached response with the positions of the snapshot it shows, of the database read and of the `Set`. */
  datatype Entry = Entry(res: Resource, value: Rows, expiresAt: int, snapshot: nat, readAt: nat, setAt: nat)

  datatype Handler =
    | Reading(res: Resource, begunAt: nat)
    | Missed(res: Resource, begunAt: nat)
    | Fetched(res: Resource, begunAt: nat, value: Rows, snapshot: nat, readAt: nat)
    | Responded(res: Resource, begunAt: nat, value: Rows, snapshot: nat, setAt: nat, servedAt: nat)
    | Writing(write: Write)
    | LookedUp(write: Write, taskId: int32)
    | Committed(write: Write, taskId: int32)
    | Finished

  datatype State = State(store: Store, cache: map<string, Entry>, handlers: map<nat, Handler>)

  datatype Action =
    | BeginRead(res: Resource)
    | Get
    | DbRead(snapshot: nat)
    | Set
    | BeginWrite(write: Write)
    | Lookup(reachable: bool)
    | Commit
    | Invalidate

  datatype Event = Event(at: int, id: nat, action: Action)

  datatype Run = Run(states: seq<State>, events: seq<Event>)

  function Move(s: State, id: nat, h: Handler): State {
    s.(handlers := s.handlers[id := h])
  }

  /** The state after event `i`, provided the event is enabled. A database read returns the store at `snapshot`: the
      current position on the primary, any earlier one on a replica, which serves the projects. One that throws is a
      handler that stops. */
  ghost predicate Step(run: Run, i: nat)
    requires i < |run.events| && |run.states| == |run.events| + 1
  {
    var s, e, s' := run.states[i], run.events[i], run.states[i + 1];
    var starts := e.action.BeginRead? || e.action.BeginWrite?;
    && (starts <==> e.id !in s.handlers)
    && match e.action
       case BeginRead(res) => s' == Move(s, e.id, Reading(res, i))
       case BeginWrite(w) => s' == Move(s, e.id, Writing(w))
       case Get =>
         && s.handlers[e.id].Reading?
         && var h := s.handlers[e.id];
            var key := KeyOf(h.res);
            if key in s.cache && e.at <= s.cache[key].expiresAt
            then var hit := s.cache[key];
                 s' == Move(s, e.id, Responded(h.res, h.begunAt, hit.value, hit.snapshot, hit.setAt, i))
            else s' == Move(s.(cache := s.cache - {key}), e.id, Missed(h.res, h.begunAt))
       case DbRead(snapshot) =>
         && s.handlers[e.id].Missed? && snapshot <= i && (s.handlers[e.id].res.Comments? ==> snapshot == i)
         && var h := s.handlers[e.id];
            var rows := View(run.states[snapshot].store, h.res);
            rows.Ok? && s' == Move(s, e.id, Fetched(h.res, h.begunAt, rows.value, snapshot, i))
       case Set =>
         && s.handlers[e.id].Fetched?
         && var h := s.handlers[e.id];
            var entry := Entry(h.res, h.value, e.at + TimeToLive(h.res), h.snapshot, h.readAt, i);
            s' == Move(s.(cache := s.cache[KeyOf(h.res) := entry]), e.id,
                       Responded(h.res, h.begunAt, h.value, h.snapshot, i, i))
       case Lookup(reachable) =>
         && s.handlers[e.id].Writing? && s.handlers[e.id].write.PostReply?
         && var w := s.handlers[e.id].write;
            s' == Move(s, e.id, LookedUp(w, TaskIdFor(s.store.comments, w.commentId, reachable)))
       case Commit =>
         var h := s.handlers[e.id];
         && (if h.Writing? then !h.write.PostReply? else h.LookedUp? && h.write.PostReply?)
         && Committable(s.store, h.write)
         && s' == Move(s.(store := Written(s.store, h.write)), e.id,
                       Committed(h.write, if h.LookedUp? then h.taskId else 0))
       case Invalidate =>
         && s.handlers[e.id].Committed?
         && var h := s.handlers[e.id];
            s' == Move(s.(cache := s.cache - Erased(s.cache, h.write, h.taskId)), e.id, Finished)
  }

  /** Runs start with any store, an empty cache and no handler, and the clock never runs backwards. */
  ghost predicate IsRun(run: Run) {
    && |run.states| == |run.events| + 1
    && run.states[0].cache == map[] && run.states[0].handlers == map[]
    && (forall i: nat :: i < |run.events| ==> Step(run, i))
    && (forall i, j :: 0 <= i <= j < |run.events| ==> run.events[i].at <= run.events[j].at)
  }

  // ---------- what the results speak about ----------

  /** Event `c` commits a write that changes what `res` shows. */
  ghost predicate Changes(run: Run, c: nat, res: Resource)
    requires IsRun(run)
  {
    c < |run.events| && run.events[c].action.Commit? &&
    View(run.states[c].store, res) != View(run.states[c + 1].store, res)
  }

  /** Event `v` is the invalidation by the handler that committed at `c`. */
  ghost predicate InvalidationOf(run: Run, c: nat, v: nat) {
    c < v < |run.events| && run.events[v].action.Invalidate? && run.events[v].id == run.events[c].id
  }

  /** A span from a snapshot to a `Set` encloses both a commit for `res` and the invalidation that goes with it. */
  ghost predicate Straddles(run: Run, snapshot: nat, c: nat, v: nat, setAt: nat, res: Resource)
    requires IsRun(run)
  {
    snapshot <= c < v < setAt && Changes(run, c, res) && InvalidationOf(run, c, v)
  }

  /** In state `n` the write committed at `c` still has its invalidation to come. */
  ghost predicate Pending(run: Run, n: nat, c: nat, res: Resource)
    requires IsRun(run)
  {
    c < n && Changes(run, c, res) && forall v :: c < v < n ==> !InvalidationOf(run, c, v)
  }

  /** Event `v` is an invalidation that erases `key`. */
  ghost predicate ErasedAt(run: Run, v: nat, key: string)
    requires IsRun(run)
  {
    && v < |run.events| && run.events[v].action.Invalidate?
    && run.events[v].id in run.states[v].handlers
    && var h := run.states[v].handlers[run.events[v].id];
       h.Committed? && Erases(h.write, h.taskId, key)
  }

  /** Event `s` is a `Set` of rows of `res` that were read at `readAt` from the store at `snapshot`. */
  ghost predicate SetOf(run: Run, s: nat, res: Resource, snapshot: nat, readAt: nat)
    requires IsRun(run)
  {
    && s < |run.events| && run.events[s].action.Set?
    && run.events[s].id in run.states[s].handlers
    && var h := run.states[s].handlers[run.events[s].id];
       h.Fetched? && h.res == res && h.snapshot == snapshot && h.readAt == readAt
  }

  // ---------- writers: every invalidation covers its commit ----------

  /** A positive answer of a lookup stays the task of the comment until the commit. */
  lemma {:induction false} LookupHolds(run: Run, n: nat, id: nat)
    requires IsRun(run) && n <= |run.events|
    requires id in run.states[n].handlers && run.states[n].handlers[id].LookedUp?
    ensures var h := run.states[n].handlers[id];
            && h.write.PostReply?
            && (ParseOid(h.write.commentId).Ok? && h.taskId > 0 ==>
                  TaskOf(run.states[n].store.comments, ParseOid(h.write.commentId).value) == Some(h.taskId))
  {
    if n > 0 {
      var e := run.events[n - 1];
      assert Step(run, n - 1);
      if e.id != id {
        LookupHolds(run, n - 1, id);
        var h := run.states[n].handlers[id];
        if e.action.Commit? && ParseOid(h.write.commentId).Ok? && h.taskId > 0 {
          WrittenKeepsTask(run.states[n - 1].store, run.states[n - 1].handlers[e.id].write,
                           ParseOid(h.write.commentId).value);
        }
      }
    }
  }

  lemma WrittenKeepsTask(store: Store, w: Write, oid: string)
    requires Committable(store, w) && TaskOf(store.comments, oid).Some?
    ensures TaskOf(Written(store, w).comments, oid) == TaskOf(store.comments, oid)
  {
    match w
    case PostComment(other, c) => TaskOfStable(store.comments, oid, other, c, Reply("", "", 0), 0);
    case PostReply(id, reply, now) =>
      TaskOfStable(store.comments, oid, ParseOid(id).value, Comment("", 0, "", 0, "", 0, None, []), reply, now);
    case PostProject(_) =>
  }

  /** A write changes the listing it goes to, as long as that can be read, and no other listing at all. */
  lemma ChangesIffGoesTo(store: Store, w: Write, res: Resource)
    requires Committable(store, w)
    ensures View(Written(store, w), res) != View(store, res) ==> GoesTo(store, w, res)
    ensures GoesTo(store, w, res) && View(store, res).Ok? ==>
              View(Written(store, w), res).Ok? && View(Written(store, w), res) != View(store, res)
  {
    match w
    case PostComment(oid, c) =>
      if res.Comments? {
        InsertedElsewhere(store.comments, oid, c, res.taskId);
      }
    case PostReply(id, reply, now) =>
      if res.Comments? {
        if TaskOf(store.comments, ParseOid(id).value) != Some(res.taskId) {
          RepliedElsewhere(store.comments, ParseOid(id).value, reply, now, res.taskId);
        } else if View(store, res).Ok? {
          RepliedShows(store.comments, ParseOid(id).value, reply, now, res.taskId);
        }
      }
    case PostProject(project) => assert |store.projects + [project]| > |store.projects|;
  }

  /** The keys a write erases include the key of the listing it goes to. */
  lemma WriteErases(store: Store, w: Write, taskId: int32, res: Resource)
    requires GoesTo(store, w, res)
    requires w.PostReply? && taskId > 0 ==> TaskOf(store.comments, ParseOid(w.commentId).value) == Some(taskId)
    ensures Erases(w, taskId, KeyOf(res))
  {
    if res.Comments? {
      SweepHitsCommentsOnly(res.taskId);
    }
  }

  lemma {:induction false} StaysCommitted(run: Run, c: nat, n: nat)
    requires IsRun(run) && c < n <= |run.events| && run.events[c].action.Commit?
    ensures var id := run.events[c].id;
            && id in run.states[c + 1].handlers && run.states[c + 1].handlers[id].Committed?
            && id in run.states[n].handlers
            && (run.states[n].handlers[id] == run.states[c + 1].handlers[id] || run.states[n].handlers[id].Finished?)
  {
    assert Step(run, c);
    if c + 1 < n {
      StaysCommitted(run, c, n - 1);
      assert Step(run, n - 1);
    }
  }

  /** The invalidation that follows a commit erases the key of every resource the commit changed. */
  lemma InvalidationErases(run: Run, c: nat, v: nat, res: Resource)
    requires IsRun(run) && Changes(run, c, res) && InvalidationOf(run, c, v)
    ensures ErasedAt(run, v, KeyOf(res))
  {
    var id := run.events[c].id;
    StaysCommitted(run, c, v);
    assert Step(run, c) && Step(run, v);
    var h := run.states[c].handlers[id];
    if h.LookedUp? {
      LookupHolds(run, c, id);
    }
    ChangesIffGoesTo(run.states[c].store, h.write, res);
    WriteErases(run.states[c].store, h.write, if h.LookedUp? then h.taskId else 0, res);
  }

  /** Between two positions a view changes only by a commit in between. */
  lemma {:induction false} SomethingChanged(run: Run, i: nat, n: nat, res: Resource) returns (c: nat)
    requires IsRun(run) && i <= n <= |run.events|
    requires View(run.states[i].store, res) != View(run.states[n].store, res)
    ensures i <= c < n && Changes(run, c, res)
  {
    assert Step(run, n - 1);
    if View(run.states[n - 1].store, res) != View(run.states[n].store, res) {
      c := n - 1;
    } else {
      c := SomethingChanged(run, i, n - 1, res);
    }
  }

  // ---------- readers: where rows and entries come from ----------

  ghost predicate FetchSound(run: Run, n: nat, h: Handler)
    requires IsRun(run) && n <= |run.events| && h.Fetched?
  {
    && h.snapshot <= h.readAt < n && h.begunAt < n
    && run.events[h.readAt].action == DbRead(h.snapshot)
    && (h.res.Comments? ==> h.snapshot == h.readAt)
    && View(run.states[h.snapshot].store, h.res) == Ok(h.value)
  }

  lemma {:induction false} FetchedSound(run: Run, n: nat, id: nat)
    requires IsRun(run) && n <= |run.events|
    requires id in run.states[n].handlers
    ensures run.states[n].handlers[id].Reading? || run.states[n].handlers[id].Missed? ==>
              run.states[n].handlers[id].begunAt < n
    ensures run.states[n].handlers[id].Fetched? ==> FetchSound(run, n, run.states[n].handlers[id])
  {
    if n > 0 {
      assert Step(run, n - 1);
      if id in run.states[n - 1].handlers {
        FetchedSound(run, n - 1, id);
      }
    }
  }

  /** An entry is what one `Set` wrote: the rows of some past store, read before the `Set`, and not erased since. */
  ghost predicate EntrySound(run: Run, n: nat, key: string, entry: Entry)
    requires IsRun(run) && n <= |run.events|
  {
    && KeyOf(entry.res) == key
    && entry.snapshot <= entry.readAt < entry.setAt < n
    && SetOf(run, entry.setAt, entry.res, entry.snapshot, entry.readAt)
    && run.events[entry.readAt].action == DbRead(entry.snapshot)
    && (entry.res.Comments? ==> entry.snapshot == entry.readAt)
    && View(run.states[entry.snapshot].store, entry.res) == Ok(entry.value)
    && entry.expiresAt == run.events[entry.setAt].at + TimeToLive(entry.res)
    && forall v :: entry.setAt < v < n ==> !ErasedAt(run, v, key)
  }

  /** What a `Set` writes is sound. */
  lemma SetSound(run: Run, i: nat, key: string)
    requires IsRun(run) && i < |run.events| && run.events[i].action.Set?
    requires run.events[i].id in run.states[i].handlers && run.states[i].handlers[run.events[i].id].Fetched?
    requires KeyOf(run.states[i].handlers[run.events[i].id].res) == key && key in run.states[i + 1].cache
    ensures EntrySound(run, i + 1, key, run.states[i + 1].cache[key])
  {
    var id := run.events[i].id;
    assert Step(run, i);
    FetchedSound(run, i, id);
    var entry := run.states[i + 1].cache[key];
    assert SetOf(run, i, entry.res, entry.snapshot, entry.readAt);
  }

  /** Any other step leaves an entry alone or erases it. */
  lemma EntryKept(run: Run, i: nat, key: string)
    requires IsRun(run) && i < |run.events| && key in run.states[i + 1].cache
    requires run.events[i].action.Set? ==>
               && run.events[i].id in run.states[i].handlers && run.states[i].handlers[run.events[i].id].Fetched?
               && KeyOf(run.states[i].handlers[run.events[i].id].res) != key
    ensures key in run.states[i].cache && run.states[i + 1].cache[key] == run.states[i].cache[key]
    ensures !ErasedAt(run, i, key)
  {
    assert Step(run, i);
  }

  lemma {:induction false} EntriesSound(run: Run, n: nat, key: string)
    requires IsRun(run) && n <= |run.events| && key in run.states[n].cache
    ensures EntrySound(run, n, key, run.states[n].cache[key])
  {
    if n > 0 {
      var i := n - 1;
      var e := run.events[i];
      assert e.action.Set? ==> e.id in run.states[i].handlers && run.states[i].handlers[e.id].Fetched? by {
        assert Step(run, i);
      }
      if e.action.Set? && KeyOf(run.states[i].handlers[e.id].res) == key {
        SetSound(run, i, key);
      } else {
        EntryKept(run, i, key);
        EntriesSound(run, i, key);
      }
    }
  }

  // ---------- main results ----------

  /** Fresh or explained. A cached entry that differs from the store as it is now is accounted for by a commit after
      its snapshot: either that writer has not invalidated yet, or it invalidated before the entry was set. */
  lemma FreshOrExplained(run: Run, n: nat, key: string)
    requires IsRun(run) && n <= |run.events| && key in run.states[n].cache
    ensures var entry := run.states[n].cache[key];
            && EntrySound(run, n, key, entry)
            && (|| View(run.states[n].store, entry.res) == Ok(entry.value)
                || (exists c :: entry.snapshot <= c && Pending(run, n, c, entry.res))
                || (exists c, v :: Straddles(run, entry.snapshot, c, v, entry.setAt, entry.res)))
  {
    var entry := run.states[n].cache[key];
    EntriesSound(run, n, key);
    if View(run.states[n].store, entry.res) != Ok(entry.value) {
      var c := SomethingChanged(run, entry.snapshot, n, entry.res);
      if v :| c < v < n && InvalidationOf(run, c, v) {
        InvalidationErases(run, c, v, entry.res);
        assert v < entry.setAt by {
          assert run.events[v].action != run.events[entry.setAt].action;
        }
        assert Straddles(run, entry.snapshot, c, v, entry.setAt, entry.res);
      } else {
        assert Pending(run, n, c, entry.res);
      }
    }
  }
}
