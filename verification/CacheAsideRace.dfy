/** The race that cache-aside leaves open: a reader that read before a commit may set after its invalidation. It is
    there for comments and for projects. */
module CacheAsideRace {
  import opened Results
  import opened MachineInts
  import opened CacheKeys
  import opened ServiceModel
  import opened CacheAside
  import opened CacheAsideWrites

  const EMPTY := Store([], [])

  function NoRows(res: Resource): Rows {
    if res.Comments? then CommentRows([]) else ProjectRows([])
  }

  /** A new comment and the listing of its task, or a new project and the list of the projects. */
  predicate Racing(res: Resource, w: Write) {
    !w.PostReply? && GoesTo(EMPTY, w, res)
  }

  /** Reader 0 reads the empty listing; writer 1 writes and invalidates; reader 0 sets; reader 2 begins and, `wait`
      after the read, is served from the cache. */
  function RaceEvents(res: Resource, w: Write, wait: int): seq<Event> {
    [Event(0, 0, BeginRead(res)), Event(0, 0, Get), Event(0, 0, DbRead(2)),
     Event(0, 1, BeginWrite(w)), Event(0, 1, Commit), Event(0, 1, Invalidate),
     Event(0, 0, Set), Event(0, 2, BeginRead(res)), Event(wait, 2, Get)]
  }

  function RaceStates(res: Resource, w: Write): seq<State>
    requires Racing(res, w)
  {
    var rows, store := NoRows(res), Written(EMPTY, w);
    var fetched := Fetched(res, 0, rows, 2, 2);
    var served := Responded(res, 0, rows, 2, 6, 6);
    var stale := map[KeyOf(res) := Entry(res, rows, TimeToLive(res), 2, 2, 6)];
    [State(EMPTY, map[], map[]),
     State(EMPTY, map[], map[0 := Reading(res, 0)]),
     State(EMPTY, map[], map[0 := Missed(res, 0)]),
     State(EMPTY, map[], map[0 := fetched]),
     State(EMPTY, map[], map[0 := fetched, 1 := Writing(w)]),
     State(store, map[], map[0 := fetched, 1 := Committed(w, 0)]),
     State(store, map[], map[0 := fetched, 1 := Finished]),
     State(store, stale, map[0 := served, 1 := Finished]),
     State(store, stale, map[0 := served, 1 := Finished, 2 := Reading(res, 7)]),
     State(store, stale, map[0 := served, 1 := Finished, 2 := Responded(res, 7, rows, 2, 6, 8)])]
  }

  function Race(res: Resource, w: Write, wait: int): Run
    requires Racing(res, w)
  {
    Run(RaceStates(res, w), RaceEvents(res, w, wait))
  }

  lemma EmptyView(res: Resource)
    ensures View(EMPTY, res) == Ok(NoRows(res))
  {
  }

  lemma ReaderBegins(res: Resource, w: Write, wait: int)
    requires Racing(res, w)
    ensures Step(Race(res, w, wait), 0)
  {
  }

  lemma ReaderMisses(res: Resource, w: Write, wait: int)
    requires Racing(res, w)
    ensures Step(Race(res, w, wait), 1)
  {
  }

  lemma ReaderFetches(res: Resource, w: Write, wait: int)
    requires Racing(res, w)
    ensures Step(Race(res, w, wait), 2)
  {
    EmptyView(res);
  }

  lemma WriterBegins(res: Resource, w: Write, wait: int)
    requires Racing(res, w)
    ensures Step(Race(res, w, wait), 3)
  {
  }

  lemma WriterCommits(res: Resource, w: Write, wait: int)
    requires Racing(res, w)
    ensures Step(Race(res, w, wait), 4)
  {
  }

  lemma WriterInvalidates(res: Resource, w: Write, wait: int)
    requires Racing(res, w)
    ensures Step(Race(res, w, wait), 5)
  {
  }

  lemma ReaderSets(res: Resource, w: Write, wait: int)
    requires Racing(res, w)
    ensures Step(Race(res, w, wait), 6)
  {
  }

  lemma OtherBegins(res: Resource, w: Write, wait: int)
    requires Racing(res, w)
    ensures Step(Race(res, w, wait), 7)
  {
  }

  lemma OtherHits(res: Resource, w: Write, wait: int)
    requires Racing(res, w) && wait <= TimeToLive(res)
    ensures Step(Race(res, w, wait), 8)
  {
  }

  lemma RaceRuns(res: Resource, w: Write, wait: int)
    requires Racing(res, w) && 0 <= wait <= TimeToLive(res)
    ensures IsRun(Race(res, w, wait))
  {
    forall i: nat | i < 9
      ensures Step(Race(res, w, wait), i)
    {
      match i
      case 0 => ReaderBegins(res, w, wait);
      case 1 => ReaderMisses(res, w, wait);
      case 2 => ReaderFetches(res, w, wait);
      case 3 => WriterBegins(res, w, wait);
      case 4 => WriterCommits(res, w, wait);
      case 5 => WriterInvalidates(res, w, wait);
      case 6 => ReaderSets(res, w, wait);
      case 7 => OtherBegins(res, w, wait);
      case _ => OtherHits(res, w, wait);
    }
  }

  /** Without the side condition completed writes can stay invisible, and the bounds on staleness are attained: the
      write at event 4 was invalidated at event 5, the request began at event 7, and its response, served exactly sixty
      or three hundred seconds after the database read, still lacks the comment or the project. */
  lemma RaceIsReal(res: Resource, w: Write) returns (run: Run)
    requires Racing(res, w)
    ensures IsRun(run) && |run.events| == 9
    ensures CommitsTo(run, 4, w, res) && InvalidationOf(run, 4, 5)
    ensures 2 in run.states[9].handlers
    ensures var h := run.states[9].handlers[2];
            && h.Responded? && h.res == res && h.snapshot == 2 && h.setAt == 6 && h.begunAt == 7 && h.servedAt == 8
            && h.value == NoRows(res) && !Shows(h.value, w)
            && run.events[8].at - run.events[2].at == (if res.Comments? then 60 else 300) * SECOND
            && Straddles(run, 2, 4, 5, 6, res)
  {
    run := Race(res, w, (if res.Comments? then 60 else 300) * SECOND);
    RaceRuns(res, w, (if res.Comments? then 60 else 300) * SECOND);
    EmptyView(res);
    CommitChanges(run, 2, 4, res, w);
  }
}
