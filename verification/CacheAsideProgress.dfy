/** The protocol never blocks a handler: from any state of any run, every handler that has not finished can take its
    next step, whatever the others are doing. So the results about runs speak of every way of serving requests. */
module CacheAsideProgress {
  import opened Results
  import opened CacheKeys
  import opened CommentCollection
  import opened ServiceModel
  import opened CacheAside

  function Last(run: Run): State
    requires |run.states| > 0
  {
    run.states[|run.states| - 1]
  }

  function Longer(run: Run, e: Event, s: State): Run {
    Run(run.states + [s], run.events + [e])
  }

  /** The clock has not passed `at`. */
  ghost predicate NotAfter(run: Run, at: int) {
    forall i :: 0 <= i < |run.events| ==> run.events[i].at <= at
  }

  lemma StepStays(run: Run, e: Event, s: State, i: nat)
    requires IsRun(run) && i < |run.events|
    ensures Step(Longer(run, e, s), i)
  {
    assert Step(run, i);
    var longer := Longer(run, e, s);
    assert longer.states[i] == run.states[i] && longer.states[i + 1] == run.states[i + 1];
    assert longer.events[i] == run.events[i];
    if run.events[i].action.DbRead? {
      var snapshot := run.events[i].action.snapshot;
      assert longer.states[snapshot] == run.states[snapshot];
    }
  }

  lemma Extends(run: Run, e: Event, s: State)
    requires IsRun(run) && NotAfter(run, e.at)
    requires |Longer(run, e, s).states| == |Longer(run, e, s).events| + 1 && Step(Longer(run, e, s), |run.events|)
    ensures IsRun(Longer(run, e, s))
  {
    var longer := Longer(run, e, s);
    forall i: nat | i < |longer.events|
      ensures Step(longer, i)
    {
      if i < |run.events| {
        StepStays(run, e, s, i);
      }
    }
  }

  /** Any number of handlers can begin. */
  lemma Begins(run: Run, id: nat, at: int, action: Action) returns (longer: Run)
    requires IsRun(run) && NotAfter(run, at) && id !in Last(run).handlers
    requires action.BeginRead? || action.BeginWrite?
    ensures IsRun(longer) && longer.events == run.events + [Event(at, id, action)]
    ensures id in Last(longer).handlers
    ensures Last(longer).handlers[id] ==
            if action.BeginRead? then Reading(action.res, |run.events|) else Writing(action.write)
  {
    var h := if action.BeginRead? then Reading(action.res, |run.events|) else Writing(action.write);
    var e, s := Event(at, id, action), Move(Last(run), id, h);
    Extends(run, e, s);
    longer := Longer(run, e, s);
  }

  /** The step a reader takes next. */
  lemma ReaderGoesOn(run: Run, id: nat, at: int) returns (longer: Run)
    requires IsRun(run) && NotAfter(run, at) && id in Last(run).handlers
    requires var h := Last(run).handlers[id];
             h.Reading? || (h.Missed? && View(Last(run).store, h.res).Ok?) || h.Fetched?
    ensures IsRun(longer) && |longer.events| == |run.events| + 1 && id in Last(longer).handlers
    ensures longer.events[|run.events|].id == id && longer.events[|run.events|].at == at
    ensures var h, next := Last(run).handlers[id], Last(longer).handlers[id];
            match h
            case Reading(_, _) => next.Missed? || next.Responded?
            case Missed(_, _) => next.Fetched? && Ok(next.value) == View(Last(run).store, h.res)
            case _ => next.Responded? && next.value == h.value
  {
    var n, s := |run.events|, Last(run);
    var h := s.handlers[id];
    match h
    case Reading(res, begunAt) =>
      var key := KeyOf(res);
      var after :=
        if key in s.cache && at <= s.cache[key].expiresAt
        then Move(s, id, Responded(res, begunAt, s.cache[key].value, s.cache[key].snapshot, s.cache[key].setAt, n))
        else Move(s.(cache := s.cache - {key}), id, Missed(res, begunAt));
      Extends(run, Event(at, id, Get), after);
      longer := Longer(run, Event(at, id, Get), after);
    case Missed(res, begunAt) =>
      var after := Move(s, id, Fetched(res, begunAt, View(s.store, res).value, n, n));
      assert Longer(run, Event(at, id, DbRead(n)), after).states[n] == s;
      Extends(run, Event(at, id, DbRead(n)), after);
      longer := Longer(run, Event(at, id, DbRead(n)), after);
    case Fetched(res, begunAt, value, snapshot, readAt) =>
      var entry := Entry(res, value, at + TimeToLive(res), snapshot, readAt, n);
      var after := Move(s.(cache := s.cache[KeyOf(res) := entry]), id, Responded(res, begunAt, value, snapshot, n, n));
      Extends(run, Event(at, id, Set), after);
      longer := Longer(run, Event(at, id, Set), after);
  }

  /** The step a writer takes next. */
  lemma WriterGoesOn(run: Run, id: nat, at: int, reachable: bool) returns (longer: Run)
    requires IsRun(run) && NotAfter(run, at) && id in Last(run).handlers
    requires var h := Last(run).handlers[id];
             || (h.Writing? && (h.write.PostReply? || Committable(Last(run).store, h.write)))
             || (h.LookedUp? && h.write.PostReply? && Committable(Last(run).store, h.write))
             || h.Committed?
    ensures IsRun(longer) && |longer.events| == |run.events| + 1 && id in Last(longer).handlers
    ensures longer.events[|run.events|].id == id && longer.events[|run.events|].at == at
    ensures var h, next := Last(run).handlers[id], Last(longer).handlers[id];
            match h
            case Writing(w) =>
              if w.PostReply? then next.LookedUp? && next.write == w
              else next.Committed? && Last(longer).store == Written(Last(run).store, w)
            case LookedUp(_, _) => next.Committed? && Last(longer).store == Written(Last(run).store, h.write)
            case _ => next.Finished?
  {
    var s := Last(run);
    var h := s.handlers[id];
    match h
    case Writing(w) =>
      if w.PostReply? {
        var after := Move(s, id, LookedUp(w, TaskIdFor(s.store.comments, w.commentId, reachable)));
        Extends(run, Event(at, id, Lookup(reachable)), after);
        longer := Longer(run, Event(at, id, Lookup(reachable)), after);
      } else {
        var after := Move(s.(store := Written(s.store, w)), id, Committed(w, 0));
        Extends(run, Event(at, id, Commit), after);
        longer := Longer(run, Event(at, id, Commit), after);
      }
    case LookedUp(w, taskId) =>
      var after := Move(s.(store := Written(s.store, w)), id, Committed(w, taskId));
      Extends(run, Event(at, id, Commit), after);
      longer := Longer(run, Event(at, id, Commit), after);
    case Committed(w, taskId) =>
      var after := Move(s.(cache := s.cache - Erased(s.cache, w, taskId)), id, Finished);
      Extends(run, Event(at, id, Invalidate), after);
      longer := Longer(run, Event(at, id, Invalidate), after);
  }
}
