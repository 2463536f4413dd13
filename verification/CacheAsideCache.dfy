/** The cache steps of the protocol are calls of the cache component. Without the bookkeeping of its entries, and with
    their rows rendered, the cache of a run goes through the states that the component's operations lead to. */
module CacheAsideCache {
  import opened Results
  import opened CacheKeys
  import opened ServiceModel
  import CacheModel
  import opened CacheAside

  /** The component's cache holds the same keys, with the rows rendered and the same expiries. */
  ghost predicate Mirrors(cache: map<string, Entry>, plain: CacheModel.Cache, render: Rows -> string) {
    && (forall key :: key in plain <==> key in cache)
    && (forall key :: key in cache ==>
          plain[key] == CacheModel.CacheEntry(render(cache[key].value), cache[key].expiresAt))
  }

  /** The call of the component that event `i` makes, if any. */
  function OpAt(run: Run, i: nat, render: Rows -> string): seq<CacheModel.Op>
    requires i < |run.events| <= |run.states| && run.events[i].id in run.states[i].handlers
  {
    var e, h := run.events[i], run.states[i].handlers[run.events[i].id];
    if e.action.Get? && h.Reading? then [CacheModel.Get(KeyOf(h.res), e.at)]
    else if e.action.Set? && h.Fetched? then
      [CacheModel.Set(KeyOf(h.res), render(h.value), TtlSeconds(h.res), e.at)]
    else if e.action.Invalidate? && h.Committed? then
      match h.write
      case PostComment(_, comment) => [CacheModel.Invalidate(CommentsKey(comment.taskId), e.at)]
      case PostReply(_, _, _) =>
        if h.taskId > 0 then [CacheModel.Invalidate(CommentsKey(h.taskId), e.at)]
        else [CacheModel.InvalidateByPrefix(COMMENTS_PREFIX, e.at)]
      case PostProject(_) => [CacheModel.Invalidate(PROJECTS_KEY, e.at)]
    else []
  }

  /** The calls that the first `n` events make, in order. */
  ghost function Ops(run: Run, n: nat, render: Rows -> string): seq<CacheModel.Op>
    requires IsRun(run) && n <= |run.events|
  {
    if n == 0 then []
    else if run.events[n - 1].id in run.states[n - 1].handlers
    then Ops(run, n - 1, render) + OpAt(run, n - 1, render)
    else Ops(run, n - 1, render)
  }

  lemma GetRefines(run: Run, i: nat, render: Rows -> string, before: CacheModel.Cache)
    requires IsRun(run) && i < |run.events| && run.events[i].action.Get? && Mirrors(run.states[i].cache, before, render)
    ensures run.events[i].id in run.states[i].handlers && |OpAt(run, i, render)| == 1
    ensures run.events[i].id in run.states[i + 1].handlers
    ensures var (after, value) := CacheModel.Step(CacheModel.Lazy, before, OpAt(run, i, render)[0]);
            var next := run.states[i + 1].handlers[run.events[i].id];
            && Mirrors(run.states[i + 1].cache, after, render)
            && value == if next.Responded? then Some(render(next.value)) else None
  {
    assert Step(run, i);
  }

  lemma SetRefines(run: Run, i: nat, render: Rows -> string, before: CacheModel.Cache)
    requires IsRun(run) && i < |run.events| && run.events[i].action.Set? && Mirrors(run.states[i].cache, before, render)
    ensures run.events[i].id in run.states[i].handlers && |OpAt(run, i, render)| == 1
    ensures Mirrors(run.states[i + 1].cache,
                    CacheModel.Step(CacheModel.Lazy, before, OpAt(run, i, render)[0]).0, render)
  {
    assert Step(run, i);
  }

  lemma InvalidateRefines(run: Run, i: nat, render: Rows -> string, before: CacheModel.Cache)
    requires IsRun(run) && i < |run.events| && run.events[i].action.Invalidate?
    requires Mirrors(run.states[i].cache, before, render)
    ensures run.events[i].id in run.states[i].handlers && |OpAt(run, i, render)| == 1
    ensures Mirrors(run.states[i + 1].cache,
                    CacheModel.Step(CacheModel.Lazy, before, OpAt(run, i, render)[0]).0, render)
  {
    assert Step(run, i);
    var h := run.states[i].handlers[run.events[i].id];
    var after := CacheModel.Step(CacheModel.Lazy, before, OpAt(run, i, render)[0]).0;
    forall key
      ensures key in after <==> key in run.states[i + 1].cache
    {
      assert key in run.states[i + 1].cache <==> key in run.states[i].cache && !Erases(h.write, h.taskId, key);
    }
  }

  lemma OthersLeaveCache(run: Run, i: nat, render: Rows -> string)
    requires IsRun(run) && i < |run.events|
    requires var action := run.events[i].action;
             !action.Get? && !action.Set? && !action.Invalidate?
    ensures run.states[i + 1].cache == run.states[i].cache
    ensures run.events[i].id in run.states[i].handlers ==> OpAt(run, i, render) == []
  {
    assert Step(run, i);
  }

  /** At every point of every run the cache is what the component holds after the calls made so far. So what holds of
      the component -- that no policy of expiry can be told from another, that the sweep is a sequence of
      invalidations -- holds of the protocol. */
  lemma {:induction false} CacheRefines(run: Run, n: nat, render: Rows -> string)
    requires IsRun(run) && n <= |run.events|
    ensures Mirrors(run.states[n].cache, CacheModel.CacheAfter(CacheModel.Lazy, Ops(run, n, render)), render)
  {
    if n > 0 {
      var i := n - 1;
      CacheRefines(run, i, render);
      var ops := Ops(run, i, render);
      var before := CacheModel.CacheAfter(CacheModel.Lazy, ops);
      match run.events[i].action
      case Get => GetRefines(run, i, render, before); Snoc(ops, OpAt(run, i, render)[0]);
      case Set => SetRefines(run, i, render, before); Snoc(ops, OpAt(run, i, render)[0]);
      case Invalidate => InvalidateRefines(run, i, render, before); Snoc(ops, OpAt(run, i, render)[0]);
      case _ =>
        OthersLeaveCache(run, i, render);
        assert ops + [] == ops;
    }
  }

  lemma Snoc(ops: seq<CacheModel.Op>, op: CacheModel.Op)
    ensures CacheModel.CacheAfter(CacheModel.Lazy, ops + [op]) ==
            CacheModel.Step(CacheModel.Lazy, CacheModel.CacheAfter(CacheModel.Lazy, ops), op).0
  {
    assert (ops + [op])[..|ops|] == ops;
  }
}
