/** What clients of the cache-aside protocol see: which writes a response reflects, and how old it can be. */
module CacheAsideResponses {
  import opened Results
  import opened MachineInts
  import opened CacheKeys
  import opened ServiceModel
  import opened CacheAside
  import opened CacheAsideWrites

  /** The response served in a run of `n` events is the render of a store from before it was served. */
  ghost predicate ShowsPastStore(run: Run, n: nat, h: Handler)
    requires IsRun(run) && n <= |run.events| && h.Responded?
  {
    && h.snapshot < h.servedAt < n
    && View(run.states[h.snapshot].store, h.res) == Ok(h.value)
  }

  /** A response shows a past store. It was set into the cache by one `Set`, from which it was served at once or, if
      it was a hit, before anything erased it and before it expired. */
  ghost predicate ResponseSound(run: Run, n: nat, h: Handler)
    requires IsRun(run) && n <= |run.events| && h.Responded?
  {
    && ShowsPastStore(run, n, h)
    && h.snapshot < h.setAt <= h.servedAt && h.begunAt < h.servedAt
    && (exists readAt: nat :: readAt < h.setAt && SetOf(run, h.setAt, h.res, h.snapshot, readAt) &&
                              run.events[readAt].action == DbRead(h.snapshot))
    && (forall v :: h.setAt < v < h.servedAt ==> !ErasedAt(run, v, KeyOf(h.res)))
    && (h.setAt == h.servedAt || run.events[h.servedAt].at <= run.events[h.setAt].at + TimeToLive(h.res))
  }

  /** A hit serves a sound entry that has not expired. */
  lemma HitSound(run: Run, i: nat, id: nat)
    requires IsRun(run) && i < |run.events| && run.events[i].id == id && run.events[i].action.Get?
    requires id in run.states[i + 1].handlers && run.states[i + 1].handlers[id].Responded?
    ensures ResponseSound(run, i + 1, run.states[i + 1].handlers[id])
  {
    assert Step(run, i);
    FetchedSound(run, i, id);
    var h := run.states[i + 1].handlers[id];
    var entry := run.states[i].cache[KeyOf(h.res)];
    EntriesSound(run, i, KeyOf(h.res));
    KeyOfInjective(h.res, entry.res);
    assert SetOf(run, h.setAt, h.res, h.snapshot, entry.readAt);
  }

  /** A `Set` serves what it sets. */
  lemma SetServes(run: Run, i: nat, id: nat)
    requires IsRun(run) && i < |run.events| && run.events[i].id == id && run.events[i].action.Set?
    requires id in run.states[i + 1].handlers && run.states[i + 1].handlers[id].Responded?
    ensures ResponseSound(run, i + 1, run.states[i + 1].handlers[id])
  {
    assert Step(run, i);
    FetchedSound(run, i, id);
    var h := run.states[i + 1].handlers[id];
    assert SetOf(run, i, h.res, h.snapshot, run.states[i].handlers[id].readAt);
  }

  lemma {:induction false} RespondedSound(run: Run, n: nat, id: nat)
    requires IsRun(run) && n <= |run.events|
    requires id in run.states[n].handlers && run.states[n].handlers[id].Responded?
    ensures ResponseSound(run, n, run.states[n].handlers[id])
  {
    if n > 0 {
      var i := n - 1;
      var e := run.events[i];
      if e.id == id && e.action.Get? {
        HitSound(run, i, id);
      } else if e.id == id && e.action.Set? {
        SetServes(run, i, id);
      } else {
        assert Step(run, i);
        RespondedSound(run, i, id);
      }
    }
  }

  /** A write that was invalidated before the request began was committed before the snapshot, unless the span of the
      `Set` behind the response straddles it. */
  lemma OlderUnlessStraddled(run: Run, n: nat, id: nat, c: nat, v: nat, w: Write)
    requires IsRun(run) && n <= |run.events|
    requires id in run.states[n].handlers && run.states[n].handlers[id].Responded?
    requires var h := run.states[n].handlers[id];
             CommitsTo(run, c, w, h.res) && InvalidationOf(run, c, v) && v < h.begunAt
    ensures var h := run.states[n].handlers[id];
            ResponseSound(run, n, h) &&
            (h.snapshot <= c ==> Straddles(run, h.snapshot, c, v, h.setAt, h.res))
  {
    var h := run.states[n].handlers[id];
    RespondedSound(run, n, id);
    if h.snapshot <= c {
      CommitChanges(run, h.snapshot, c, h.res, w);
      InvalidationErases(run, c, v, h.res);
      assert v != h.setAt;
    }
  }

  /** A response does not show a write that was completed before its request began exactly when the span of the `Set`
      behind the response straddles that write. (The write must be one that can be told from what was there before.) */
  lemma LacksCompletedWriteIffStraddled(run: Run, n: nat, id: nat, c: nat, v: nat, w: Write)
    requires IsRun(run) && n <= |run.events|
    requires id in run.states[n].handlers && run.states[n].handlers[id].Responded?
    requires var h := run.states[n].handlers[id];
             && CommitsTo(run, c, w, h.res) && InvalidationOf(run, c, v) && v < h.begunAt
             && !Recorded(run.states[c].store, h.res, w)
    ensures var h := run.states[n].handlers[id];
            !Shows(h.value, w) <==> Straddles(run, h.snapshot, c, v, h.setAt, h.res)
  {
    var h := run.states[n].handlers[id];
    OlderUnlessStraddled(run, n, id, c, v, w);
    ShownIffLater(run, h.snapshot, c, h.res, w);
  }

  /** No `Set` for `res` has a span that encloses both a commit for `res` and its invalidation. */
  ghost predicate NoStraddle(run: Run, res: Resource)
    requires IsRun(run)
  {
    forall s: nat, snapshot: nat, readAt: nat, c: nat, v: nat ::
      SetOf(run, s, res, snapshot, readAt) ==> !Straddles(run, snapshot, c, v, s, res)
  }

  /** Completed writes are visible. When no reader straddles a write, every response shows every write that went to its
      listing and was invalidated before the request began. */
  lemma CompletedWritesVisible(run: Run, n: nat, id: nat)
    requires IsRun(run) && n <= |run.events|
    requires id in run.states[n].handlers && run.states[n].handlers[id].Responded?
    requires NoStraddle(run, run.states[n].handlers[id].res)
    ensures var h := run.states[n].handlers[id];
            forall c: nat, v: nat, w ::
              CommitsTo(run, c, w, h.res) && InvalidationOf(run, c, v) && v < h.begunAt ==> Shows(h.value, w)
  {
    var h := run.states[n].handlers[id];
    forall c: nat, v: nat, w | CommitsTo(run, c, w, h.res) && InvalidationOf(run, c, v) && v < h.begunAt
      ensures Shows(h.value, w)
    {
      OlderUnlessStraddled(run, n, id, c, v, w);
      var readAt: nat :| SetOf(run, h.setAt, h.res, h.snapshot, readAt);
      assert !Straddles(run, h.snapshot, c, v, h.setAt, h.res);
      ShownIffLater(run, h.snapshot, c, h.res, w);
    }
  }

  /** Every reader takes at most `d` from its database read to its `Set`. */
  ghost predicate ReadersWithin(run: Run, d: int)
    requires IsRun(run)
  {
    forall s: nat, res, snapshot: nat, readAt: nat ::
      SetOf(run, s, res, snapshot, readAt) && readAt < s ==> run.events[s].at - run.events[readAt].at <= d
  }

  /** Every database read shows a store that was current at most `lag` before the read. Reads on the primary have
      no lag at all. */
  ghost predicate ReplicaWithin(run: Run, lag: int)
    requires IsRun(run)
  {
    forall i :: 0 <= i < |run.events| && run.events[i].action.DbRead? && run.events[i].action.snapshot <= i ==>
      run.events[i].at - run.events[run.events[i].action.snapshot].at <= lag
  }

  /** Bounded staleness under any interleaving: the store a response shows was current no longer ago than the time
      to live plus the readers' delay plus the replica's lag. (Event `snapshot` happens in the store shown.) */
  lemma BoundedStaleness(run: Run, n: nat, id: nat, d: int, lag: int)
    requires IsRun(run) && n <= |run.events| && ReadersWithin(run, d) && ReplicaWithin(run, lag)
    requires id in run.states[n].handlers && run.states[n].handlers[id].Responded?
    ensures var h := run.states[n].handlers[id];
            && ShowsPastStore(run, n, h)
            && run.events[h.snapshot].at >= run.events[h.servedAt].at - (TimeToLive(h.res) + d + lag)
  {
    var h := run.states[n].handlers[id];
    RespondedSound(run, n, id);
    var readAt: nat :| readAt < h.setAt && SetOf(run, h.setAt, h.res, h.snapshot, readAt) &&
                       run.events[readAt].action == DbRead(h.snapshot);
    SetAfterRead(run, h.setAt, h.res, h.snapshot, readAt);
    assert run.events[readAt].action.snapshot <= readAt;
  }

  lemma SetAfterRead(run: Run, s: nat, res: Resource, snapshot: nat, readAt: nat)
    requires IsRun(run) && SetOf(run, s, res, snapshot, readAt)
    ensures snapshot <= readAt < s
    ensures res.Comments? ==> snapshot == readAt
  {
    FetchedSound(run, s, run.events[s].id);
  }

  /** Comments are read from the primary, so their bound has no lag: sixty seconds and the reader's own delay. */
  lemma CommentsStaleness(run: Run, n: nat, id: nat, d: int)
    requires IsRun(run) && n <= |run.events| && ReadersWithin(run, d)
    requires id in run.states[n].handlers && run.states[n].handlers[id].Responded?
    requires run.states[n].handlers[id].res.Comments?
    ensures var h := run.states[n].handlers[id];
            && ShowsPastStore(run, n, h)
            && run.events[h.snapshot].at >= run.events[h.servedAt].at - (60 * SECOND + d)
  {
    var h := run.states[n].handlers[id];
    RespondedSound(run, n, id);
    var readAt: nat :| readAt < h.setAt && SetOf(run, h.setAt, h.res, h.snapshot, readAt);
    SetAfterRead(run, h.setAt, h.res, h.snapshot, readAt);
  }

  /** For projects it is three hundred seconds, the reader's own delay and the replica's lag. */
  lemma ProjectsStaleness(run: Run, n: nat, id: nat, d: int, lag: int)
    requires IsRun(run) && n <= |run.events| && ReadersWithin(run, d) && ReplicaWithin(run, lag)
    requires id in run.states[n].handlers && run.states[n].handlers[id].Responded?
    requires run.states[n].handlers[id].res.Projects?
    ensures var h := run.states[n].handlers[id];
            && ShowsPastStore(run, n, h)
            && run.events[h.snapshot].at >= run.events[h.servedAt].at - (300 * SECOND + d + lag)
  {
    BoundedStaleness(run, n, id, d, lag);
  }
}
