/** The limiter admits greedily. When the two clock reads of a call are at most `d` apart, no way to admit requests that
    keeps to the limit in every closed window stretched by `d` admits more requests in any prefix of the run. Nothing
    shorter than the stretched window will do. */
module GreedyOptimality {
  import opened MachineInts
  import opened GrantLog
  import opened SlidingWindow

  /** The second clock read of a call comes at most `d` after the first. */
  ghost predicate ReadsWithin(calls: seq<Call>, d: nat) {
    forall i :: 0 <= i < |calls| ==> calls[i].End() <= calls[i].Start() + d
  }

  /** The stamps a rival policy grants to `key` when it admits the acquisitions marked in `choice`. */
  function Picks(calls: seq<Call>, choice: seq<bool>, key: string): seq<int>
    requires |choice| == |calls|
  {
    if calls == [] then []
    else
      var n := |calls| - 1;
      var picks := Picks(calls[..n], choice[..n], key);
      if calls[n].Acquire? && calls[n].key == key && choice[n] then picks + [calls[n].stampRead] else picks
  }

  lemma {:induction false} PicksSorted(calls: seq<Call>, choice: seq<bool>, key: string, instant: int)
    requires |choice| == |calls| && Monotone(calls) && EndedBy(calls, instant)
    ensures Sorted(Picks(calls, choice, key))
    ensures forall i :: 0 <= i < |Picks(calls, choice, key)| ==> Picks(calls, choice, key)[i] <= instant
  {
    if calls != [] {
      var n := |calls| - 1;
      assert calls[n].End() <= instant;
      PicksSorted(calls[..n], choice[..n], key, calls[n].Start());
    }
  }

  lemma SpacedPrefix(log: seq<int>, stamp: int, limit: nat, window: int)
    requires Spaced(log + [stamp], limit, window)
    ensures Spaced(log, limit, window)
    ensures limit <= |log| && limit > 0 ==> stamp - log[|log| - limit] > window
    ensures limit > 0 || window < 0
  {
    var longer := log + [stamp];
    forall i, j | 0 <= i && i + limit == j < |log|
      ensures log[j] - log[i] > window
    {
      assert longer[j] - longer[i] > window;
    }
    if limit <= |log| {
      assert longer[|log|] - longer[|log| - limit] > window;
    }
  }

  /** The i-th stamp of `log` never comes later than the i-th stamp of `rival`. */
  ghost predicate Ahead(log: seq<int>, rival: seq<int>) {
    |rival| <= |log| && forall i :: 0 <= i < |rival| ==> log[i] <= rival[i]
  }

  lemma AheadExtend(log: seq<int>, rival: seq<int>, stamp: int)
    requires Ahead(log, rival) && forall i :: 0 <= i < |log| ==> log[i] <= stamp
    ensures Ahead(log + [stamp], rival) && Ahead(log + [stamp], rival + [stamp])
    ensures |rival| < |log| ==> Ahead(log, rival + [stamp])
  {
  }

  /** After a refusal, the grant `limit` positions back is still within one window. */
  lemma RefusalLeavesNoRoom(cfg: Config, calls: seq<Call>, call: Call)
    requires call.Acquire? && Monotone(calls) && EndedBy(calls, call.Start())
    requires AnswerAfter(cfg, calls, call) == Refused
    ensures var log := Log(cfg, calls, call.key);
            && cfg.Limit() <= |log|
            && (cfg.Limit() > 0 ==> log[|log| - cfg.Limit()] >= call.cutoffRead - cfg.Window())
  {
    var log, cutoff := Log(cfg, calls, call.key), call.cutoffRead - cfg.Window();
    PrunedAlike(cfg, calls, call.key, call.Start());
    LogSpaced(cfg, calls, call.key);
    PruneSplit(log, cutoff);
    PruneSorted(log, cutoff);
    if cfg.Limit() > 0 {
      var k := |log| - |Prune(log, cutoff)|;
      assert log[k] == Prune(log, cutoff)[0];
    }
  }

  /** One call: the rival gains a grant only where the limiter does, or has one to spare. */
  lemma StaysAhead(cfg: Config, calls: seq<Call>, rival: seq<int>, picked: bool, key: string, d: nat)
    requires calls != [] && Monotone(calls)
    requires var n := |calls| - 1;
             && Ahead(Log(cfg, calls[..n], key), rival)
             && calls[n].End() <= calls[n].Start() + d
             && (picked ==> calls[n].Acquire? && calls[n].key == key && cfg.Limit() > 0)
             && (picked && cfg.Limit() <= |rival| ==>
                   calls[n].End() - rival[|rival| - cfg.Limit()] > cfg.Window() + d)
    ensures Ahead(Log(cfg, calls, key), if picked then rival + [calls[|calls| - 1].End()] else rival)
  {
    var pre, call := calls[..|calls| - 1], calls[|calls| - 1];
    var log := Log(cfg, pre, key);
    LogEndedBy(cfg, pre, key, call.Start());
    AheadExtend(log, rival, call.End());
    if picked && AnswerAfter(cfg, pre, call) == Refused {
      RefusalLeavesNoRoom(cfg, pre, call);
      assert |rival| < |log|;
    }
  }

  /** Exchange: the i-th greedy grant never comes later than the i-th grant of a rival. */
  lemma {:induction false} NeverBehind(cfg: Config, calls: seq<Call>, choice: seq<bool>, key: string, d: nat)
    requires |choice| == |calls| && Monotone(calls) && ReadsWithin(calls, d)
    requires cfg.Limit() > 0 || cfg.Window() + d >= 0
    requires Spaced(Picks(calls, choice, key), cfg.Limit(), cfg.Window() + d)
    ensures Ahead(Log(cfg, calls, key), Picks(calls, choice, key))
  {
    if calls != [] {
      var n := |calls| - 1;
      var rival := Picks(calls[..n], choice[..n], key);
      var picked := calls[n].Acquire? && calls[n].key == key && choice[n];
      if picked {
        SpacedPrefix(rival, calls[n].End(), cfg.Limit(), cfg.Window() + d);
      }
      NeverBehind(cfg, calls[..n], choice[..n], key, d);
      StaysAhead(cfg, calls, rival, picked, key, d);
    }
  }

  lemma {:induction false} PicksPrefix(calls: seq<Call>, choice: seq<bool>, key: string, k: nat)
    requires |choice| == |calls| && k <= |calls|
    ensures Picks(calls[..k], choice[..k], key) <= Picks(calls, choice, key)
  {
    if k == |calls| {
      assert calls[..k] == calls && choice[..k] == choice;
    } else {
      var n := |calls| - 1;
      PicksPrefix(calls[..n], choice[..n], key, k);
      assert calls[..n][..k] == calls[..k] && choice[..n][..k] == choice[..k];
    }
  }

  lemma {:induction false} PrefixMonotone(calls: seq<Call>, k: nat)
    requires Monotone(calls) && k <= |calls|
    ensures Monotone(calls[..k])
  {
    if k == |calls| {
      assert calls[..k] == calls;
    } else {
      PrefixMonotone(calls[..|calls| - 1], k);
      assert calls[..|calls| - 1][..k] == calls[..k];
    }
  }

  /** Greedy optimality: no legal choice of admitted requests is ahead of the limiter after any prefix. */
  lemma GreedyOptimal(cfg: Config, calls: seq<Call>, choice: seq<bool>, key: string, d: nat, k: nat)
    requires |choice| == |calls| && Monotone(calls) && ReadsWithin(calls, d)
    requires cfg.Limit() > 0 || cfg.Window() + d >= 0
    requires WindowBounded(Picks(calls, choice, key), cfg.Limit(), cfg.Window() + d)
    requires k <= |calls|
    ensures |Picks(calls[..k], choice[..k], key)| <= |Log(cfg, calls[..k], key)|
  {
    PicksSorted(calls, choice, key, if calls == [] then 0 else calls[|calls| - 1].End());
    SpacedIffWindowBounded(Picks(calls, choice, key), cfg.Limit(), cfg.Window() + d);
    PicksPrefix(calls, choice, key, k);
    PrefixMonotone(calls, k);
    var picks, longer := Picks(calls[..k], choice[..k], key), Picks(calls, choice, key);
    forall i, j | 0 <= i && i + cfg.Limit() == j < |picks|
      ensures picks[j] - picks[i] > cfg.Window() + d
    {
      assert longer[j] - longer[i] > cfg.Window() + d;
    }
    assert forall i :: 0 <= i < k ==> calls[..k][i] == calls[i];
    NeverBehind(cfg, calls[..k], choice[..k], key, d);
  }

  /** Two requests one second apart, the reads of the second `d` apart. */
  function TwoCalls(key: string, d: nat): seq<Call> {
    [Acquire(key, 0, 0), Acquire(key, SECOND, SECOND + d)]
  }

  lemma TwoCallsRun(cfg: Config, key: string, d: nat)
    requires cfg == Config(1, 1)
    ensures Monotone(TwoCalls(key, d)) && ReadsWithin(TwoCalls(key, d), d)
    ensures Log(cfg, TwoCalls(key, d), key) == [0]
    ensures Picks(TwoCalls(key, d), [true, true], key) == [0, SECOND + d]
  {
    var calls := TwoCalls(key, d);
    var first := [calls[0]];
    assert calls[..1] == first && first[..0] == [] && [true, true][..1] == [true] && [true][..0] == [];
    assert Monotone([]) && Monotone(first);
    assert Picks(first, [true], key) == [0];
    Unfold(cfg, first, key);
    Unfold(cfg, calls, key);
  }

  /** The stretch is needed to the nanosecond: for every `d` there is a run whose reads are at most `d` apart, and a
      rival that keeps to the limit in windows one nanosecond short of the stretched one, that gets a request more. */
  lemma StretchIsTight(d: nat, key: string) returns (cfg: Config, calls: seq<Call>, choice: seq<bool>)
    ensures |choice| == |calls| && Monotone(calls) && ReadsWithin(calls, d)
    ensures cfg.Limit() > 0 && cfg.Window() > 0
    ensures WindowBounded(Picks(calls, choice, key), cfg.Limit(), cfg.Window() + d - 1)
    ensures |Picks(calls, choice, key)| > |Log(cfg, calls, key)|
  {
    cfg, calls, choice := Config(1, 1), TwoCalls(key, d), [true, true];
    TwoCallsRun(cfg, key, d);
    SpacedIffWindowBounded([0, SECOND + d], 1, SECOND + d - 1);
  }
}
