/** What the numbers in a rate-limit report promise: how many acquisitions still succeed at that instant. */
module LimiterReports {
  import opened GrantLog
  import opened SlidingWindow

  /** `n` acquisitions of `key` made at one instant. */
  function Burst(key: string, instant: int, n: nat): seq<Call> {
    seq(n, _ => Acquire(key, instant, instant))
  }

  /** The stamps of `key` that are still inside the window at `instant`, in the pruned queue. */
  function InWindow(cfg: Config, calls: seq<Call>, key: string, instant: int): seq<int> {
    Prune(QueueOf(RunWindows(cfg, calls), key), instant - cfg.Window())
  }

  /** A negative window puts the cutoff after every stamp. */
  lemma NegativeWindow(cfg: Config, calls: seq<Call>, key: string, instant: int)
    requires Monotone(calls) && EndedBy(calls, instant) && cfg.windowSeconds < 0
    ensures InWindow(cfg, calls, key, instant) == []
  {
    var log := Log(cfg, calls, key);
    LogEndedBy(cfg, calls, key, instant);
    PruneUnique(log, [], instant - cfg.Window());
    assert log + [] == log;
    PrunedAlike(cfg, calls, key, instant);
  }

  function BurstAfter(calls: seq<Call>, key: string, instant: int, n: nat): seq<Call> {
    calls + [Info(key, instant)] + Burst(key, instant, n)
  }

  lemma {:induction false} BurstMonotone(calls: seq<Call>, key: string, instant: int, n: nat)
    requires Monotone(calls) && EndedBy(calls, instant)
    ensures Monotone(BurstAfter(calls, key, instant, n)) && EndedBy(BurstAfter(calls, key, instant, n), instant)
  {
    if n == 0 {
      MonotoneSnoc(calls, Info(key, instant), instant);
      assert BurstAfter(calls, key, instant, n) == calls + [Info(key, instant)];
    } else {
      BurstMonotone(calls, key, instant, n - 1);
      MonotoneSnoc(BurstAfter(calls, key, instant, n - 1), Acquire(key, instant, instant), instant);
      BurstSnoc(calls, key, instant, n);
    }
  }

  lemma BurstSnoc(calls: seq<Call>, key: string, instant: int, n: nat)
    requires n > 0
    ensures var run, pre := BurstAfter(calls, key, instant, n), BurstAfter(calls, key, instant, n - 1);
            run == pre + [Acquire(key, instant, instant)] && run[..|run| - 1] == pre
  {
    assert BurstAfter(calls, key, instant, n) ==
           BurstAfter(calls, key, instant, n - 1) + [Acquire(key, instant, instant)];
  }

  /** What one call at `instant` does to the number of stamps in the window. */
  lemma InWindowStep(cfg: Config, pre: seq<Call>, call: Call, key: string, instant: int)
    requires cfg.windowSeconds >= 0 && call.key == key
    requires call == Acquire(key, instant, instant) || call == Info(key, instant)
    ensures |InWindow(cfg, pre + [call], key, instant)| ==
            |InWindow(cfg, pre, key, instant)| +
            (if call.Acquire? && |InWindow(cfg, pre, key, instant)| < cfg.Limit() then 1 else 0)
  {
    var queue, cutoff := QueueOf(RunWindows(cfg, pre), key), instant - cfg.Window();
    Snoc(pre, call);
    Unfold(cfg, pre + [call], key);
    PruneTwice(queue, cutoff, cutoff);
    PruneExtend(Prune(queue, cutoff), cutoff, instant);
  }

  lemma ReportKeepsWindow(cfg: Config, calls: seq<Call>, key: string, instant: int)
    requires cfg.windowSeconds >= 0
    ensures |InWindow(cfg, BurstAfter(calls, key, instant, 0), key, instant)| ==
            |InWindow(cfg, calls, key, instant)| <= cfg.Limit()
  {
    assert BurstAfter(calls, key, instant, 0) == calls + [Info(key, instant)];
    InWindowStep(cfg, calls, Info(key, instant), key, instant);
    InWindowBounded(cfg, calls, key, instant);
  }

  /** How many stamps are in the window after a report and a burst. */
  function Filled(cfg: Config, calls: seq<Call>, key: string, instant: int, n: nat): nat {
    |InWindow(cfg, BurstAfter(calls, key, instant, n), key, instant)|
  }

  lemma BurstStep(cfg: Config, calls: seq<Call>, key: string, instant: int, n: nat)
    requires cfg.windowSeconds >= 0 && n > 0
    ensures Filled(cfg, calls, key, instant, n) ==
            Filled(cfg, calls, key, instant, n - 1) +
            (if Filled(cfg, calls, key, instant, n - 1) < cfg.Limit() then 1 else 0)
  {
    BurstSnoc(calls, key, instant, n);
    InWindowStep(cfg, BurstAfter(calls, key, instant, n - 1), Acquire(key, instant, instant), key, instant);
  }

  lemma OneMore(before: nat, limit: nat, n: nat, filled: nat, next: nat)
    requires before <= limit && n > 0
    requires filled == if before + n - 1 <= limit then before + n - 1 else limit
    requires next == filled + if filled < limit then 1 else 0
    ensures next == if before + n <= limit then before + n else limit
  {
  }

  /** Every acquisition of a burst adds one stamp to the window until the limit is reached. */
  lemma {:induction false} BurstFills(cfg: Config, calls: seq<Call>, key: string, instant: int, n: nat)
    requires cfg.windowSeconds >= 0
    ensures var before := |InWindow(cfg, calls, key, instant)|;
            Filled(cfg, calls, key, instant, n) == if before + n <= cfg.Limit() then before + n else cfg.Limit()
  {
    if n == 0 {
      ReportKeepsWindow(cfg, calls, key, instant);
    } else {
      InWindowBounded(cfg, calls, key, instant);
      BurstFills(cfg, calls, key, instant, n - 1);
      BurstStep(cfg, calls, key, instant, n);
      OneMore(|InWindow(cfg, calls, key, instant)|, cfg.Limit(), n, Filled(cfg, calls, key, instant, n - 1),
              Filled(cfg, calls, key, instant, n));
    }
  }

  lemma InWindowBounded(cfg: Config, calls: seq<Call>, key: string, instant: int)
    ensures |InWindow(cfg, calls, key, instant)| <= cfg.Limit()
    ensures |InWindow(cfg, calls, key, instant)| <= |calls|
  {
    QueueBounded(cfg, calls, key);
    PruneSplit(QueueOf(RunWindows(cfg, calls), key), instant - cfg.Window());
  }

  /** Whether the next acquisition at `instant` succeeds after a report and `n` acquisitions at that instant. */
  predicate Admits(cfg: Config, calls: seq<Call>, key: string, instant: int, n: nat) {
    AnswerAfter(cfg, BurstAfter(calls, key, instant, n), Acquire(key, instant, instant)) == Granted
  }

  lemma AdmitsIff(cfg: Config, calls: seq<Call>, key: string, instant: int, n: nat)
    requires Monotone(calls) && EndedBy(calls, instant)
    ensures cfg.windowSeconds >= 0 ==>
              (Admits(cfg, calls, key, instant, n) <==> |InWindow(cfg, calls, key, instant)| + n < cfg.Limit())
    ensures cfg.windowSeconds < 0 ==> (Admits(cfg, calls, key, instant, n) <==> 0 < cfg.Limit())
  {
    var run := BurstAfter(calls, key, instant, n);
    assert Admits(cfg, calls, key, instant, n) <==> Filled(cfg, calls, key, instant, n) < cfg.Limit();
    if cfg.windowSeconds >= 0 {
      BurstFills(cfg, calls, key, instant, n);
    } else {
      BurstMonotone(calls, key, instant, n);
      NegativeWindow(cfg, run, key, instant);
    }
  }

  /** The remaining count a report gives: the free places, never clamped, unless the limit is negative. */
  lemma ReportedRemaining(cfg: Config, calls: seq<Call>, key: string, instant: int)
    ensures var remaining := AnswerAfter(cfg, calls, Info(key, instant)).remaining;
            if cfg.maxRequests >= 0
            then 0 <= remaining == cfg.maxRequests - |InWindow(cfg, calls, key, instant)|
            else |calls| < 0x8000_0000 ==> remaining <= 0
  {
    InWindowBounded(cfg, calls, key, instant);
  }

  /** Said about the full log: the limit less the grants at or after the cutoff of the report. */
  lemma ReportCounts(cfg: Config, calls: seq<Call>, key: string, instant: int)
    requires Monotone(calls) && EndedBy(calls, instant) && cfg.maxRequests >= 0
    ensures AnswerAfter(cfg, calls, Info(key, instant)).remaining ==
            cfg.maxRequests - CountSince(Log(cfg, calls, key), instant - cfg.Window())
  {
    assert AnswerAfter(cfg, calls, Info(key, instant)).remaining ==
           cfg.maxRequests - |InWindow(cfg, calls, key, instant)| by {
      ReportedRemaining(cfg, calls, key, instant);
    }
    PrunedCount(cfg, calls, key, instant);
  }

  /** For a limit that is not negative and a window that is not negative, a report of r means that the n-th further
      acquisition at that instant succeeds exactly for n below r. */
  lemma SensibleReportExact(cfg: Config, calls: seq<Call>, key: string, instant: int, n: nat)
    requires Monotone(calls) && EndedBy(calls, instant)
    requires cfg.maxRequests >= 0 && cfg.windowSeconds >= 0
    ensures Admits(cfg, calls, key, instant, n) <==> n < AnswerAfter(cfg, calls, Info(key, instant)).remaining
  {
    AdmitsIff(cfg, calls, key, instant, n);
    ReportedRemaining(cfg, calls, key, instant);
  }

  /** The reported number is exact: that many acquisitions succeed at the instant of the report and no more. */
  ghost predicate ReportExact(cfg: Config, calls: seq<Call>, key: string, instant: int) {
    forall n: nat ::
      Admits(cfg, calls, key, instant, n) <==> n < AnswerAfter(cfg, calls, Info(key, instant)).remaining
  }

  /** Reports are exact precisely for the configurations that make sense: a limit of zero, or a positive limit
      with a window that is not negative. (The bound on the run keeps `static_cast<int>` of a queue length from
      wrapping, which only a negative limit would allow.) */
  lemma ReportExactIff(cfg: Config, calls: seq<Call>, key: string, instant: int)
    requires Monotone(calls) && EndedBy(calls, instant)
    requires cfg.maxRequests < 0 ==> |calls| < 0x8000_0000
    ensures ReportExact(cfg, calls, key, instant) <==>
            cfg.maxRequests == 0 || (cfg.maxRequests > 0 && cfg.windowSeconds >= 0)
  {
    var remaining := AnswerAfter(cfg, calls, Info(key, instant)).remaining;
    ReportedRemaining(cfg, calls, key, instant);
    if cfg.maxRequests < 0 {
      AdmitsIff(cfg, calls, key, instant, 0);
      InWindowBounded(cfg, calls, key, instant);
      assert Admits(cfg, calls, key, instant, 0);
    } else if cfg.windowSeconds < 0 && cfg.maxRequests > 0 {
      AdmitsIff(cfg, calls, key, instant, remaining);
      assert Admits(cfg, calls, key, instant, remaining);
    } else {
      forall n: nat
        ensures Admits(cfg, calls, key, instant, n) <==> n < remaining
      {
        AdmitsIff(cfg, calls, key, instant, n);
      }
    }
  }
}
