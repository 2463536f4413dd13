/** The sliding-window rate limiter: a map from keys to pruned queues of grant stamps, run by calls that
    carry the values their clock reads returned. Times are nanoseconds of the steady clock. */
module SlidingWindow {
  import opened MachineInts
  import opened GrantLog

  datatype Config = Config(maxRequests: int32, windowSeconds: int32) {
    function Window(): int { windowSeconds * SECOND }

    /** The threshold the queue length is compared with: `max_requests_` converted to an unsigned 64-bit
        size, so a negative limit wraps to a very large one. */
    function Limit(): nat {
      if maxRequests >= 0 then maxRequests else 0x1_0000_0000_0000_0000 + maxRequests
    }
  }

  /** Conversion of a queue length to `int`, as `static_cast<int>` does it. */
  function ToInt32(n: nat): int32 {
    var low := n % 0x1_0000_0000;
    if low < 0x8000_0000 then low else low - 0x1_0000_0000
  }

  /** Both conversions change a number by a multiple of the width of the target, which leaves one value each. */
  lemma Conversions(cfg: Config, n: nat)
    ensures cfg.Limit() < 0x1_0000_0000_0000_0000
    ensures cfg.Limit() == cfg.maxRequests || cfg.Limit() == cfg.maxRequests + 0x1_0000_0000_0000_0000
    ensures exists turns: int :: n == ToInt32(n) + 0x1_0000_0000 * turns
  {
    var low := n % 0x1_0000_0000;
    var turns := n / 0x1_0000_0000 + if low < 0x8000_0000 then 0 else 1;
    assert n == ToInt32(n) + 0x1_0000_0000 * turns;
  }

  type Windows = map<string, seq<int>>

  /** A refused `Acquire` reads the clock only once; its `stampRead` is then any instant before the next read. */
  datatype Call =
    | Acquire(key: string, cutoffRead: int, stampRead: int)
    | Info(key: string, read: int)
  {
    function Start(): int { if Acquire? then cutoffRead else read }
    function End(): int { if Acquire? then stampRead else read }
  }

  datatype Answer = Granted | Refused | Reported(limit: int, remaining: int, resetSeconds: int)

  function QueueOf(windows: Windows, key: string): seq<int> {
    if key in windows then windows[key] else []
  }

  /** One call on the pruned queues. */
  function Apply(cfg: Config, windows: Windows, call: Call): (Windows, Answer) {
    match call
    case Acquire(key, cutoffRead, stampRead) =>
      var queue := Prune(QueueOf(windows, key), cutoffRead - cfg.Window());
      if |queue| >= cfg.Limit() then (windows[key := queue], Refused)
      else (windows[key := queue + [stampRead]], Granted)
    case Info(key, read) =>
      if key !in windows then
        (windows, Reported(cfg.maxRequests, cfg.maxRequests, cfg.windowSeconds))
      else
        var queue := Prune(windows[key], read - cfg.Window());
        var left := cfg.maxRequests - ToInt32(|queue|);
        (windows[key := queue], Reported(cfg.maxRequests, if left > 0 then left else 0, cfg.windowSeconds))
  }

  /** The queues after a run of calls that starts with an empty limiter. */
  function RunWindows(cfg: Config, calls: seq<Call>): Windows {
    if calls == [] then map[]
    else Apply(cfg, RunWindows(cfg, calls[..|calls| - 1]), calls[|calls| - 1]).0
  }

  /** What `call` answers right after the run `calls`. */
  function AnswerAfter(cfg: Config, calls: seq<Call>, call: Call): Answer {
    Apply(cfg, RunWindows(cfg, calls), call).1
  }

  /** Every stamp ever granted to `key` in a run: the history the limiter itself throws away. */
  function Log(cfg: Config, calls: seq<Call>, key: string): seq<int> {
    if calls == [] then []
    else
      var pre, call := calls[..|calls| - 1], calls[|calls| - 1];
      if call.Acquire? && call.key == key && AnswerAfter(cfg, pre, call) == Granted
      then Log(cfg, pre, key) + [call.stampRead]
      else Log(cfg, pre, key)
  }

  ghost predicate EndedBy(calls: seq<Call>, instant: int) {
    forall i :: 0 <= i < |calls| ==> calls[i].End() <= instant
  }

  /** The clock never runs backwards, neither between calls nor between the two reads of one call. */
  ghost predicate Monotone(calls: seq<Call>) {
    calls == [] ||
    var pre, call := calls[..|calls| - 1], calls[|calls| - 1];
    Monotone(pre) && EndedBy(pre, call.Start()) && call.Start() <= call.End()
  }

  /** The cutoff of the latest call on `key` (irrelevant while there was none). */
  function LatestCutoff(cfg: Config, calls: seq<Call>, key: string): int {
    if calls == [] then 0
    else if calls[|calls| - 1].key == key then calls[|calls| - 1].Start() - cfg.Window()
    else LatestCutoff(cfg, calls[..|calls| - 1], key)
  }

  lemma Snoc(calls: seq<Call>, call: Call)
    ensures (calls + [call])[..|calls + [call]| - 1] == calls
  {
  }

  lemma MonotoneSnoc(calls: seq<Call>, call: Call, instant: int)
    requires Monotone(calls) && EndedBy(calls, call.Start()) && call.Start() <= call.End() <= instant
    ensures Monotone(calls + [call]) && EndedBy(calls + [call], instant)
  {
    Snoc(calls, call);
  }

  /** One call, seen by one key: its queue and its log before and after. */
  lemma Unfold(cfg: Config, calls: seq<Call>, key: string)
    requires calls != []
    ensures var pre, call := calls[..|calls| - 1], calls[|calls| - 1];
            var queue := QueueOf(RunWindows(cfg, pre), key);
            var pruned := Prune(queue, call.Start() - cfg.Window());
            var granted := call.Acquire? && |pruned| < cfg.Limit();
            && QueueOf(RunWindows(cfg, calls), key) ==
               (if call.key != key then queue else if granted then pruned + [call.stampRead] else pruned)
            && Log(cfg, calls, key) ==
               (if call.key == key && granted then Log(cfg, pre, key) + [call.stampRead] else Log(cfg, pre, key))
  {
  }

  lemma {:induction false} LogEndedBy(cfg: Config, calls: seq<Call>, key: string, instant: int)
    requires EndedBy(calls, instant)
    ensures forall i :: 0 <= i < |Log(cfg, calls, key)| ==> Log(cfg, calls, key)[i] <= instant
  {
    if calls != [] {
      LogEndedBy(cfg, calls[..|calls| - 1], key, instant);
      assert calls[|calls| - 1].End() <= instant;
    }
  }

  /** For any cutoff a later call can use, pruning the queue and pruning the full log leave the same stamps. */
  lemma {:induction false} PrunedAlike(cfg: Config, calls: seq<Call>, key: string, instant: int)
    requires Monotone(calls) && EndedBy(calls, instant)
    ensures var cutoff := instant - cfg.Window();
            Prune(QueueOf(RunWindows(cfg, calls), key), cutoff) == Prune(Log(cfg, calls, key), cutoff)
  {
    if calls != [] {
      var pre, call := calls[..|calls| - 1], calls[|calls| - 1];
      PrunedAlike(cfg, pre, key, instant);
      Unfold(cfg, calls, key);
      if call.key == key {
        var queue, cutoff := QueueOf(RunWindows(cfg, pre), key), instant - cfg.Window();
        assert call.End() <= instant;
        PruneTwice(queue, call.Start() - cfg.Window(), cutoff);
        if call.Acquire? {
          PruneExtend(Prune(queue, call.Start() - cfg.Window()), cutoff, call.stampRead);
          PruneExtend(Log(cfg, pre, key), cutoff, call.stampRead);
        }
      }
    }
  }

  /** A call either leaves the log of a key alone or adds its stamp when the full log has room at the cutoff. */
  lemma LogStep(cfg: Config, calls: seq<Call>, key: string)
    requires Monotone(calls) && calls != []
    ensures var pre, call := calls[..|calls| - 1], calls[|calls| - 1];
            var log := Log(cfg, pre, key);
            || Log(cfg, calls, key) == log
            || (&& Log(cfg, calls, key) == log + [call.End()]
                && call.Start() <= call.End()
                && |Prune(log, call.Start() - cfg.Window())| < cfg.Limit()
                && forall i :: 0 <= i < |log| ==> log[i] <= call.Start())
  {
    var pre, call := calls[..|calls| - 1], calls[|calls| - 1];
    Unfold(cfg, calls, key);
    LogEndedBy(cfg, pre, key, call.Start());
    PrunedAlike(cfg, pre, key, call.Start());
  }

  /** The full log is sorted and spaced: no closed window ever sees more than the limit, although the cutoff and
      the stamp of a grant come from two different clock reads. */
  lemma {:induction false} LogSpaced(cfg: Config, calls: seq<Call>, key: string)
    requires Monotone(calls)
    ensures Sorted(Log(cfg, calls, key))
    ensures Spaced(Log(cfg, calls, key), cfg.Limit(), cfg.Window())
  {
    if calls != [] {
      var pre, call := calls[..|calls| - 1], calls[|calls| - 1];
      LogSpaced(cfg, pre, key);
      LogStep(cfg, calls, key);
      if Log(cfg, calls, key) != Log(cfg, pre, key) {
        SpacedAppend(Log(cfg, pre, key), cfg.Limit(), cfg.Window(), call.Start(), call.End());
      }
    }
  }

  lemma {:induction false} QueueBounded(cfg: Config, calls: seq<Call>, key: string)
    ensures |QueueOf(RunWindows(cfg, calls), key)| <= cfg.Limit()
    ensures |QueueOf(RunWindows(cfg, calls), key)| <= |calls|
  {
    if calls != [] {
      var pre, call := calls[..|calls| - 1], calls[|calls| - 1];
      QueueBounded(cfg, pre, key);
      Unfold(cfg, calls, key);
      PruneSplit(QueueOf(RunWindows(cfg, pre), key), call.Start() - cfg.Window());
    }
  }

  /** Whether the latest call on `key` was an acquisition that succeeded. */
  predicate JustGranted(cfg: Config, calls: seq<Call>, key: string) {
    calls != [] &&
    var pre, call := calls[..|calls| - 1], calls[|calls| - 1];
    if call.key == key then call.Acquire? && AnswerAfter(cfg, pre, call) == Granted else JustGranted(cfg, pre, key)
  }

  /** The pruned queue is exactly the tail of the full log at or after the latest cutoff. Only a negative window, which
      puts the cutoff after the clock read it is taken from, leaves one stamp more: the one just granted. */
  lemma {:induction false} QueueRefinesLog(cfg: Config, calls: seq<Call>, key: string)
    requires Monotone(calls)
    ensures var queue, log := QueueOf(RunWindows(cfg, calls), key), Log(cfg, calls, key);
            var tail := Prune(log, LatestCutoff(cfg, calls, key));
            && (JustGranted(cfg, calls, key) ==> log != [])
            && queue == (if tail == [] && JustGranted(cfg, calls, key) then [log[|log| - 1]] else tail)
            && (cfg.windowSeconds >= 0 ==> queue == tail)
  {
    if calls != [] {
      var pre, call := calls[..|calls| - 1], calls[|calls| - 1];
      QueueRefinesLog(cfg, pre, key);
      Unfold(cfg, calls, key);
      if call.key == key {
        PrunedAlike(cfg, pre, key, call.Start());
        if call.Acquire? {
          PruneExtend(Log(cfg, pre, key), call.Start() - cfg.Window(), call.stampRead);
        }
      }
    }
  }

  /** What a call finds left of its queue are the grants of the full log at or after its cutoff. */
  lemma PrunedCount(cfg: Config, calls: seq<Call>, key: string, instant: int)
    requires Monotone(calls) && EndedBy(calls, instant)
    ensures |Prune(QueueOf(RunWindows(cfg, calls), key), instant - cfg.Window())| ==
            CountSince(Log(cfg, calls, key), instant - cfg.Window())
  {
    PrunedAlike(cfg, calls, key, instant);
    LogSpaced(cfg, calls, key);
    PruneCounts(Log(cfg, calls, key), instant - cfg.Window());
  }

  /** The admission decision, said about the full log: refuse exactly when `limit` grants lie at or after the
      cutoff. */
  lemma Decision(cfg: Config, calls: seq<Call>, call: Call)
    requires call.Acquire? && Monotone(calls) && EndedBy(calls, call.Start())
    ensures AnswerAfter(cfg, calls, call) ==
            if CountSince(Log(cfg, calls, call.key), call.cutoffRead - cfg.Window()) >= cfg.Limit()
            then Refused else Granted
  {
    PrunedCount(cfg, calls, call.key, call.Start());
  }

  /** An acquisition at the end of a run, said about the full logs: the decision, and whose log grows. */
  lemma AcquireEffect(cfg: Config, calls: seq<Call>, call: Call)
    requires call.Acquire? && Monotone(calls) && EndedBy(calls, call.Start()) && call.Start() <= call.End()
    ensures Monotone(calls + [call])
    ensures RunWindows(cfg, calls + [call]) == Apply(cfg, RunWindows(cfg, calls), call).0
    ensures AnswerAfter(cfg, calls, call) == Granted <==>
            CountSince(Log(cfg, calls, call.key), call.cutoffRead - cfg.Window()) < cfg.Limit()
    ensures Log(cfg, calls + [call], call.key) ==
            if CountSince(Log(cfg, calls, call.key), call.cutoffRead - cfg.Window()) < cfg.Limit()
            then Log(cfg, calls, call.key) + [call.stampRead] else Log(cfg, calls, call.key)
    ensures forall other :: other != call.key ==> Log(cfg, calls + [call], other) == Log(cfg, calls, other)
  {
    Snoc(calls, call);
    Decision(cfg, calls, call);
  }

  /** Window safety. */
  lemma WindowSafety(cfg: Config, calls: seq<Call>, key: string)
    requires Monotone(calls)
    ensures WindowBounded(Log(cfg, calls, key), cfg.Limit(), cfg.Window())
  {
    LogSpaced(cfg, calls, key);
    SpacedIffWindowBounded(Log(cfg, calls, key), cfg.Limit(), cfg.Window());
  }

  /** The long-run rate: n windows hold at most n times the limit. */
  lemma RateBound(cfg: Config, calls: seq<Call>, key: string, n: nat, lo: int)
    requires Monotone(calls) && n >= 1
    ensures CountIn(Log(cfg, calls, key), lo, lo + n * cfg.Window()) <= n * cfg.Limit()
  {
    LogSpaced(cfg, calls, key);
    LongRunBound(Log(cfg, calls, key), cfg.Limit(), cfg.Window(), n, lo);
  }

  /** A retry strictly more than one window after the last call is granted. */
  lemma RetryAfterWindow(cfg: Config, calls: seq<Call>, call: Call, last: int)
    requires call.Acquire? && cfg.Limit() > 0
    requires Monotone(calls) && EndedBy(calls, call.Start())
    requires forall i :: 0 <= i < |Log(cfg, calls, call.key)| ==> Log(cfg, calls, call.key)[i] <= last
    requires call.cutoffRead > last + cfg.Window()
    ensures AnswerAfter(cfg, calls, call) == Granted
  {
    PrunedAlike(cfg, calls, call.key, call.Start());
    PruneSplit(Log(cfg, calls, call.key), call.cutoffRead - cfg.Window());
  }

  // ---------- calls that cannot be noticed ----------

  /** The calls that `keep` selects, in order. */
  function Filter(calls: seq<Call>, keep: Call -> bool): seq<Call> {
    if calls == [] then []
    else
      var pre, call := calls[..|calls| - 1], calls[|calls| - 1];
      if keep(call) then Filter(pre, keep) + [call] else Filter(pre, keep)
  }

  lemma {:induction false} FilterMonotone(calls: seq<Call>, keep: Call -> bool)
    requires Monotone(calls)
    ensures Monotone(Filter(calls, keep))
    ensures forall instant :: EndedBy(calls, instant) ==> EndedBy(Filter(calls, keep), instant)
  {
    if calls != [] {
      var pre, call := calls[..|calls| - 1], calls[|calls| - 1];
      FilterMonotone(pre, keep);
      forall instant | EndedBy(calls, instant)
        ensures EndedBy(Filter(calls, keep), instant)
      {
        assert EndedBy(pre, instant);
        assert calls[|calls| - 1].End() <= instant;
      }
      if keep(call) {
        Snoc(Filter(pre, keep), call);
        assert EndedBy(Filter(pre, keep), call.Start());
        assert Filter(calls, keep) == Filter(pre, keep) + [call];
      }
    }
  }

  /** Dropping any calls other than the acquisitions of `key` -- reports, or traffic on other keys -- does not change
      the log of `key`. */
  lemma {:induction false} OthersLeaveLog(cfg: Config, calls: seq<Call>, keep: Call -> bool, key: string)
    requires Monotone(calls)
    requires forall call: Call :: call.Acquire? && call.key == key ==> keep(call)
    ensures Log(cfg, Filter(calls, keep), key) == Log(cfg, calls, key)
  {
    if calls != [] {
      var pre, call := calls[..|calls| - 1], calls[|calls| - 1];
      OthersLeaveLog(cfg, pre, keep, key);
      FilterMonotone(pre, keep);
      if keep(call) {
        Snoc(Filter(pre, keep), call);
      }
      if call.Acquire? && call.key == key {
        assert EndedBy(Filter(pre, keep), call.Start());
        Decision(cfg, pre, call);
        Decision(cfg, Filter(pre, keep), call);
      }
    }
  }

  /** Nor does it change the answer to the next acquisition of `key`. */
  lemma OthersInvisible(cfg: Config, calls: seq<Call>, keep: Call -> bool, next: Call)
    requires next.Acquire? && Monotone(calls) && EndedBy(calls, next.Start())
    requires forall call: Call :: call.Acquire? && call.key == next.key ==> keep(call)
    ensures AnswerAfter(cfg, Filter(calls, keep), next) == AnswerAfter(cfg, calls, next)
  {
    FilterMonotone(calls, keep);
    OthersLeaveLog(cfg, calls, keep, next.key);
    Decision(cfg, calls, next);
    Decision(cfg, Filter(calls, keep), next);
  }

  /** The answers the acquisitions of a run got, in order. */
  function AcquireAnswers(cfg: Config, calls: seq<Call>): seq<Answer> {
    if calls == [] then []
    else
      var pre, call := calls[..|calls| - 1], calls[|calls| - 1];
      if call.Acquire? then AcquireAnswers(cfg, pre) + [AnswerAfter(cfg, pre, call)] else AcquireAnswers(cfg, pre)
  }

  /** Reports prune queues, yet a run answers its acquisitions as if no report had ever been asked for. */
  lemma {:induction false} InfoInvisible(cfg: Config, calls: seq<Call>)
    requires Monotone(calls)
    ensures AcquireAnswers(cfg, Filter(calls, (call: Call) => call.Acquire?)) == AcquireAnswers(cfg, calls)
  {
    var keep := (call: Call) => call.Acquire?;
    if calls != [] {
      var pre, call := calls[..|calls| - 1], calls[|calls| - 1];
      InfoInvisible(cfg, pre);
      if call.Acquire? {
        OthersInvisible(cfg, pre, keep, call);
        Snoc(Filter(pre, keep), call);
      }
    }
  }
}
