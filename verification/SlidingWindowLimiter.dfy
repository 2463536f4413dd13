/** The limiter object. Its ghost `history` records every call it served; `Valid` ties the real queues to that
    history, so whatever is proved about runs of calls holds of the object. */
module SlidingWindowLimiter {
  import opened MachineInts
  import opened GrantLog
  import opened SlidingWindow

  class SlidingWindowLimiter {
    const cfg: Config
    var windows: Windows
    ghost var history: seq<Call>

    ghost predicate Valid()
      reads this
    {
      Monotone(history) && windows == RunWindows(cfg, history)
    }

    constructor (maxRequests: int32, windowSeconds: int32)
      ensures Valid() && history == [] && cfg == Config(maxRequests, windowSeconds)
    {
      cfg := Config(maxRequests, windowSeconds);
      windows := map[];
      history := [];
    }

    /** Pops the front of the queue while it lies before the cutoff. */
    method CleanExpired(key: string, now: int)
      requires key in windows
      modifies this`windows
      ensures windows == old(windows)[key := Prune(old(windows)[key], now - cfg.Window())]
    {
      var cutoff := now - cfg.Window();
      while windows[key] != [] && windows[key][0] < cutoff
        invariant key in windows
        invariant Prune(windows[key], cutoff) == Prune(old(windows)[key], cutoff)
        invariant windows == old(windows)[key := windows[key]]
        decreases |windows[key]|
      {
        windows := windows[key := windows[key][1..]];
      }
    }

    /** The real-state part of `TryAcquire`: create the entry, prune it, compare its length with the limit, and
        stamp the grant with a second clock read. */
    method Admit(key: string, cutoffRead: int, stampRead: int) returns (granted: bool)
      modifies this`windows
      ensures (windows, if granted then Granted else Refused) ==
              Apply(cfg, old(windows), Acquire(key, cutoffRead, stampRead))
    {
      if key !in windows {
        windows := windows[key := []];
      }
      CleanExpired(key, cutoffRead);
      ghost var queue := Prune(QueueOf(old(windows), key), cutoffRead - cfg.Window());
      assert windows == old(windows)[key := queue];
      if |windows[key]| >= cfg.Limit() {
        return false;
      }
      windows := windows[key := windows[key] + [stampRead]];
      assert windows == old(windows)[key := queue + [stampRead]];
      return true;
    }

    /** `cutoffRead` and `stampRead` are what the two clock reads return. The decision is the one the full grant
        log calls for, and only the log of `key` grows. */
    method TryAcquire(key: string, cutoffRead: int, stampRead: int) returns (granted: bool)
      requires Valid() && EndedBy(history, cutoffRead) && cutoffRead <= stampRead
      modifies this
      ensures Valid() && history == old(history) + [Acquire(key, cutoffRead, stampRead)]
      ensures granted <==> CountSince(Log(cfg, old(history), key), cutoffRead - cfg.Window()) < cfg.Limit()
      ensures Log(cfg, history, key) ==
              if granted then Log(cfg, old(history), key) + [stampRead] else Log(cfg, old(history), key)
      ensures forall other :: other != key ==> Log(cfg, history, other) == Log(cfg, old(history), other)
    {
      ghost var before, call := history, Acquire(key, cutoffRead, stampRead);
      AcquireEffect(cfg, before, call);
      granted := Admit(key, cutoffRead, stampRead);
      assert granted <==> AnswerAfter(cfg, before, call) == Granted;
      history := before + [call];
    }

    /** Reports on `key`. No log changes; the reset time is always the whole window. */
    method GetInfo(key: string, read: int) returns (info: Answer)
      requires Valid() && EndedBy(history, read)
      modifies this
      ensures Valid() && history == old(history) + [Info(key, read)]
      ensures info == AnswerAfter(cfg, old(history), Info(key, read))
      ensures info.Reported? && info.limit == cfg.maxRequests && info.resetSeconds == cfg.windowSeconds
      ensures forall any :: Log(cfg, history, any) == Log(cfg, old(history), any)
    {
      ghost var call := Info(key, read);
      Snoc(history, call);
      history := history + [call];
      if key !in windows {
        return Reported(cfg.maxRequests, cfg.maxRequests, cfg.windowSeconds);
      }
      CleanExpired(key, read);
      var left := cfg.maxRequests - ToInt32(|windows[key]|);
      return Reported(cfg.maxRequests, if left > 0 then left else 0, cfg.windowSeconds);
    }
  }
}
