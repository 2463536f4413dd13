/** A grant log is the full history of the instants at which one key was granted, oldest first.
    This module defines the two ways a bound on the log can be said -- by counting stamps inside a
    closed interval, and by spacing stamps that lie `limit` positions apart -- and shows that they agree. */
module GrantLog {

  ghost predicate Sorted(log: seq<int>) {
    forall i, j :: 0 <= i <= j < |log| ==> log[i] <= log[j]
  }

  /** The number of stamps in the closed interval [lo, hi]. */
  function CountIn(log: seq<int>, lo: int, hi: int): nat {
    if log == [] then 0
    else CountIn(log[..|log| - 1], lo, hi) + (if lo <= log[|log| - 1] <= hi then 1 else 0)
  }

  /** The number of stamps at or after `cutoff`. */
  function CountSince(log: seq<int>, cutoff: int): nat {
    if log == [] then 0
    else CountSince(log[..|log| - 1], cutoff) + (if cutoff <= log[|log| - 1] then 1 else 0)
  }

  /** What is left of a queue of stamps after its front has been popped while it lies before `cutoff`. */
  function Prune(queue: seq<int>, cutoff: int): seq<int> {
    if queue != [] && queue[0] < cutoff then Prune(queue[1..], cutoff) else queue
  }

  /** Stamps `limit` positions apart are more than `window` apart. */
  ghost predicate Spaced(log: seq<int>, limit: nat, window: int) {
    forall i, j :: 0 <= i && i + limit == j < |log| ==> log[j] - log[i] > window
  }

  /** Every closed interval of length `window` holds at most `limit` stamps. */
  ghost predicate WindowBounded(log: seq<int>, limit: nat, window: int) {
    forall lo, hi :: hi - lo == window ==> CountIn(log, lo, hi) <= limit
  }

  // ---------- pruning ----------

  lemma {:induction false} PruneSplit(queue: seq<int>, cutoff: int)
    ensures |Prune(queue, cutoff)| <= |queue|
    ensures queue[|queue| - |Prune(queue, cutoff)|..] == Prune(queue, cutoff)
    ensures forall i :: 0 <= i < |queue| - |Prune(queue, cutoff)| ==> queue[i] < cutoff
    ensures Prune(queue, cutoff) != [] ==> Prune(queue, cutoff)[0] >= cutoff
  {
    if queue != [] && queue[0] < cutoff {
      var rest := queue[1..];
      PruneSplit(rest, cutoff);
      var k := |rest| - |Prune(rest, cutoff)|;
      assert queue[k + 1..] == rest[k..];
      forall i | 0 <= i < k + 1
        ensures queue[i] < cutoff
      {
        if i > 0 {
          assert queue[i] == rest[i - 1];
        }
      }
    }
  }

  /** Pruning is the only way to split a queue into stamps before the cutoff and a tail that starts after it. */
  lemma {:induction false} PruneUnique(before: seq<int>, after: seq<int>, cutoff: int)
    requires forall i :: 0 <= i < |before| ==> before[i] < cutoff
    requires after != [] ==> after[0] >= cutoff
    ensures Prune(before + after, cutoff) == after
  {
    if before == [] {
      assert before + after == after;
    } else {
      assert (before + after)[1..] == before[1..] + after;
      PruneUnique(before[1..], after, cutoff);
    }
  }

  lemma PruneSorted(queue: seq<int>, cutoff: int)
    requires Sorted(queue)
    ensures Sorted(Prune(queue, cutoff))
    ensures forall i :: 0 <= i < |Prune(queue, cutoff)| ==> Prune(queue, cutoff)[i] >= cutoff
  {
    PruneSplit(queue, cutoff);
    var k := |queue| - |Prune(queue, cutoff)|;
    assert forall i :: 0 <= i < |Prune(queue, cutoff)| ==> Prune(queue, cutoff)[i] == queue[k + i];
  }

  /** Pruning at an earlier cutoff first is forgotten by pruning at a later one. */
  lemma {:induction false} PruneTwice(queue: seq<int>, earlier: int, later: int)
    requires earlier <= later
    ensures Prune(Prune(queue, earlier), later) == Prune(queue, later)
  {
    if queue != [] && queue[0] < earlier {
      PruneTwice(queue[1..], earlier, later);
    }
  }

  /** What survives of an extended queue depends only on what survives of the queue itself. */
  lemma {:induction false} PruneExtend(queue: seq<int>, cutoff: int, stamp: int)
    ensures Prune(queue + [stamp], cutoff) ==
            if Prune(queue, cutoff) == [] && stamp < cutoff then [] else Prune(queue, cutoff) + [stamp]
  {
    if queue != [] && queue[0] < cutoff {
      assert (queue + [stamp])[1..] == queue[1..] + [stamp];
      PruneExtend(queue[1..], cutoff, stamp);
    }
  }

  /** On a sorted log the stamps that survive pruning are the ones at or after the cutoff. */
  lemma {:induction false} PruneCounts(log: seq<int>, cutoff: int)
    requires Sorted(log)
    ensures |Prune(log, cutoff)| == CountSince(log, cutoff)
  {
    if log != [] {
      var pre, last := log[..|log| - 1], log[|log| - 1];
      assert log == pre + [last];
      PruneCounts(pre, cutoff);
      if cutoff <= last {
        PruneExtend(pre, cutoff, last);
      } else {
        PruneUnique(log, [], cutoff);
        PruneUnique(pre, [], cutoff);
        assert log + [] == log && pre + [] == pre;
      }
    }
  }

  // ---------- counting against spacing ----------

  lemma {:induction false} CountInSlice(log: seq<int>, lo: int, hi: int, i: nat, j: nat)
    requires i <= j <= |log|
    requires forall k :: i <= k < j ==> lo <= log[k] <= hi
    ensures CountIn(log, lo, hi) >= j - i
  {
    if log != [] && i < j {
      var pre := log[..|log| - 1];
      if j == |log| {
        CountInSlice(pre, lo, hi, i, j - 1);
      } else {
        CountInSlice(pre, lo, hi, i, j);
      }
    }
  }

  lemma {:induction false} CountTail(log: seq<int>, lo: int, hi: int)
    requires Sorted(log)
    requires log != [] ==> log[|log| - 1] <= hi
    ensures CountIn(log, lo, hi) <= |log|
    ensures forall k :: |log| - CountIn(log, lo, hi) <= k < |log| ==> lo <= log[k]
  {
    if log != [] {
      CountTail(log[..|log| - 1], lo, hi);
    }
  }

  /** A crowded interval exhibits two stamps `k` positions apart inside it. */
  lemma {:induction false} Crowded(log: seq<int>, lo: int, hi: int, k: nat) returns (i: nat)
    requires Sorted(log)
    requires CountIn(log, lo, hi) > k
    ensures i + k < |log|
    ensures lo <= log[i] && log[i + k] <= hi
  {
    if log[|log| - 1] <= hi {
      CountTail(log, lo, hi);
      i := |log| - CountIn(log, lo, hi);
    } else {
      i := Crowded(log[..|log| - 1], lo, hi, k);
    }
  }

  /** For a sorted log, spacing stamps `limit` apart is the same as bounding every window. */
  lemma SpacedIffWindowBounded(log: seq<int>, limit: nat, window: int)
    requires Sorted(log)
    ensures Spaced(log, limit, window) <==> WindowBounded(log, limit, window)
  {
    if Spaced(log, limit, window) {
      forall lo, hi | hi - lo == window
        ensures CountIn(log, lo, hi) <= limit
      {
        if CountIn(log, lo, hi) > limit {
          var i := Crowded(log, lo, hi, limit);
        }
      }
    }
    if WindowBounded(log, limit, window) {
      forall i, j | 0 <= i && i + limit == j < |log|
        ensures log[j] - log[i] > window
      {
        if log[j] - log[i] <= window {
          CountInSlice(log, log[i], log[i] + window, i, j + 1);
        }
      }
    }
  }

  /** The step that keeps a log spaced: fewer than `limit` stamps survive a cutoff taken one window before an
      instant that the new stamp does not precede. */
  lemma SpacedAppend(log: seq<int>, limit: nat, window: int, start: int, stamp: int)
    requires Sorted(log) && Spaced(log, limit, window)
    requires start <= stamp && forall i :: 0 <= i < |log| ==> log[i] <= start
    requires |Prune(log, start - window)| < limit
    ensures Sorted(log + [stamp]) && Spaced(log + [stamp], limit, window)
  {
    PruneSplit(log, start - window);
    forall i, j | 0 <= i && i + limit == j < |log + [stamp]|
      ensures (log + [stamp])[j] - (log + [stamp])[i] > window
    {
      if j < |log| {
        assert log[j] - log[i] > window;
      }
    }
  }

  lemma {:induction false} SpacedMultiple(log: seq<int>, limit: nat, window: int, n: nat, i: nat)
    requires Spaced(log, limit, window)
    requires n >= 1 && i + n * limit < |log|
    ensures log[i + n * limit] - log[i] > n * window
  {
    if n > 1 {
      var mid := i + (n - 1) * limit;
      assert mid + limit == i + n * limit;
      SpacedMultiple(log, limit, window, n - 1, i);
      assert log[mid + limit] - log[mid] > window;
      assert (n - 1) * window + window == n * window;
    } else {
      assert n * limit == limit && n * window == window;
    }
  }

  /** The rate bound holds at every multiple of the window. */
  lemma LongRunBound(log: seq<int>, limit: nat, window: int, n: nat, lo: int)
    requires Sorted(log) && Spaced(log, limit, window)
    requires n >= 1
    ensures CountIn(log, lo, lo + n * window) <= n * limit
  {
    if CountIn(log, lo, lo + n * window) > n * limit {
      var i := Crowded(log, lo, lo + n * window, n * limit);
      SpacedMultiple(log, limit, window, n, i);
    }
  }
}
