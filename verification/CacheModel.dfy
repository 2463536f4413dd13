/** The response cache as a value, under three expiry policies: the lazy one the service uses, which erases an
    expired entry only when `Get` meets it; one that drops every entry the instant it expires; and one that never
    erases an expired entry. No run can tell them apart. */
module CacheModel {
  import opened Results
  import opened MachineInts
  import opened CacheKeys

  datatype CacheEntry = CacheEntry(value: string, expiresAt: int)

  type Cache = map<string, CacheEntry>

  datatype Policy = Lazy | Eager | NeverErase

  /** `now` is the clock read of `Get` and `Set`; for the two invalidations it only dates the call. */
  datatype Op =
    | Get(key: string, now: int)
    | Set(key: string, value: string, ttlSeconds: int, now: int)
    | Invalidate(key: string, now: int)
    | InvalidateByPrefix(prefix: string, now: int)

  /** The entries that have not expired. */
  function Live(cache: Cache, now: int): Cache {
    cache - set key | key in cache && now > cache[key].expiresAt
  }

  /** The entries whose key does not start with the prefix. */
  function Swept(cache: Cache, prefix: string): Cache {
    cache - set key | key in cache && StartsWith(key, prefix)
  }

  function Lookup(cache: Cache, key: string, now: int): Option<string> {
    if key in cache && now <= cache[key].expiresAt then Some(cache[key].value) else None
  }

  function Step(policy: Policy, before: Cache, op: Op): (Cache, Option<string>) {
    var cache := if policy == Eager then Live(before, op.now) else before;
    match op
    case Get(key, now) =>
      if policy == Lazy && key in cache && now > cache[key].expiresAt then (cache - {key}, None)
      else (cache, Lookup(cache, key, now))
    case Set(key, value, ttlSeconds, now) =>
      (cache[key := CacheEntry(value, now + ttlSeconds * SECOND)], None)
    case Invalidate(key, _) => (cache - {key}, None)
    case InvalidateByPrefix(prefix, _) => (Swept(cache, prefix), None)
  }

  function CacheAfter(policy: Policy, ops: seq<Op>): Cache {
    if ops == [] then map[]
    else Step(policy, CacheAfter(policy, ops[..|ops| - 1]), ops[|ops| - 1]).0
  }

  /** What the operations of a run return, in order. */
  function Answers(policy: Policy, ops: seq<Op>): seq<Option<string>> {
    if ops == [] then []
    else
      var pre, op := ops[..|ops| - 1], ops[|ops| - 1];
      Answers(policy, pre) + [Step(policy, CacheAfter(policy, pre), op).1]
  }

  ghost predicate Clocked(ops: seq<Op>) {
    forall i, j :: 0 <= i <= j < |ops| ==> ops[i].now <= ops[j].now
  }

  /** One operation keeps two caches with the same live entries that way, and answers alike on them. */
  lemma StepAgrees(p: Policy, q: Policy, a: Cache, b: Cache, op: Op, later: int)
    requires op.now <= later
    requires Live(a, op.now) == Live(b, op.now)
    ensures Step(p, a, op).1 == Step(q, b, op).1
    ensures Live(Step(p, a, op).0, later) == Live(Step(q, b, op).0, later)
  {
    StepLive(p, a, op, later);
    StepLive(q, b, op, later);
    assert op.Get? ==> Lookup(a, op.key, op.now) == Lookup(Live(a, op.now), op.key, op.now);
    assert op.Get? ==> Lookup(b, op.key, op.now) == Lookup(Live(b, op.now), op.key, op.now);
  }

  /** Whatever the policy, the live entries after an operation are those of the operation on the live entries. */
  lemma StepLive(policy: Policy, cache: Cache, op: Op, later: int)
    requires op.now <= later
    ensures Live(Step(policy, cache, op).0, later) == Live(Step(NeverErase, Live(cache, op.now), op).0, later)
    ensures op.Get? ==> Step(policy, cache, op).1 == Lookup(Live(cache, op.now), op.key, op.now)
  {
  }

  lemma {:induction false} LiveAgrees(p: Policy, q: Policy, ops: seq<Op>, later: int)
    requires Clocked(ops) && forall i :: 0 <= i < |ops| ==> ops[i].now <= later
    ensures Live(CacheAfter(p, ops), later) == Live(CacheAfter(q, ops), later)
  {
    if ops != [] {
      var pre, op := ops[..|ops| - 1], ops[|ops| - 1];
      LiveAgrees(p, q, pre, op.now);
      StepAgrees(p, q, CacheAfter(p, pre), CacheAfter(q, pre), op, later);
    }
  }

  /** Under a clock that does not run backwards every policy gives the same answers: lazy expiry refines eager
      expiry, and the erasure inside `Get` never changes a later result. */
  lemma {:induction false} PolicyInvisible(p: Policy, q: Policy, ops: seq<Op>)
    requires Clocked(ops)
    ensures Answers(p, ops) == Answers(q, ops)
  {
    if ops != [] {
      var pre, op := ops[..|ops| - 1], ops[|ops| - 1];
      PolicyInvisible(p, q, pre);
      LiveAgrees(p, q, pre, op.now);
      StepAgrees(p, q, CacheAfter(p, pre), CacheAfter(q, pre), op, op.now);
    }
  }

  // ---------- the prefix sweep ----------

  /** `Invalidate` on each of `keys` in turn. */
  function InvalidateAll(cache: Cache, keys: seq<string>): Cache {
    if keys == [] then cache else InvalidateAll(cache - {keys[0]}, keys[1..])
  }

  lemma {:induction false} InvalidateAllErases(cache: Cache, keys: seq<string>)
    ensures InvalidateAll(cache, keys) == cache - set key | key in keys
  {
    if keys != [] {
      InvalidateAllErases(cache - {keys[0]}, keys[1..]);
      assert forall key :: key in keys <==> key == keys[0] || key in keys[1..];
    }
  }

  /** The sweep equals invalidating the matching keys one by one, in any order and with any repetition. */
  lemma SweepIsFold(cache: Cache, prefix: string, keys: seq<string>)
    requires forall key :: key in keys <==> key in cache && StartsWith(key, prefix)
    ensures InvalidateAll(cache, keys) == Swept(cache, prefix)
  {
    InvalidateAllErases(cache, keys);
  }
}
