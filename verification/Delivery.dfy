/** At-least-once delivery. The consumer works through one log in passes: a pass starts where the broker resumes it and
    ends where the consumer stops, in the middle of a batch or not; after a restart the next pass starts at some offset
    not past the first message no pass has reached. `decode` is what the consumer makes of a message. */
module Delivery {
  import opened Events
  import opened EventPipeline

  /** A pass over offsets `start .. start + |accepted|`; `accepted` says which inserts the database took. */
  datatype Pass = Pass(start: nat, accepted: seq<bool>) {
    function Stop(): nat { start + |accepted| }

    predicate Covers(offset: nat) { start <= offset < Stop() }

    predicate Accepts(offset: nat) { Covers(offset) && accepted[offset - start] }
  }

  /** The first offset no pass has reached. */
  function HighWater(passes: seq<Pass>): nat {
    if passes == [] then 0
    else
      var n := |passes| - 1;
      if passes[n].Stop() > HighWater(passes[..n]) then passes[n].Stop() else HighWater(passes[..n])
  }

  /** Every pass resumes at or before the first unreached message and stays inside the log. */
  ghost predicate Consumes(passes: seq<Pass>, log: seq<Message>) {
    passes == [] ||
    var n := |passes| - 1;
    Consumes(passes[..n], log) && passes[n].start <= HighWater(passes[..n]) && passes[n].Stop() <= |log|
  }

  /** Whether the log holds a message at `offset` that the consumer can store. */
  predicate Storable(log: seq<Message>, decode: Decoder, offset: nat) {
    offset < |log| && decode(log[offset]).Some?
  }

  /** The offsets whose messages one pass stores, in the order it stores them. */
  function PassOffsets(pass: Pass, log: seq<Message>, decode: Decoder): seq<nat>
    decreases |pass.accepted|
  {
    if pass.accepted == [] then []
    else
      var n := |pass.accepted| - 1;
      var earlier := PassOffsets(pass.(accepted := pass.accepted[..n]), log, decode);
      if pass.accepted[n] && Storable(log, decode, pass.start + n) then earlier + [pass.start + n] else earlier
  }

  /** The offsets stored by a whole run. */
  function StoredOffsets(passes: seq<Pass>, log: seq<Message>, decode: Decoder): seq<nat>
  {
    if passes == [] then []
    else
      var n := |passes| - 1;
      StoredOffsets(passes[..n], log, decode) + PassOffsets(passes[n], log, decode)
  }

  function TimesStored(passes: seq<Pass>, log: seq<Message>, decode: Decoder, offset: nat): nat
  {
    multiset(StoredOffsets(passes, log, decode))[offset]
  }

  /** How many passes reached `offset` and had its insert accepted. */
  function Acceptances(passes: seq<Pass>, offset: nat): nat {
    if passes == [] then 0
    else
      var n := |passes| - 1;
      Acceptances(passes[..n], offset) + (if passes[n].Accepts(offset) then 1 else 0)
  }

  ghost predicate Increasing(offsets: seq<nat>) {
    forall i, j :: 0 <= i < j < |offsets| ==> offsets[i] < offsets[j]
  }

  lemma {:induction false} IncreasingOnce(offsets: seq<nat>, offset: nat)
    requires Increasing(offsets)
    ensures multiset(offsets)[offset] == if offset in offsets then 1 else 0
  {
    if offsets != [] {
      var n := |offsets| - 1;
      IncreasingOnce(offsets[..n], offset);
      assert offsets == offsets[..n] + [offsets[n]];
    }
  }

  /** A pass stores, in log order, the offsets it accepts whose messages are well formed. */
  lemma {:induction false} PassStores(pass: Pass, log: seq<Message>, decode: Decoder)
    ensures Increasing(PassOffsets(pass, log, decode))
    ensures forall offset: nat :: offset in PassOffsets(pass, log, decode) <==>
              pass.Accepts(offset) && Storable(log, decode, offset)
    decreases |pass.accepted|
  {
    if pass.accepted != [] {
      var n := |pass.accepted| - 1;
      var earlier := pass.(accepted := pass.accepted[..n]);
      PassStores(earlier, log, decode);
      var offsets := PassOffsets(earlier, log, decode);
      forall i | 0 <= i < |offsets|
        ensures offsets[i] < pass.start + n
      {
        assert offsets[i] in offsets;
      }
      assert forall offset: nat :: pass.Accepts(offset) <==>
               earlier.Accepts(offset) || (offset == pass.start + n && pass.accepted[n]);
    }
  }

  lemma CountsAdd<T>(a: seq<T>, b: seq<T>, item: T)
    ensures multiset(a + b)[item] == multiset(a)[item] + multiset(b)[item]
  {
  }

  lemma PassCount(pass: Pass, log: seq<Message>, decode: Decoder, offset: nat)
    ensures multiset(PassOffsets(pass, log, decode))[offset] ==
            if pass.Accepts(offset) && Storable(log, decode, offset) then 1 else 0
  {
    PassStores(pass, log, decode);
    IncreasingOnce(PassOffsets(pass, log, decode), offset);
  }

  /** The records are those of the messages at these offsets, one for one. */
  ghost predicate RecordsAt(records: seq<Record>, offsets: seq<nat>, log: seq<Message>, decode: Decoder) {
    |records| == |offsets| &&
    forall i :: 0 <= i < |offsets| ==> Storable(log, decode, offsets[i]) && records[i] == decode(log[offsets[i]]).value
  }

  lemma RecordsAtSnoc(records: seq<Record>, offsets: seq<nat>, log: seq<Message>, decode: Decoder, offset: nat)
    requires RecordsAt(records, offsets, log, decode) && Storable(log, decode, offset)
    ensures RecordsAt(records + [decode(log[offset]).value], offsets + [offset], log, decode)
  {
  }

  /** The documents of a pass are the records of the offsets it stores. */
  lemma {:induction false} PassRecords(pass: Pass, log: seq<Message>, decode: Decoder)
    requires pass.Stop() <= |log|
    ensures var offsets := PassOffsets(pass, log, decode);
            var records := StoredOf(log[pass.start..pass.Stop()], pass.accepted, decode);
            RecordsAt(records, offsets, log, decode)
    decreases |pass.accepted|
  {
    if pass.accepted != [] {
      var n := |pass.accepted| - 1;
      var earlier := pass.(accepted := pass.accepted[..n]);
      PassRecords(earlier, log, decode);
      var messages := log[pass.start..pass.Stop()];
      assert messages[..n] == log[earlier.start..earlier.Stop()] && messages[n] == log[pass.start + n];
      if pass.accepted[n] && Storable(log, decode, pass.start + n) {
        RecordsAtSnoc(StoredOf(messages[..n], earlier.accepted, decode), PassOffsets(earlier, log, decode), log, decode,
                      pass.start + n);
      }
    }
  }

  /** One more pass adds what it stores of `offset`. */
  lemma CountStep(passes: seq<Pass>, log: seq<Message>, decode: Decoder, offset: nat)
    requires passes != []
    ensures var n := |passes| - 1;
            TimesStored(passes, log, decode, offset) ==
            TimesStored(passes[..n], log, decode, offset) +
            (if passes[n].Accepts(offset) && Storable(log, decode, offset) then 1 else 0)
  {
    var n := |passes| - 1;
    PassCount(passes[n], log, decode, offset);
    CountsAdd(StoredOffsets(passes[..n], log, decode), PassOffsets(passes[n], log, decode), offset);
  }

  /** The count, exactly: an ill-formed message is never stored, a well-formed one once for every pass that reached
      it and had its insert accepted. */
  lemma {:induction false} StoredCount(passes: seq<Pass>, log: seq<Message>, decode: Decoder, offset: nat)
    ensures TimesStored(passes, log, decode, offset) ==
            if Storable(log, decode, offset) then Acceptances(passes, offset) else 0
  {
    if passes != [] {
      StoredCount(passes[..|passes| - 1], log, decode, offset);
      CountStep(passes, log, decode, offset);
    }
  }

  lemma {:induction false} HighWaterInLog(passes: seq<Pass>, log: seq<Message>)
    requires Consumes(passes, log)
    ensures HighWater(passes) <= |log|
  {
    if passes != [] {
      HighWaterInLog(passes[..|passes| - 1], log);
    }
  }

  lemma {:induction false} CoveredBelowHighWater(passes: seq<Pass>, log: seq<Message>, offset: nat)
    requires Consumes(passes, log) && offset < HighWater(passes)
    ensures exists i :: 0 <= i < |passes| && passes[i].Covers(offset)
  {
    var n := |passes| - 1;
    if offset < HighWater(passes[..n]) {
      CoveredBelowHighWater(passes[..n], log, offset);
      var i :| 0 <= i < n && passes[..n][i].Covers(offset);
      assert passes[i].Covers(offset);
    } else {
      assert passes[n].Covers(offset);
    }
  }

  lemma {:induction false} AcceptancesBounds(passes: seq<Pass>, offset: nat)
    ensures Acceptances(passes, offset) <= |passes|
    ensures Acceptances(passes, offset) > 0 <==> exists i :: 0 <= i < |passes| && passes[i].Accepts(offset)
  {
    if passes != [] {
      var n := |passes| - 1;
      AcceptancesBounds(passes[..n], offset);
      assert forall i :: 0 <= i < n ==> passes[..n][i] == passes[i];
      if i :| 0 <= i < |passes| && passes[i].Accepts(offset) {
        assert i < n ==> passes[..n][i].Accepts(offset);
      }
    }
  }

  ghost predicate InsertsSucceed(passes: seq<Pass>) {
    forall i, k :: 0 <= i < |passes| && 0 <= k < |passes[i].accepted| ==> passes[i].accepted[k]
  }

  /** Redelivery safety. When inserts succeed, every well-formed message below the high-water mark is stored at least
      once and at most once per pass -- one plus the number of restarts -- and no ill-formed message ever is. */
  lemma RedeliverySafety(passes: seq<Pass>, log: seq<Message>, decode: Decoder, offset: nat)
    requires Consumes(passes, log) && InsertsSucceed(passes)
    requires offset < HighWater(passes)
    ensures offset < |log|
    ensures Storable(log, decode, offset) ==> 1 <= TimesStored(passes, log, decode, offset) <= |passes|
    ensures !Storable(log, decode, offset) ==> TimesStored(passes, log, decode, offset) == 0
  {
    HighWaterInLog(passes, log);
    CoveredBelowHighWater(passes, log, offset);
    StoredCount(passes, log, decode, offset);
    AcceptancesBounds(passes, offset);
  }

  /** Inserts may fail, and a failure is swallowed while the offset still moves on. So a well-formed message is stored
      at all exactly when some pass that reached it had its insert accepted: at-least-once is not unconditional. */
  lemma StoredIffAccepted(passes: seq<Pass>, log: seq<Message>, decode: Decoder, offset: nat)
    requires Storable(log, decode, offset)
    ensures TimesStored(passes, log, decode, offset) > 0 <==>
            exists i :: 0 <= i < |passes| && passes[i].Accepts(offset)
  {
    StoredCount(passes, log, decode, offset);
    AcceptancesBounds(passes, offset);
  }

  lemma OneMorePass(passes: seq<Pass>, pass: Pass, log: seq<Message>, offset: nat)
    requires Consumes(passes, log) && pass.start <= HighWater(passes) && pass.Stop() <= |log|
    ensures Consumes(passes + [pass], log)
    ensures HighWater(passes + [pass]) >= pass.Stop()
    ensures Acceptances(passes + [pass], offset) ==
            Acceptances(passes, offset) + (if pass.Accepts(offset) then 1 else 0)
  {
    assert (passes + [pass])[..|passes|] == passes;
  }

  /** A run in which a well-formed message lies below the high-water mark and is nowhere stored. */
  lemma SwallowedInsertLosesMessage(message: Message, decode: Decoder) returns (passes: seq<Pass>)
    requires decode(message).Some?
    ensures Consumes(passes, [message]) && 0 < HighWater(passes)
    ensures TimesStored(passes, [message], decode, 0) == 0
  {
    var pass := Pass(0, [false]);
    OneMorePass([], pass, [message], 0);
    passes := [] + [pass];
    StoredCount(passes, [message], decode, 0);
  }

  /** Nor is it exactly-once: nothing in the store rejects a second copy, so a restart that resumes from the start
      stores a message twice, and the upper bound is attained. */
  lemma RestartStoresTwice(message: Message, decode: Decoder) returns (passes: seq<Pass>)
    requires decode(message).Some?
    ensures Consumes(passes, [message]) && InsertsSucceed(passes) && |passes| == 2
    ensures TimesStored(passes, [message], decode, 0) == 2
  {
    var pass := Pass(0, [true]);
    OneMorePass([], pass, [message], 0);
    OneMorePass([] + [pass], pass, [message], 0);
    passes := [] + [pass] + [pass];
    StoredCount(passes, [message], decode, 0);
  }

  // ---------- the consumer object over a whole run ----------

  /** The messages of a pass as one batch. */
  function BatchOf(pass: Pass, log: seq<Message>): Batch
    requires pass.Stop() <= |log|
  {
    Batch(log[pass.start..pass.Stop()], pass.accepted)
  }

  lemma {:induction false} ConsumesPrefix(passes: seq<Pass>, log: seq<Message>, k: nat)
    requires Consumes(passes, log) && k <= |passes|
    ensures Consumes(passes[..k], log)
    ensures k < |passes| ==> passes[k].Stop() <= |log|
  {
    if k == |passes| {
      assert passes[..k] == passes;
    } else if k < |passes| - 1 {
      ConsumesPrefix(passes[..|passes| - 1], log, k);
      assert passes[..|passes| - 1][..k] == passes[..k];
    }
  }

  /** Over any run of passes the consumer object stores exactly the messages at the offsets the run stores. */
  method ConsumeAll(consumer: EventConsumer, passes: seq<Pass>, log: seq<Message>, clock: string)
    requires Consumes(passes, log) && consumer.rawEvents == []
    modifies consumer
    ensures RecordsAt(consumer.Records(), StoredOffsets(passes, log, DecoderFor(consumer.toBson)), log,
                      DecoderFor(consumer.toBson))
  {
    ghost var decode := DecoderFor(consumer.toBson);
    for k := 0 to |passes|
      invariant RecordsAt(consumer.Records(), StoredOffsets(passes[..k], log, decode), log, decode)
    {
      ConsumesPrefix(passes, log, k);
      var batch := BatchOf(passes[k], log);
      PassRecords(passes[k], log, decode);
      assert passes[..k + 1][..k] == passes[..k];
      consumer.ProcessBatch(batch.messages, seq(|batch.messages|, _ => clock), batch.accepted);
    }
    assert passes[..|passes|] == passes;
  }
}
