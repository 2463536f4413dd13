/** Delivery over all lanes. The consumer works through every lane in passes of its own, restarts included, and is fed
    any interleaving of what the lanes deliver. */
module LaneDelivery {
  import opened Results
  import opened Events
  import opened EventPipeline
  import opened LaneOrder
  import opened Delivery

  /** What one lane delivers, pass after pass. */
  ghost function Batches(passes: seq<Pass>, log: seq<Message>): (batches: seq<Batch>)
    requires Consumes(passes, log)
    ensures Matched(batches)
  {
    if passes == [] then []
    else
      var n := |passes| - 1;
      Batches(passes[..n], log) + [BatchOf(passes[n], log)]
  }

  /** The consumer is fed some interleaving of what the lanes deliver: of each lane its passes, in order. */
  ghost predicate Feeds(feed: seq<Message>, accepted: seq<bool>, publications: seq<Publication>,
                        passes: Lane -> seq<Pass>, partition: Partitioner) {
    |accepted| == |feed| &&
    forall lane ::
      var log := OnLane(Sent(publications), partition, lane);
      && Consumes(passes(lane), log)
      && OnLane(feed, partition, lane) == Messages(Batches(passes(lane), log))
      && FlagsOn(feed, accepted, partition, lane) == Accepted(Batches(passes(lane), log))
  }

  // ---------- one lane ----------

  lemma RecordsAtConcat(a: seq<Record>, offsetsA: seq<nat>, b: seq<Record>, offsetsB: seq<nat>, log: seq<Message>,
                        decode: Decoder)
    requires RecordsAt(a, offsetsA, log, decode) && RecordsAt(b, offsetsB, log, decode)
    ensures RecordsAt(a + b, offsetsA + offsetsB, log, decode)
  {
  }

  lemma {:induction false} BatchesLength(passes: seq<Pass>, log: seq<Message>)
    requires Consumes(passes, log)
    ensures |Batches(passes, log)| == |passes|
  {
    if passes != [] {
      BatchesLength(passes[..|passes| - 1], log);
    }
  }

  lemma StoredSnocBatch(passes: seq<Pass>, log: seq<Message>, decode: Decoder)
    requires Consumes(passes, log) && passes != []
    ensures var n := |passes| - 1;
            StoredByBatches(Batches(passes, log), decode) ==
            StoredByBatches(Batches(passes[..n], log), decode) +
            StoredOf(log[passes[n].start..passes[n].Stop()], passes[n].accepted, decode)
  {
    var n := |passes| - 1;
    BatchesLength(passes[..n], log);
    assert Batches(passes, log)[..n] == Batches(passes[..n], log);
  }

  /** What the passes over one log store are the records at the offsets that `Delivery` speaks of. */
  lemma {:induction false} PassesRecords(passes: seq<Pass>, log: seq<Message>, decode: Decoder)
    requires Consumes(passes, log)
    ensures RecordsAt(StoredByBatches(Batches(passes, log), decode), StoredOffsets(passes, log, decode), log, decode)
  {
    if passes != [] {
      var n := |passes| - 1;
      PassesRecords(passes[..n], log, decode);
      PassRecords(passes[n], log, decode);
      StoredSnocBatch(passes, log, decode);
      RecordsAtConcat(StoredByBatches(Batches(passes[..n], log), decode), StoredOffsets(passes[..n], log, decode),
                      StoredOf(log[passes[n].start..passes[n].Stop()], passes[n].accepted, decode),
                      PassOffsets(passes[n], log, decode), log, decode);
    }
  }

  lemma FeedStorable(feed: seq<Message>, accepted: seq<bool>, publications: seq<Publication>,
                     passes: Lane -> seq<Pass>, toBson: Json -> bool, partition: Partitioner)
    requires forall event :: toBson(ToPayload(event))
    requires Feeds(feed, accepted, publications, passes, partition)
    ensures Traceable(feed, DecoderFor(toBson), partition)
  {
    forall i | 0 <= i < |feed|
      ensures DecoderFor(toBson)(feed[i]).Some?
      ensures RecordLane(DecoderFor(toBson)(feed[i]).value, partition) == LaneOf(feed[i], partition)
    {
      var lane := LaneOf(feed[i], partition);
      var log := OnLane(Sent(publications), partition, lane);
      assert feed[i] in feed;
      OnLaneMembers(feed, partition, feed[i]);
      DeliveredFromLog(passes(lane), log, feed[i]);
      OnLaneSubset(Sent(publications), partition, lane, feed[i]);
      SentPublished(publications);
      PublishedTraceable(feed[i], toBson, partition);
    }
  }

  lemma {:induction false} DeliveredFromLog(passes: seq<Pass>, log: seq<Message>, message: Message)
    requires Consumes(passes, log) && message in Messages(Batches(passes, log))
    ensures message in log
  {
    var n := |passes| - 1;
    BatchesLength(passes, log);
    var batches := Batches(passes, log);
    assert batches[..n] == Batches(passes[..n], log) by {
      BatchesLength(passes[..n], log);
    }
    if message in Messages(batches[..n]) {
      DeliveredFromLog(passes[..n], log, message);
    } else {
      assert message in log[passes[n].start..passes[n].Stop()];
    }
  }

  lemma {:induction false} OnLaneSubset(messages: seq<Message>, partition: Partitioner, lane: Lane, message: Message)
    requires message in OnLane(messages, partition, lane)
    ensures message in messages
  {
    var n := |messages| - 1;
    if message in OnLane(messages[..n], partition, lane) {
      OnLaneSubset(messages[..n], partition, lane, message);
    }
  }

  // ---------- all lanes ----------

  /** Each lane by itself: what is stored of a lane are the records at the offsets its own passes store. So everything
      said of one log -- how often a message is stored, and when it is at all -- holds of every lane of every feed. */
  lemma LanesApart(feed: seq<Message>, accepted: seq<bool>, publications: seq<Publication>,
                   passes: Lane -> seq<Pass>, toBson: Json -> bool, partition: Partitioner, lane: Lane)
    requires forall event :: toBson(ToPayload(event))
    requires Feeds(feed, accepted, publications, passes, partition)
    ensures var decode, log := DecoderFor(toBson), OnLane(Sent(publications), partition, lane);
            RecordsAt(RecordsOn(StoredOf(feed, accepted, decode), partition, lane),
                      StoredOffsets(passes(lane), log, decode), log, decode)
  {
    var decode, log := DecoderFor(toBson), OnLane(Sent(publications), partition, lane);
    FeedStorable(feed, accepted, publications, passes, toBson, partition);
    StoredOnLane(feed, accepted, lane, decode, partition);
    assert Consumes(passes(lane), log);
    BatchingIrrelevant(Batches(passes(lane), log), decode);
    PassesRecords(passes(lane), log, decode);
  }

  // ---------- how many copies ----------

  lemma SliceCount(records: seq<Record>, a: nat, b: nat, c: nat, record: Record)
    requires a <= b <= c <= |records|
    ensures multiset(records[a..b])[record] <= multiset(records[..c])[record]
  {
    assert records[..c] == records[..a] + (records[a..b] + records[b..c]);
    CountsAdd(records[..a], records[a..b] + records[b..c], record);
    CountsAdd(records[a..b], records[b..c], record);
  }

  /** A pass that starts no later than `high` adds whatever lies between `high` and its end. */
  lemma SliceReaches(records: seq<Record>, start: nat, high: nat, stop: nat, record: Record)
    requires start <= high && start <= stop <= |records| && high <= |records|
    ensures var top := if stop > high then stop else high;
            multiset(records[..top])[record] <=
            multiset(records[..high])[record] + multiset(records[start..stop])[record]
  {
    if stop > high {
      assert records[..stop] == records[..high] + records[high..stop];
      assert records[start..stop] == records[start..high] + records[high..stop];
      CountsAdd(records[..high], records[high..stop], record);
      CountsAdd(records[start..high], records[high..stop], record);
    }
  }

  /** With its inserts accepted a pass stores the records of its slice of the log. */
  lemma SliceStored(log: seq<Message>, accepted: seq<bool>, decode: Decoder, a: nat, b: nat)
    requires a <= b <= |log| && |accepted| == b - a && forall i :: 0 <= i < |accepted| ==> accepted[i]
    requires forall i :: 0 <= i < |log| ==> decode(log[i]).Some?
    ensures |StoredOf(log, Yes(|log|), decode)| == |log|
    ensures StoredOf(log[a..b], accepted, decode) == StoredOf(log, Yes(|log|), decode)[a..b]
  {
    var records, part := StoredOf(log, Yes(|log|), decode), StoredOf(log[a..b], accepted, decode);
    if |log| > 0 {
      StoredAt(log, Yes(|log|), decode, 0);
    }
    if a < b {
      StoredAt(log[a..b], accepted, decode, 0);
    }
    forall i | 0 <= i < b - a
      ensures part[i] == records[a + i]
    {
      StoredAt(log[a..b], accepted, decode, i);
      StoredAt(log, Yes(|log|), decode, a + i);
    }
  }

  lemma BoundsAdd(before: nat, after: nat, copies: nat, more: nat, n: nat)
    requires before <= copies <= n * before
    requires before <= after <= before + more && more <= after
    ensures after <= copies + more <= (n + 1) * after
  {
    assert n * before <= n * after;
  }

  /** The bounds survive one pass more. */
  lemma BoundsStep(records: seq<Record>, start: nat, high: nat, stop: nat, record: Record, copies: nat, n: nat)
    requires start <= high && start <= stop <= |records| && high <= |records|
    requires multiset(records[..high])[record] <= copies <= n * multiset(records[..high])[record]
    ensures var top := if stop > high then stop else high;
            multiset(records[..top])[record] <=
            copies + multiset(records[start..stop])[record] <= (n + 1) * multiset(records[..top])[record]
  {
    var top := if stop > high then stop else high;
    SliceReaches(records, start, high, stop, record);
    SliceCount(records, start, stop, top, record);
    SliceCount(records, 0, high, top, record);
    assert records[0..high] == records[..high];
    BoundsAdd(multiset(records[..high])[record], multiset(records[..top])[record], copies,
              multiset(records[start..stop])[record], n);
  }

  /** The passes over one log store each record at least as often as it occurs in what they reached, and at most as
      often as that in every pass. */
  lemma {:induction false} CopiesOfLane(passes: seq<Pass>, log: seq<Message>, decode: Decoder, record: Record)
    requires Consumes(passes, log) && InsertsSucceed(passes)
    requires forall i :: 0 <= i < |log| ==> decode(log[i]).Some?
    ensures HighWater(passes) <= |log| == |StoredOf(log, Yes(|log|), decode)|
    ensures var reached := multiset(StoredOf(log, Yes(|log|), decode)[..HighWater(passes)])[record];
            reached <= multiset(StoredByBatches(Batches(passes, log), decode))[record] <= |passes| * reached
  {
    HighWaterInLog(passes, log);
    SliceStored(log, [], decode, 0, 0);
    if passes != [] {
      var front, pass := passes[..|passes| - 1], passes[|passes| - 1];
      var records, stored := StoredOf(log, Yes(|log|), decode), StoredByBatches(Batches(front, log), decode);
      CopiesOfLane(front, log, decode, record);
      SliceStored(log, pass.accepted, decode, pass.start, pass.Stop());
      BoundsStep(records, pass.start, HighWater(front), pass.Stop(), record, multiset(stored)[record], |front|);
      StoredSnocBatch(passes, log, decode);
      CountsAdd(stored, records[pass.start..pass.Stop()], record);
    }
  }

  /** At least once, at most once a pass. When inserts succeed, every record is stored at least as often as it was sent
      among what the passes over its lane have reached, and at most as often as that in every pass: one plus the number
      of restarts. This holds for any interleaving of the lanes, each with passes of its own. */
  lemma AtLeastOnce(feed: seq<Message>, accepted: seq<bool>, publications: seq<Publication>,
                    passes: Lane -> seq<Pass>, toBson: Json -> bool, partition: Partitioner, record: Record)
    requires forall event :: toBson(ToPayload(event))
    requires Feeds(feed, accepted, publications, passes, partition)
    requires forall lane :: InsertsSucceed(passes(lane))
    ensures var lane := RecordLane(record, partition);
            var sent, high := RecordsOn(SentRecords(publications), partition, lane), HighWater(passes(lane));
            && high <= |sent|
            && var copies := multiset(StoredOf(feed, accepted, DecoderFor(toBson)))[record];
               multiset(sent[..high])[record] <= copies <= |passes(lane)| * multiset(sent[..high])[record]
  {
    var decode, lane := DecoderFor(toBson), RecordLane(record, partition);
    var log := OnLane(Sent(publications), partition, lane);
    SentOnLane(publications, toBson, partition, lane);
    assert Consumes(passes(lane), log);
    CopiesOfLane(passes(lane), log, decode, record);
    FeedStorable(feed, accepted, publications, passes, toBson, partition);
    StoredOnLane(feed, accepted, lane, decode, partition);
    BatchingIrrelevant(Batches(passes(lane), log), decode);
    CountOnLane(StoredOf(feed, accepted, decode), partition, record);
  }

  /** The log of a lane holds the records sent to it. */
  lemma SentOnLane(publications: seq<Publication>, toBson: Json -> bool, partition: Partitioner, lane: Lane)
    requires forall event :: toBson(ToPayload(event))
    ensures var decode, log := DecoderFor(toBson), OnLane(Sent(publications), partition, lane);
            && (forall i :: 0 <= i < |log| ==> decode(log[i]).Some?)
            && StoredOf(log, Yes(|log|), decode) == RecordsOn(SentRecords(publications), partition, lane)
  {
    var sent, decode := Sent(publications), DecoderFor(toBson);
    var log, all := OnLane(sent, partition, lane), Yes(|sent|);
    FeedTraceable(publications, sent, toBson, partition);
    StoredSent(publications, all, toBson);
    StoredOnLane(sent, all, lane, decode, partition);
    assert FlagsOn(sent, all, partition, lane) == Yes(|log|);
    forall i | 0 <= i < |log|
      ensures decode(log[i]).Some?
    {
      OnLaneSubset(sent, partition, lane, log[i]);
    }
  }

  /** Once every lane has been read to its end, that is every record that was sent. */
  lemma AllSentStored(feed: seq<Message>, accepted: seq<bool>, publications: seq<Publication>,
                      passes: Lane -> seq<Pass>, toBson: Json -> bool, partition: Partitioner, record: Record)
    requires forall event :: toBson(ToPayload(event))
    requires Feeds(feed, accepted, publications, passes, partition)
    requires forall lane :: InsertsSucceed(passes(lane))
    requires forall lane :: HighWater(passes(lane)) == |OnLane(Sent(publications), partition, lane)|
    ensures var sent := multiset(SentRecords(publications))[record];
            var copies := multiset(StoredOf(feed, accepted, DecoderFor(toBson)))[record];
            sent <= copies <= |passes(RecordLane(record, partition))| * sent
  {
    var lane := RecordLane(record, partition);
    var log, sent := OnLane(Sent(publications), partition, lane), RecordsOn(SentRecords(publications), partition, lane);
    AtLeastOnce(feed, accepted, publications, passes, toBson, partition, record);
    SentOnLane(publications, toBson, partition, lane);
    SliceStored(log, [], DecoderFor(toBson), 0, 0);
    assert sent[..HighWater(passes(lane))] == sent;
    CountOnLane(SentRecords(publications), partition, record);
  }

  lemma OneBatch(batch: Batch)
    ensures Messages([batch]) == batch.messages && Accepted([batch]) == batch.accepted
  {
    assert [batch][..0] == [];
    assert [] + batch.messages == batch.messages && [] + batch.accepted == batch.accepted;
  }

  lemma OnePassConsumes(pass: Pass, log: seq<Message>)
    requires pass.start == 0 && pass.Stop() == |log|
    ensures Consumes([pass], log) && HighWater([pass]) == |log|
    ensures Batches([pass], log) == [Batch(log, pass.accepted)]
  {
    assert [pass][..0] == [];
    assert log[0..|log|] == log;
  }

  lemma OnePass(log: seq<Message>)
    ensures var passes := [Pass(0, Yes(|log|))];
            && Consumes(passes, log) && InsertsSucceed(passes) && HighWater(passes) == |log|
            && Messages(Batches(passes, log)) == log && Accepted(Batches(passes, log)) == Yes(|log|)
  {
    OnePassConsumes(Pass(0, Yes(|log|)), log);
    OneBatch(Batch(log, Yes(|log|)));
  }

  /** One pass over every lane, in the order of publication, is such a feed, and so is any interleaving of it. */
  lemma OnePassFeeds(feed: seq<Message>, publications: seq<Publication>, partition: Partitioner)
    requires Interleaves(feed, publications, partition)
    ensures Feeds(feed, Yes(|feed|), publications,
                  lane => [Pass(0, Yes(|OnLane(Sent(publications), partition, lane)|))], partition)
  {
    forall lane
      ensures var log := OnLane(Sent(publications), partition, lane);
              var passes := [Pass(0, Yes(|log|))];
              && Consumes(passes, log)
              && OnLane(feed, partition, lane) == Messages(Batches(passes, log))
              && FlagsOn(feed, Yes(|feed|), partition, lane) == Accepted(Batches(passes, log))
    {
      OnePass(OnLane(Sent(publications), partition, lane));
      assert FlagsOn(feed, Yes(|feed|), partition, lane) == Yes(|OnLane(feed, partition, lane)|);
    }
  }
}
