/** The producer and the consumer as objects, and what any way of batching a log stores. */
module EventPipeline {
  import opened Results
  import opened Decimal
  import opened Events

  /** One publish: `sent` says whether the broker took the message, `generatedTrace` is the trace id made up when the
      request carries none. */
  datatype Publication = Publication(event: Event, eventId: string, timestamp: string, traceId: string,
                                     generatedTrace: string, sent: bool)

  function Trace(p: Publication): string {
    if p.traceId == "" then p.generatedTrace else p.traceId
  }

  /** The trace id of a request reaches the envelope; only a request without one gets a new id. */
  lemma EnvelopeTrace(p: Publication)
    ensures var envelope := Envelope(p.event, p.eventId, p.timestamp, Trace(p));
            && "metadata" in envelope.members && envelope.members["metadata"].JObject?
            && var metadata := envelope.members["metadata"].members;
               "trace_id" in metadata &&
               metadata["trace_id"] == JStr(if |p.traceId| > 0 then p.traceId else p.generatedTrace)
  {
  }

  /** The messages a sequence of publishes hands to the broker, in publication order; a failed send hands over none. */
  function Sent(publications: seq<Publication>): seq<Message> {
    if publications == [] then []
    else
      var n := |publications| - 1;
      var p := publications[n];
      if p.sent then Sent(publications[..n]) + [MessageOf(p.event, p.eventId, p.timestamp, Trace(p))]
      else Sent(publications[..n])
  }

  /** The records of the events that were sent, in publication order. */
  function SentRecords(publications: seq<Publication>): seq<Record> {
    if publications == [] then []
    else
      var n := |publications| - 1;
      var p := publications[n];
      var earlier := SentRecords(publications[..n]);
      if p.sent then earlier + [Record(p.eventId, TypeName(p.event), p.timestamp, ToPayload(p.event))] else earlier
  }

  /** The messages that go to one lane. */
  function OnLane(messages: seq<Message>, partition: Partitioner, lane: Lane): seq<Message> {
    if messages == [] then []
    else
      var n := |messages| - 1;
      var earlier := OnLane(messages[..n], partition, lane);
      if LaneOf(messages[n], partition) == lane then earlier + [messages[n]] else earlier
  }

  /** The records that came through one lane. */
  function RecordsOn(records: seq<Record>, partition: Partitioner, lane: Lane): seq<Record> {
    if records == [] then []
    else
      var n := |records| - 1;
      var earlier := RecordsOn(records[..n], partition, lane);
      if RecordLane(records[n], partition) == lane then earlier + [records[n]] else earlier
  }

  /** What processing `messages` in order stores; `accepted[i]` says whether the database took the i-th insert. */
  function StoredOf(messages: seq<Message>, accepted: seq<bool>, decode: Decoder): seq<Record>
    requires |accepted| == |messages|
  {
    if messages == [] then []
    else
      var n := |messages| - 1;
      var earlier := StoredOf(messages[..n], accepted[..n], decode);
      if decode(messages[n]).Some? && accepted[n] then earlier + [decode(messages[n]).value] else earlier
  }

  lemma StoredStep(messages: seq<Message>, accepted: seq<bool>, n: nat, decode: Decoder)
    requires |accepted| == |messages| && n < |messages|
    ensures StoredOf(messages[..n + 1], accepted[..n + 1], decode) ==
            StoredOf(messages[..n], accepted[..n], decode) +
            (if decode(messages[n]).Some? && accepted[n] then [decode(messages[n]).value] else [])
  {
    assert messages[..n + 1][..n] == messages[..n] && accepted[..n + 1][..n] == accepted[..n];
  }

  lemma OnLaneSnoc(messages: seq<Message>, message: Message, partition: Partitioner, lane: Lane)
    ensures OnLane(messages + [message], partition, lane) ==
            if LaneOf(message, partition) == lane then OnLane(messages, partition, lane) + [message]
            else OnLane(messages, partition, lane)
  {
    assert (messages + [message])[..|messages|] == messages;
  }

  /** The producer, with the broker's logs as it fills them. */
  class EventProducer {
    const partition: Partitioner
    var logs: map<Lane, seq<Message>>

    constructor (partition: Partitioner)
      ensures logs == map[] && this.partition == partition
    {
      this.partition := partition;
      logs := map[];
    }

    function LogAt(lane: Lane): seq<Message>
      reads this
    {
      if lane in logs then logs[lane] else []
    }

    /** Failures to send are logged and swallowed; a message that is sent goes to the end of its lane's log. */
    method Publish(topic: string, key: string, eventType: string, payload: Json, p: Publication)
      modifies this
      ensures var envelope := JObject(map["event_id" := JStr(p.eventId), "event_type" := JStr(eventType),
                "timestamp" := JStr(p.timestamp), "version" := JStr("1.0"), "payload" := payload,
                "metadata" := JObject(map["trace_id" := JStr(if p.traceId != "" then p.traceId else p.generatedTrace),
                                          "source_service" := JStr("myservice")])]);
              var message := Message(topic, key, Some(envelope));
              forall lane :: LogAt(lane) ==
                if p.sent && lane == LaneOf(message, partition) then old(LogAt(lane)) + [message] else old(LogAt(lane))
    {
      var fields := map["event_id" := JStr(p.eventId), "event_type" := JStr(eventType),
                        "timestamp" := JStr(p.timestamp), "version" := JStr("1.0"), "payload" := payload];
      var metadata := map["trace_id" := JStr(if p.traceId == "" then p.generatedTrace else p.traceId),
                          "source_service" := JStr("myservice")];
      fields := fields["metadata" := JObject(metadata)];
      if p.sent {
        var message := Message(topic, key, Some(JObject(fields)));
        var lane := LaneOf(message, partition);
        logs := logs[lane := LogAt(lane) + [message]];
      }
    }

    /** The five `Publish*` methods: topic, key, type name and payload all come from the event. */
    method PublishEvent(p: Publication)
      modifies this
      ensures var message := MessageOf(p.event, p.eventId, p.timestamp, Trace(p));
              forall lane :: LogAt(lane) ==
                if p.sent && lane == LaneOf(message, partition) then old(LogAt(lane)) + [message] else old(LogAt(lane))
    {
      match p.event
      case UserRegistered(userId, _, _, _, _) =>
        Publish("user-events", ToString(userId), "UserRegistered", ToPayload(p.event), p);
      case UserLoggedIn(userId, _, _) =>
        Publish("user-events", ToString(userId), "UserLoggedIn", ToPayload(p.event), p);
      case ProjectCreated(projectId, _, _, _) =>
        Publish("project-events", ToString(projectId), "ProjectCreated", ToPayload(p.event), p);
      case TaskCreated(taskId, _, _, _, _, _, _) =>
        Publish("task-events", ToString(taskId), "TaskCreated", ToPayload(p.event), p);
      case CommentAdded(commentId, _, _, _) =>
        Publish("comment-events", commentId, "CommentAdded", ToPayload(p.event), p);
    }

    /** After a run of publishes every lane's log holds the messages sent to it, in publication order. */
    method PublishAll(publications: seq<Publication>)
      requires logs == map[]
      modifies this
      ensures forall lane :: LogAt(lane) == OnLane(Sent(publications), partition, lane)
    {
      for n := 0 to |publications|
        invariant forall lane :: LogAt(lane) == OnLane(Sent(publications[..n]), partition, lane)
      {
        var p := publications[n];
        assert publications[..n + 1][..n] == publications[..n];
        ghost var message := MessageOf(p.event, p.eventId, p.timestamp, Trace(p));
        PublishEvent(p);
        forall lane
          ensures LogAt(lane) == OnLane(Sent(publications[..n + 1]), partition, lane)
        {
          OnLaneSnoc(Sent(publications[..n]), message, partition, lane);
        }
      }
      assert publications[..|publications|] == publications;
    }
  }

  class EventConsumer {
    const toBson: Json -> bool
    var rawEvents: seq<RawEvent>

    constructor (toBson: Json -> bool)
      ensures rawEvents == [] && this.toBson == toBson
    {
      this.toBson := toBson;
      rawEvents := [];
    }

    ghost function Records(): seq<Record>
      reads this
    {
      RecordsIn(rawEvents)
    }

    /** A payload that does not convert and an insert that fails are both logged and swallowed. */
    method StoreEvent(record: Record, processedAt: string, accepted: bool)
      modifies this
      ensures rawEvents == if toBson(record.payload) && accepted then old(rawEvents) + [RawEvent(record, processedAt)]
                           else old(rawEvents)
      ensures Records() == if toBson(record.payload) && accepted then old(Records()) + [record] else old(Records())
    {
      if toBson(record.payload) && accepted {
        rawEvents := rawEvents + [RawEvent(record, processedAt)];
      }
    }

    /** The body of the loop: a message that cannot be read is skipped. */
    method ProcessMessage(message: Message, processedAt: string, accepted: bool)
      modifies this
      ensures Records() == if Decode(message, toBson).Some? && accepted
                           then old(Records()) + [Decode(message, toBson).value] else old(Records())
    {
      if message.body.None? || !message.body.value.JObject? {
        return;
      }
      var json := message.body.value;
      if !(HasStr(json, "event_id") && HasStr(json, "event_type") && HasStr(json, "timestamp")) {
        return;
      }
      var eventType := json.members["event_type"].text;
      if "payload" in json.members && PayloadReadable(eventType, json.members["payload"]) {
        StoreEvent(Record(json.members["event_id"].text, eventType, json.members["timestamp"].text,
                          json.members["payload"]), processedAt, accepted);
      }
    }

    /** One batch. After a message that cannot be read the ones behind it are still processed. `clock` gives the
        processing times. */
    method ProcessBatch(messages: seq<Message>, clock: seq<string>, accepted: seq<bool>)
      requires |clock| == |accepted| == |messages|
      modifies this
      ensures Records() == old(Records()) + StoredOf(messages, accepted, DecoderFor(toBson))
    {
      ghost var decode, before := DecoderFor(toBson), Records();
      for n := 0 to |messages|
        invariant Records() == before + StoredOf(messages[..n], accepted[..n], decode)
      {
        ProcessMessage(messages[n], clock[n], accepted[n]);
        StoredStep(messages, accepted, n, decode);
        assert decode(messages[n]) == Decode(messages[n], toBson);
      }
      assert messages[..|messages|] == messages && accepted[..|messages|] == accepted;
    }
  }

  ghost function RecordsIn(rawEvents: seq<RawEvent>): seq<Record> {
    seq(|rawEvents|, i requires 0 <= i < |rawEvents| => rawEvents[i].record)
  }

  // ---------- batching does not matter ----------

  lemma {:induction false} StoredConcat(a: seq<Message>, okA: seq<bool>, b: seq<Message>, okB: seq<bool>,
                                        decode: Decoder)
    requires |okA| == |a| && |okB| == |b|
    ensures StoredOf(a + b, okA + okB, decode) == StoredOf(a, okA, decode) + StoredOf(b, okB, decode)
  {
    if b == [] {
      assert a + b == a && okA + okB == okA;
    } else {
      var n := |b| - 1;
      StoredConcat(a, okA, b[..n], okB[..n], decode);
      assert (a + b)[..|a| + n] == a + b[..n] && (okA + okB)[..|a| + n] == okA + okB[..n];
    }
  }

  datatype Batch = Batch(messages: seq<Message>, accepted: seq<bool>)

  function Messages(batches: seq<Batch>): seq<Message> {
    if batches == [] then [] else Messages(batches[..|batches| - 1]) + batches[|batches| - 1].messages
  }

  function Accepted(batches: seq<Batch>): seq<bool> {
    if batches == [] then [] else Accepted(batches[..|batches| - 1]) + batches[|batches| - 1].accepted
  }

  /** Every message has its insert, taken or not. */
  ghost predicate Matched(batches: seq<Batch>) {
    forall i :: 0 <= i < |batches| ==> |batches[i].accepted| == |batches[i].messages|
  }

  /** What processing one batch after the other stores. */
  ghost function StoredByBatches(batches: seq<Batch>, decode: Decoder): seq<Record>
    requires Matched(batches)
  {
    if batches == [] then []
    else
      var n := |batches| - 1;
      StoredByBatches(batches[..n], decode) + StoredOf(batches[n].messages, batches[n].accepted, decode)
  }

  lemma {:induction false} MatchedLengths(batches: seq<Batch>)
    requires Matched(batches)
    ensures |Accepted(batches)| == |Messages(batches)|
  {
    if batches != [] {
      MatchedLengths(batches[..|batches| - 1]);
    }
  }

  /** Batches b1 .. bn store what their concatenation stores in one batch. */
  lemma {:induction false} BatchingIrrelevant(batches: seq<Batch>, decode: Decoder)
    requires Matched(batches)
    ensures |Accepted(batches)| == |Messages(batches)|
    ensures StoredByBatches(batches, decode) == StoredOf(Messages(batches), Accepted(batches), decode)
  {
    MatchedLengths(batches);
    if batches != [] {
      var front, last := batches[..|batches| - 1], batches[|batches| - 1];
      MatchedLengths(front);
      BatchingIrrelevant(front, decode);
      StoredConcat(Messages(front), Accepted(front), last.messages, last.accepted, decode);
    }
  }

  // ---------- end to end ----------

  ghost predicate Published(message: Message) {
    exists event, eventId, timestamp, traceId :: message == MessageOf(event, eventId, timestamp, traceId)
  }

  /** Every message can be stored, and its record shows the lane the message came through. */
  ghost predicate Traceable(messages: seq<Message>, decode: Decoder, partition: Partitioner) {
    forall i :: 0 <= i < |messages| ==>
      && decode(messages[i]).Some?
      && RecordLane(decode(messages[i]).value, partition) == LaneOf(messages[i], partition)
  }

  lemma PublishedTraceable(message: Message, toBson: Json -> bool, partition: Partitioner)
    requires forall event :: toBson(ToPayload(event))
    requires Published(message)
    ensures Decode(message, toBson).Some?
    ensures RecordLane(Decode(message, toBson).value, partition) == LaneOf(message, partition)
  {
    var event, eventId, timestamp, traceId :| message == MessageOf(event, eventId, timestamp, traceId);
    PublishedIsStorable(event, eventId, timestamp, traceId, toBson);
    RecordShowsLane(event, eventId, timestamp, partition);
  }

  lemma {:induction false} SentPublished(publications: seq<Publication>)
    ensures forall message :: message in Sent(publications) ==> Published(message)
  {
    if publications != [] {
      SentPublished(publications[..|publications| - 1]);
    }
  }

  lemma {:induction false} OnLaneMembers(messages: seq<Message>, partition: Partitioner, message: Message)
    ensures message in OnLane(messages, partition, LaneOf(message, partition)) <==> message in messages
  {
    if messages != [] {
      var n := |messages| - 1;
      OnLaneMembers(messages[..n], partition, message);
      assert messages == messages[..n] + [messages[n]];
    }
  }

  /** Whether the inserts of the messages of one lane are taken. */
  function FlagsOn(messages: seq<Message>, accepted: seq<bool>, partition: Partitioner, lane: Lane): (flags: seq<bool>)
    requires |accepted| == |messages|
    ensures |flags| == |OnLane(messages, partition, lane)|
    ensures (forall i :: 0 <= i < |accepted| ==> accepted[i]) ==> forall i :: 0 <= i < |flags| ==> flags[i]
  {
    if messages == [] then []
    else
      var n := |messages| - 1;
      var earlier := FlagsOn(messages[..n], accepted[..n], partition, lane);
      if LaneOf(messages[n], partition) == lane then earlier + [accepted[n]] else earlier
  }

  /** Splitting by lanes before or after storing makes no difference. */
  lemma {:induction false} StoredOnLane(messages: seq<Message>, accepted: seq<bool>, lane: Lane, decode: Decoder,
                                        partition: Partitioner)
    requires Traceable(messages, decode, partition) && |accepted| == |messages|
    ensures RecordsOn(StoredOf(messages, accepted, decode), partition, lane) ==
            StoredOf(OnLane(messages, partition, lane), FlagsOn(messages, accepted, partition, lane), decode)
  {
    if messages != [] {
      var n := |messages| - 1;
      var earlier := OnLane(messages[..n], partition, lane);
      var flags := FlagsOn(messages[..n], accepted[..n], partition, lane);
      StoredOnLane(messages[..n], accepted[..n], lane, decode, partition);
      if accepted[n] {
        RecordsOnSnoc(StoredOf(messages[..n], accepted[..n], decode), decode(messages[n]).value, partition, lane);
      }
      if LaneOf(messages[n], partition) == lane {
        assert (earlier + [messages[n]])[..|earlier|] == earlier && (flags + [accepted[n]])[..|earlier|] == flags;
      }
    }
  }

  lemma RecordsOnSnoc(records: seq<Record>, record: Record, partition: Partitioner, lane: Lane)
    ensures RecordsOn(records + [record], partition, lane) ==
            if RecordLane(record, partition) == lane then RecordsOn(records, partition, lane) + [record]
            else RecordsOn(records, partition, lane)
  {
    assert (records + [record])[..|records|] == records;
  }

  lemma StoredSnoc(messages: seq<Message>, accepted: seq<bool>, message: Message, decode: Decoder)
    requires |accepted| == |messages| + 1 && accepted[|messages|]
    ensures StoredOf(messages + [message], accepted, decode) ==
            StoredOf(messages, accepted[..|messages|], decode) +
            (if decode(message).Some? then [decode(message).value] else [])
  {
    assert (messages + [message])[..|messages|] == messages;
  }

  lemma {:induction false} StoredSent(publications: seq<Publication>, accepted: seq<bool>, toBson: Json -> bool)
    requires forall event :: toBson(ToPayload(event))
    requires |accepted| == |Sent(publications)| && forall i :: 0 <= i < |accepted| ==> accepted[i]
    ensures StoredOf(Sent(publications), accepted, DecoderFor(toBson)) == SentRecords(publications)
  {
    if publications != [] {
      var n := |publications| - 1;
      var p := publications[n];
      var earlier := Sent(publications[..n]);
      StoredSent(publications[..n], accepted[..|earlier|], toBson);
      if p.sent {
        PublishedIsStorable(p.event, p.eventId, p.timestamp, Trace(p), toBson);
        StoredSnoc(earlier, accepted, MessageOf(p.event, p.eventId, p.timestamp, Trace(p)), DecoderFor(toBson));
      } else {
        assert accepted[..|earlier|] == accepted;
      }
    }
  }

  /** How often a record occurs can be counted on its own lane. */
  lemma {:induction false} CountOnLane(records: seq<Record>, partition: Partitioner, record: Record)
    ensures multiset(records)[record] ==
            multiset(RecordsOn(records, partition, RecordLane(record, partition)))[record]
  {
    if records != [] {
      var n := |records| - 1;
      CountOnLane(records[..n], partition, record);
      assert records == records[..n] + [records[n]];
    }
  }

  lemma SameOnLanesSameMultiset(a: seq<Record>, b: seq<Record>, partition: Partitioner)
    requires forall lane :: RecordsOn(a, partition, lane) == RecordsOn(b, partition, lane)
    ensures multiset(a) == multiset(b)
  {
    forall record
      ensures multiset(a)[record] == multiset(b)[record]
    {
      CountOnLane(a, partition, record);
      CountOnLane(b, partition, record);
    }
  }

  /** The consumer is fed some interleaving of the lanes' logs. */
  ghost predicate Interleaves(feed: seq<Message>, publications: seq<Publication>, partition: Partitioner) {
    forall lane :: OnLane(feed, partition, lane) == OnLane(Sent(publications), partition, lane)
  }

  lemma FeedTraceable(publications: seq<Publication>, feed: seq<Message>, toBson: Json -> bool, partition: Partitioner)
    requires forall event :: toBson(ToPayload(event))
    requires Interleaves(feed, publications, partition)
    ensures Traceable(feed, DecoderFor(toBson), partition)
    ensures Traceable(Sent(publications), DecoderFor(toBson), partition)
  {
    SentPublished(publications);
    forall message
      ensures message in feed <==> message in Sent(publications)
    {
      OnLaneMembers(feed, partition, message);
      OnLaneMembers(Sent(publications), partition, message);
    }
    forall message | message in Sent(publications)
      ensures Decode(message, toBson).Some?
      ensures RecordLane(Decode(message, toBson).value, partition) == LaneOf(message, partition)
    {
      PublishedTraceable(message, toBson, partition);
    }
  }

  /** End to end. However the broker interleaves its lanes, with every insert accepted, the records that come through
      a lane are those of the events sent to it, with the same ids, types, timestamps and payloads and in publication
      order, and over all lanes exactly the events that were sent are stored. */
  lemma EndToEnd(publications: seq<Publication>, feed: seq<Message>, accepted: seq<bool>, toBson: Json -> bool,
                 partition: Partitioner)
    requires forall event :: toBson(ToPayload(event))
    requires Interleaves(feed, publications, partition)
    requires |accepted| == |feed| && forall i :: 0 <= i < |accepted| ==> accepted[i]
    ensures var stored := StoredOf(feed, accepted, DecoderFor(toBson));
            && (forall lane ::
                  RecordsOn(stored, partition, lane) == RecordsOn(SentRecords(publications), partition, lane))
            && multiset(stored) == multiset(SentRecords(publications))
  {
    var stored := StoredOf(feed, accepted, DecoderFor(toBson));
    FeedTraceable(publications, feed, toBson, partition);
    var all := seq(|Sent(publications)|, _ => true);
    StoredSent(publications, all, toBson);
    forall lane
      ensures RecordsOn(stored, partition, lane) == RecordsOn(SentRecords(publications), partition, lane)
    {
      StoredOnLane(feed, accepted, lane, DecoderFor(toBson), partition);
      StoredOnLane(Sent(publications), all, lane, DecoderFor(toBson), partition);
      assert FlagsOn(feed, accepted, partition, lane) == FlagsOn(Sent(publications), all, partition, lane);
    }
    SameOnLanesSameMultiset(stored, SentRecords(publications), partition);
  }
}
