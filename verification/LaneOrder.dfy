/** When the order of publication survives: the broker keeps order inside a lane and none between lanes. */
module LaneOrder {
  import opened Results
  import opened Events
  import opened EventPipeline

  /** All messages go through one lane: one partition of one topic. */
  ghost predicate OneLane(messages: seq<Message>, partition: Partitioner) {
    forall i, j :: 0 <= i < j < |messages| ==> LaneOf(messages[i], partition) == LaneOf(messages[j], partition)
  }

  // ---------- one lane ----------

  lemma {:induction false} OnLaneAll(messages: seq<Message>, partition: Partitioner, lane: Lane)
    requires forall i :: 0 <= i < |messages| ==> LaneOf(messages[i], partition) == lane
    ensures OnLane(messages, partition, lane) == messages
  {
    if messages != [] {
      OnLaneAll(messages[..|messages| - 1], partition, lane);
    }
  }

  /** The only interleaving of one lane is that lane. */
  lemma OneLaneOneFeed(feed: seq<Message>, publications: seq<Publication>, partition: Partitioner)
    requires OneLane(Sent(publications), partition) && Interleaves(feed, publications, partition)
    ensures feed == Sent(publications)
  {
    var sent := Sent(publications);
    forall message
      ensures message in feed <==> message in sent
    {
      OnLaneMembers(feed, partition, message);
      OnLaneMembers(sent, partition, message);
    }
    var lane := if sent == [] then Lane("", 0) else LaneOf(sent[0], partition);
    assert forall message :: message in sent ==> LaneOf(message, partition) == lane;
    assert forall i :: 0 <= i < |feed| ==> feed[i] in sent;
    OnLaneAll(feed, partition, lane);
    OnLaneAll(sent, partition, lane);
  }

  // ---------- several lanes ----------

  lemma {:induction false} OnLaneConcat(a: seq<Message>, b: seq<Message>, partition: Partitioner, lane: Lane)
    ensures OnLane(a + b, partition, lane) == OnLane(a, partition, lane) + OnLane(b, partition, lane)
  {
    if b == [] {
      assert a + b == a;
    } else {
      var front, last := b[..|b| - 1], b[|b| - 1];
      assert a + b == (a + front) + [last] && b == front + [last];
      OnLaneSnoc(a + front, last, partition, lane);
      OnLaneSnoc(front, last, partition, lane);
      OnLaneConcat(a, front, partition, lane);
    }
  }

  /** Two messages on different lanes can change places. */
  lemma SwapLanes(first: Message, second: Message, partition: Partitioner, lane: Lane)
    requires LaneOf(first, partition) != LaneOf(second, partition)
    ensures OnLane([second, first], partition, lane) == OnLane([first, second], partition, lane)
  {
    OnLaneSnoc([], first, partition, lane);
    OnLaneSnoc([], second, partition, lane);
    OnLaneSnoc([] + [first], second, partition, lane);
    OnLaneSnoc([] + [second], first, partition, lane);
    assert [] + [first] + [second] == [first, second] && [] + [second] + [first] == [second, first];
  }

  /** Where lanes change there are two neighbours on different lanes. */
  lemma {:induction false} NeighboursDiffer(messages: seq<Message>, partition: Partitioner, i: nat, j: nat)
    returns (k: nat)
    requires i < j < |messages| && LaneOf(messages[i], partition) != LaneOf(messages[j], partition)
    ensures k + 1 < |messages| && LaneOf(messages[k], partition) != LaneOf(messages[k + 1], partition)
  {
    if LaneOf(messages[j - 1], partition) != LaneOf(messages[j], partition) {
      k := j - 1;
    } else {
      k := NeighboursDiffer(messages, partition, i, j - 1);
    }
  }

  /** The messages with two neighbours exchanged. */
  function Swapped(messages: seq<Message>, k: nat): seq<Message>
    requires k + 1 < |messages|
  {
    messages[..k] + ([messages[k + 1], messages[k]] + messages[k + 2..])
  }

  lemma SwapKeepsLane(front: seq<Message>, first: Message, second: Message, rest: seq<Message>,
                      partition: Partitioner, lane: Lane)
    requires LaneOf(first, partition) != LaneOf(second, partition)
    ensures OnLane(front + ([second, first] + rest), partition, lane) ==
            OnLane(front + ([first, second] + rest), partition, lane)
  {
    SwapLanes(first, second, partition, lane);
    OnLaneConcat([second, first], rest, partition, lane);
    OnLaneConcat([first, second], rest, partition, lane);
    OnLaneConcat(front, [second, first] + rest, partition, lane);
    OnLaneConcat(front, [first, second] + rest, partition, lane);
  }

  /** Exchanging neighbours on different lanes is an interleaving the broker may choose. */
  lemma SwappedInterleaves(publications: seq<Publication>, partition: Partitioner, k: nat)
    requires k + 1 < |Sent(publications)|
    requires LaneOf(Sent(publications)[k], partition) != LaneOf(Sent(publications)[k + 1], partition)
    ensures Interleaves(Swapped(Sent(publications), k), publications, partition)
  {
    var sent := Sent(publications);
    assert sent == sent[..k] + ([sent[k], sent[k + 1]] + sent[k + 2..]);
    forall lane
      ensures OnLane(Swapped(sent, k), partition, lane) == OnLane(sent, partition, lane)
    {
      SwapKeepsLane(sent[..k], sent[k], sent[k + 1], sent[k + 2..], partition, lane);
    }
  }

  /** What is stored of messages that can all be stored, one by one. */
  lemma {:induction false} StoredAt(messages: seq<Message>, accepted: seq<bool>, decode: Decoder, i: nat)
    requires |accepted| == |messages| && forall j :: 0 <= j < |accepted| ==> accepted[j]
    requires forall j :: 0 <= j < |messages| ==> decode(messages[j]).Some?
    requires i < |messages|
    ensures |StoredOf(messages, accepted, decode)| == |messages|
    ensures StoredOf(messages, accepted, decode)[i] == decode(messages[i]).value
  {
    var n := |messages| - 1;
    if n > 0 {
      StoredAt(messages[..n], accepted[..n], decode, if i < n then i else 0);
    }
  }

  /** Everything accepted. */
  function Yes(n: nat): seq<bool> {
    seq(n, _ => true)
  }

  /** Whatever the broker does, the records are stored in the order of publication. */
  ghost predicate OrderKept(publications: seq<Publication>, toBson: Json -> bool, partition: Partitioner) {
    forall feed :: Interleaves(feed, publications, partition) ==>
      StoredOf(feed, Yes(|feed|), DecoderFor(toBson)) == SentRecords(publications)
  }

  lemma SwapShows(publications: seq<Publication>, toBson: Json -> bool, partition: Partitioner, k: nat)
    requires forall event :: toBson(ToPayload(event))
    requires k + 1 < |Sent(publications)|
    requires LaneOf(Sent(publications)[k], partition) != LaneOf(Sent(publications)[k + 1], partition)
    ensures !OrderKept(publications, toBson, partition)
  {
    var sent, decode := Sent(publications), DecoderFor(toBson);
    var feed := Swapped(sent, k);
    SwappedInterleaves(publications, partition, k);
    FeedTraceable(publications, feed, toBson, partition);
    StoredAt(feed, Yes(|feed|), decode, k);
    StoredAt(sent, Yes(|sent|), decode, k);
    StoredSent(publications, Yes(|sent|), toBson);
    assert feed[k] == sent[k + 1];
  }

  /** Order, exactly: with every insert accepted, the records are stored in the order of publication, however the broker
      interleaves its lanes, if and only if everything that was sent went through one lane. */
  lemma OrderKeptIff(publications: seq<Publication>, toBson: Json -> bool, partition: Partitioner)
    requires forall event :: toBson(ToPayload(event))
    ensures OrderKept(publications, toBson, partition) <==> OneLane(Sent(publications), partition)
  {
    var sent := Sent(publications);
    if OneLane(sent, partition) {
      forall feed | Interleaves(feed, publications, partition)
        ensures StoredOf(feed, Yes(|feed|), DecoderFor(toBson)) == SentRecords(publications)
      {
        OneLaneOneFeed(feed, publications, partition);
        StoredSent(publications, Yes(|feed|), toBson);
      }
    } else {
      var i, j :| 0 <= i < j < |sent| && LaneOf(sent[i], partition) != LaneOf(sent[j], partition);
      var k := NeighboursDiffer(sent, partition, i, j);
      SwapShows(publications, toBson, partition, k);
    }
  }

  /** A concrete failing input: a login and a project created after it may be fed the other way round. */
  lemma OrderBetweenTopicsNotKept(login: Publication, project: Publication, partition: Partitioner)
    requires login.sent && project.sent && login.event.UserLoggedIn? && project.event.ProjectCreated?
    ensures var first := MessageOf(login.event, login.eventId, login.timestamp, Trace(login));
            var second := MessageOf(project.event, project.eventId, project.timestamp, Trace(project));
            Sent([login, project]) == [first, second] && Interleaves([second, first], [login, project], partition)
  {
    var first := MessageOf(login.event, login.eventId, login.timestamp, Trace(login));
    var second := MessageOf(project.event, project.eventId, project.timestamp, Trace(project));
    assert [login, project][..1] == [login] && [login][..0] == [];
    assert Sent([login]) == [first];
    assert first.topic != second.topic;
    forall lane
      ensures OnLane([second, first], partition, lane) == OnLane([first, second], partition, lane)
    {
      SwapLanes(first, second, partition, lane);
    }
  }
}
