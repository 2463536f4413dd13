/** Events, the messages that carry them, and what the consumer accepts and stores. */
module Events {
  import opened Results
  import opened MachineInts
  import opened Decimal

  datatype Json =
    | JNull
    | JBool(flag: bool)
    | JInt(number: int)
    | JReal(value: real)
    | JStr(text: string)
    | JArray(items: seq<Json>)
    | JObject(members: map<string, Json>)

  // ---------- events and payloads ----------

  datatype Event =
    | UserRegistered(userId: int64, login: string, email: string, firstName: string, lastName: string)
    | UserLoggedIn(userId: int64, login: string, ipAddress: string)
    | ProjectCreated(projectId: int64, name: string, key: string, ownerId: int64)
    | TaskCreated(taskId: int64, projectId: int64, title: string, description: string, priority: int32,
                  creatorId: int64, status: string)
    | CommentAdded(commentId: string, taskId: int64, author: string, text: string)

  function ToPayload(event: Event): Json {
    match event
    case UserRegistered(userId, login, email, firstName, lastName) =>
      JObject(map["user_id" := JInt(userId), "login" := JStr(login), "email" := JStr(email),
                  "first_name" := JStr(firstName), "last_name" := JStr(lastName)])
    case UserLoggedIn(userId, login, ipAddress) =>
      JObject(map["user_id" := JInt(userId), "login" := JStr(login), "ip_address" := JStr(ipAddress)])
    case ProjectCreated(projectId, name, key, ownerId) =>
      JObject(map["project_id" := JInt(projectId), "name" := JStr(name), "key" := JStr(key),
                  "owner_id" := JInt(ownerId)])
    case TaskCreated(taskId, projectId, title, description, priority, creatorId, status) =>
      JObject(map["task_id" := JInt(taskId), "project_id" := JInt(projectId), "title" := JStr(title),
                  "description" := JStr(description), "priority" := JInt(priority), "creator_id" := JInt(creatorId),
                  "status" := JStr(status)])
    case CommentAdded(commentId, taskId, author, text) =>
      JObject(map["comment_id" := JStr(commentId), "task_id" := JInt(taskId), "author" := JStr(author),
                  "text" := JStr(text)])
  }

  function TypeName(event: Event): string {
    match event
    case UserRegistered(_, _, _, _, _) => "UserRegistered"
    case UserLoggedIn(_, _, _) => "UserLoggedIn"
    case ProjectCreated(_, _, _, _) => "ProjectCreated"
    case TaskCreated(_, _, _, _, _, _, _) => "TaskCreated"
    case CommentAdded(_, _, _, _) => "CommentAdded"
  }

  function Topic(event: Event): string {
    match event
    case UserRegistered(_, _, _, _, _) => "user-events"
    case UserLoggedIn(_, _, _) => "user-events"
    case ProjectCreated(_, _, _, _) => "project-events"
    case TaskCreated(_, _, _, _, _, _, _) => "task-events"
    case CommentAdded(_, _, _, _) => "comment-events"
  }

  /** The message key: `std::to_string` of a 64-bit id, or the comment id itself. */
  function MessageKey(event: Event): string {
    match event
    case UserRegistered(userId, _, _, _, _) => ToString(userId)
    case UserLoggedIn(userId, _, _) => ToString(userId)
    case ProjectCreated(projectId, _, _, _) => ToString(projectId)
    case TaskCreated(taskId, _, _, _, _, _, _) => ToString(taskId)
    case CommentAdded(commentId, _, _, _) => commentId
  }

  // ---------- messages ----------

  /** A message on a topic; `body` is what its text parses to, or nothing if the text is not JSON. */
  datatype Message = Message(topic: string, key: string, body: Option<Json>)

  function Envelope(event: Event, eventId: string, timestamp: string, traceId: string): Json {
    JObject(map["event_id" := JStr(eventId), "event_type" := JStr(TypeName(event)), "timestamp" := JStr(timestamp),
                "version" := JStr("1.0"), "payload" := ToPayload(event),
                "metadata" := JObject(map["trace_id" := JStr(traceId), "source_service" := JStr("myservice")])])
  }

  function MessageOf(event: Event, eventId: string, timestamp: string, traceId: string): Message {
    Message(Topic(event), MessageKey(event), Some(Envelope(event, eventId, timestamp, traceId)))
  }

  /** Which topic an event goes to, and by which of its ids it is keyed. */
  lemma GoesByTopicAndKey(event: Event, eventId: string, timestamp: string, traceId: string)
    ensures var message := MessageOf(event, eventId, timestamp, traceId);
            match event
            case UserRegistered(userId, _, _, _, _) => message.topic == "user-events" && message.key == ToString(userId)
            case UserLoggedIn(userId, _, _) => message.topic == "user-events" && message.key == ToString(userId)
            case ProjectCreated(projectId, _, _, _) =>
              message.topic == "project-events" && message.key == ToString(projectId)
            case TaskCreated(taskId, _, _, _, _, _, _) =>
              message.topic == "task-events" && message.key == ToString(taskId)
            case CommentAdded(commentId, _, _, _) => message.topic == "comment-events" && message.key == commentId
  {
  }

  // ---------- what the consumer reads ----------

  predicate HasStr(json: Json, name: string) {
    json.JObject? && name in json.members && json.members[name].JStr?
  }

  predicate HasInt64(json: Json, name: string) {
    json.JObject? && name in json.members && json.members[name].JInt? &&
    -0x8000_0000_0000_0000 <= json.members[name].number < 0x8000_0000_0000_0000
  }

  predicate HasInt32(json: Json, name: string) {
    json.JObject? && name in json.members && json.members[name].JInt? &&
    -0x8000_0000 <= json.members[name].number < 0x8000_0000
  }

  /** Whether the handler for this event type reads the payload without an exception. A type nobody knows has no
      handler, so its payload is not looked at. */
  predicate PayloadReadable(eventType: string, payload: Json) {
    match eventType
    case "UserRegistered" =>
      && HasInt64(payload, "user_id") && HasStr(payload, "login") && HasStr(payload, "email")
      && HasStr(payload, "first_name") && HasStr(payload, "last_name")
    case "UserLoggedIn" =>
      HasInt64(payload, "user_id") && HasStr(payload, "login") && HasStr(payload, "ip_address")
    case "ProjectCreated" =>
      && HasInt64(payload, "project_id") && HasStr(payload, "name") && HasStr(payload, "key")
      && HasInt64(payload, "owner_id")
    case "TaskCreated" =>
      && HasInt64(payload, "task_id") && HasInt64(payload, "project_id") && HasStr(payload, "title")
      && HasInt32(payload, "priority") && HasStr(payload, "status")
    case "CommentAdded" =>
      && HasStr(payload, "comment_id") && HasInt64(payload, "task_id") && HasStr(payload, "author")
      && HasStr(payload, "text")
    case _ => true
  }

  /** A stored event without its processing time. */
  datatype Record = Record(eventId: string, eventType: string, timestamp: string, payload: Json)

  /** The document inserted into `raw_events`. */
  datatype RawEvent = RawEvent(record: Record, processedAt: string)

  /** A message the consumer stores: its text is JSON, the envelope has its three strings and a payload, the payload
      suits the handler, and `toBson` -- the conversion of JSON text to a document -- accepts the payload. */
  predicate WellFormed(message: Message, toBson: Json -> bool) {
    && message.body.Some?
    && var json := message.body.value;
       && HasStr(json, "event_id") && HasStr(json, "event_type") && HasStr(json, "timestamp")
       && "payload" in json.members
       && PayloadReadable(json.members["event_type"].text, json.members["payload"])
       && toBson(json.members["payload"])
  }

  /** What the consumer stores for a message, if anything. */
  function Decode(message: Message, toBson: Json -> bool): Option<Record> {
    if WellFormed(message, toBson) then
      var fields := message.body.value.members;
      Some(Record(fields["event_id"].text, fields["event_type"].text, fields["timestamp"].text, fields["payload"]))
    else None
  }

  type Decoder = Message -> Option<Record>

  function DecoderFor(toBson: Json -> bool): Decoder {
    message => Decode(message, toBson)
  }

  lemma PayloadsReadable(event: Event)
    ensures PayloadReadable(TypeName(event), ToPayload(event))
  {
  }

  /** Producer and consumer agree: every envelope a publish emits is well formed, and is stored with the id, type,
      timestamp and payload it was published with. */
  lemma PublishedIsStorable(event: Event, eventId: string, timestamp: string, traceId: string, toBson: Json -> bool)
    requires toBson(ToPayload(event))
    ensures Decode(MessageOf(event, eventId, timestamp, traceId), toBson) ==
            Some(Record(eventId, TypeName(event), timestamp, ToPayload(event)))
  {
    PayloadsReadable(event);
    var fields := MessageOf(event, eventId, timestamp, traceId).body.value.members;
    assert fields["event_id"] == JStr(eventId) && fields["event_type"] == JStr(TypeName(event));
    assert fields["timestamp"] == JStr(timestamp) && fields["payload"] == ToPayload(event);
  }

  // ---------- which partition a message, and the record of it, belongs to ----------

  /** The broker's choice of a partition for a topic and a key. */
  type Partitioner = (string, string) -> nat

  /** One ordered log of the broker. Between lanes there is no order. */
  datatype Lane = Lane(topic: string, partition: nat)

  function LaneOf(message: Message, partition: Partitioner): Lane {
    Lane(message.topic, partition(message.topic, message.key))
  }

  function TopicOfType(eventType: string): string {
    match eventType
    case "UserRegistered" => "user-events"
    case "UserLoggedIn" => "user-events"
    case "ProjectCreated" => "project-events"
    case "TaskCreated" => "task-events"
    case "CommentAdded" => "comment-events"
    case _ => ""
  }

  /** The field of a payload that its kind of event is keyed by. */
  function KeyField(eventType: string): string {
    match eventType
    case "UserRegistered" => "user_id"
    case "UserLoggedIn" => "user_id"
    case "ProjectCreated" => "project_id"
    case "TaskCreated" => "task_id"
    case _ => "comment_id"
  }

  function KeyText(json: Json): string {
    match json
    case JStr(text) => text
    case JInt(number) => ToString(number)
    case _ => ""
  }

  function RecordKey(record: Record): string {
    var field := KeyField(record.eventType);
    if record.payload.JObject? && field in record.payload.members then KeyText(record.payload.members[field]) else ""
  }

  /** The lane a stored record came through, read off the record. */
  function RecordLane(record: Record, partition: Partitioner): Lane {
    var topic := TopicOfType(record.eventType);
    Lane(topic, partition(topic, RecordKey(record)))
  }

  /** A record shows the lane its event was published to. */
  lemma RecordShowsLane(event: Event, eventId: string, timestamp: string, partition: Partitioner)
    ensures RecordLane(Record(eventId, TypeName(event), timestamp, ToPayload(event)), partition) ==
            Lane(Topic(event), partition(Topic(event), MessageKey(event)))
  {
  }

  function StrAt(json: Json, name: string): string {
    if HasStr(json, name) then json.members[name].text else ""
  }

  function Int64At(json: Json, name: string): int64 {
    if HasInt64(json, name) then json.members[name].number else 0
  }

  function Int32At(json: Json, name: string): int32 {
    if HasInt32(json, name) then json.members[name].number else 0
  }

  /** The event a stored record tells of, as a reader of the records can recover it. */
  function EventOf(eventType: string, payload: Json): Option<Event> {
    match eventType
    case "UserRegistered" =>
      Some(UserRegistered(Int64At(payload, "user_id"), StrAt(payload, "login"), StrAt(payload, "email"),
                          StrAt(payload, "first_name"), StrAt(payload, "last_name")))
    case "UserLoggedIn" =>
      Some(UserLoggedIn(Int64At(payload, "user_id"), StrAt(payload, "login"), StrAt(payload, "ip_address")))
    case "ProjectCreated" =>
      Some(ProjectCreated(Int64At(payload, "project_id"), StrAt(payload, "name"), StrAt(payload, "key"),
                          Int64At(payload, "owner_id")))
    case "TaskCreated" =>
      Some(TaskCreated(Int64At(payload, "task_id"), Int64At(payload, "project_id"), StrAt(payload, "title"),
                       StrAt(payload, "description"), Int32At(payload, "priority"), Int64At(payload, "creator_id"),
                       StrAt(payload, "status")))
    case "CommentAdded" =>
      Some(CommentAdded(StrAt(payload, "comment_id"), Int64At(payload, "task_id"), StrAt(payload, "author"),
                        StrAt(payload, "text")))
    case _ => None
  }

  lemma UserPayloadRoundTrip(event: Event)
    requires event.UserRegistered? || event.UserLoggedIn?
    ensures EventOf(TypeName(event), ToPayload(event)) == Some(event)
  {
  }

  lemma TaskPayloadRoundTrip(event: Event)
    requires event.TaskCreated?
    ensures EventOf(TypeName(event), ToPayload(event)) == Some(event)
  {
  }

  /** Payloads lose nothing: the event can be recovered from its type name and its payload. */
  lemma PayloadRoundTrip(event: Event)
    ensures EventOf(TypeName(event), ToPayload(event)) == Some(event)
  {
    if event.UserRegistered? || event.UserLoggedIn? {
      UserPayloadRoundTrip(event);
    } else if event.TaskCreated? {
      TaskPayloadRoundTrip(event);
    }
  }

  /** So a stored payload determines the event it came from. */
  lemma PayloadDeterminesEvent(a: Event, b: Event)
    requires TypeName(a) == TypeName(b) && ToPayload(a) == ToPayload(b)
    ensures a == b
  {
    PayloadRoundTrip(a);
    PayloadRoundTrip(b);
  }

  // ---------- which messages are stored ----------

  /** The payload tells of the event, in every field that the handler of its kind reads. */
  predicate TellsOf(payload: Json, event: Event) {
    payload.JObject? &&
    var fields := payload.members;
    match event
    case UserRegistered(userId, login, email, firstName, lastName) =>
      && {"user_id", "login", "email", "first_name", "last_name"} <= fields.Keys
      && fields["user_id"] == JInt(userId) && fields["login"] == JStr(login) && fields["email"] == JStr(email)
      && fields["first_name"] == JStr(firstName) && fields["last_name"] == JStr(lastName)
    case UserLoggedIn(userId, login, ipAddress) =>
      && {"user_id", "login", "ip_address"} <= fields.Keys
      && fields["user_id"] == JInt(userId) && fields["login"] == JStr(login)
      && fields["ip_address"] == JStr(ipAddress)
    case ProjectCreated(projectId, name, key, ownerId) =>
      && {"project_id", "name", "key", "owner_id"} <= fields.Keys
      && fields["project_id"] == JInt(projectId) && fields["name"] == JStr(name) && fields["key"] == JStr(key)
      && fields["owner_id"] == JInt(ownerId)
    case TaskCreated(taskId, projectId, title, _, priority, _, status) =>
      && {"task_id", "project_id", "title", "priority", "status"} <= fields.Keys
      && fields["task_id"] == JInt(taskId) && fields["project_id"] == JInt(projectId)
      && fields["title"] == JStr(title) && fields["priority"] == JInt(priority) && fields["status"] == JStr(status)
    case CommentAdded(commentId, taskId, author, text) =>
      && {"comment_id", "task_id", "author", "text"} <= fields.Keys
      && fields["comment_id"] == JStr(commentId) && fields["task_id"] == JInt(taskId)
      && fields["author"] == JStr(author) && fields["text"] == JStr(text)
  }

  /** The envelope carries the record: three strings and the payload. */
  predicate Carried(message: Message, record: Record) {
    && message.body.Some? && message.body.value.JObject?
    && var fields := message.body.value.members;
       && {"event_id", "event_type", "timestamp", "payload"} <= fields.Keys
       && fields["event_id"] == JStr(record.eventId) && fields["event_type"] == JStr(record.eventType)
       && fields["timestamp"] == JStr(record.timestamp) && fields["payload"] == record.payload
  }

  lemma UserPayloadReadable(eventType: string, payload: Json)
    requires eventType == "UserRegistered" || eventType == "UserLoggedIn"
    ensures PayloadReadable(eventType, payload) <==>
            exists event :: TypeName(event) == eventType && TellsOf(payload, event)
  {
    if PayloadReadable(eventType, payload) {
      var event := EventOf(eventType, payload).value;
      assert TypeName(event) == eventType && TellsOf(payload, event);
    }
  }

  lemma TaskPayloadReadable(payload: Json)
    ensures PayloadReadable("TaskCreated", payload) <==>
            exists event :: TypeName(event) == "TaskCreated" && TellsOf(payload, event)
  {
    if PayloadReadable("TaskCreated", payload) {
      var event := EventOf("TaskCreated", payload).value;
      assert TypeName(event) == "TaskCreated" && TellsOf(payload, event);
    }
  }

  lemma OtherPayloadReadable(eventType: string, payload: Json)
    requires eventType == "ProjectCreated" || eventType == "CommentAdded"
    ensures PayloadReadable(eventType, payload) <==>
            exists event :: TypeName(event) == eventType && TellsOf(payload, event)
  {
    if PayloadReadable(eventType, payload) {
      var event := EventOf(eventType, payload).value;
      assert TypeName(event) == eventType && TellsOf(payload, event);
    }
  }

  /** Exactly which messages are stored, and as what: those whose envelope carries the record, with a payload that
      converts and, if its type is one of the five, tells of an event of that type. */
  lemma DecodesIff(message: Message, record: Record, toBson: Json -> bool)
    ensures Decode(message, toBson) == Some(record) <==>
            && Carried(message, record) && toBson(record.payload)
            && (record.eventType in
                  {"UserRegistered", "UserLoggedIn", "ProjectCreated", "TaskCreated", "CommentAdded"} ==>
                exists event :: TypeName(event) == record.eventType && TellsOf(record.payload, event))
  {
    if record.eventType == "UserRegistered" || record.eventType == "UserLoggedIn" {
      UserPayloadReadable(record.eventType, record.payload);
    } else if record.eventType == "TaskCreated" {
      TaskPayloadReadable(record.payload);
    } else if record.eventType == "ProjectCreated" || record.eventType == "CommentAdded" {
      OtherPayloadReadable(record.eventType, record.payload);
    }
  }
}
