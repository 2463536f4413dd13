/** Comments and their BSON documents. Dates are stored with millisecond precision and an id is whatever the
    database assigned: the id a comment carries in memory is never written. */
module CommentModel {
  import opened Results
  import opened MachineInts

  const MILLISECOND := 1_000_000

  datatype Reply = Reply(author: string, text: string, createdAt: int)

  datatype Comment = Comment(id: string, taskId: int32, author: string, authorId: int32, text: string,
                             createdAt: int, updatedAt: Option<int>, replies: seq<Reply>)

  datatype Bson =
    | Str(text: string)
    | Int(number: int32)
    | Date(millis: int)
    | ObjectId(hex: string)
    | Array(items: seq<Bson>)
    | Document(fields: map<string, Bson>)

  // ---------- dates ----------

  /** `duration_cast` to milliseconds truncates toward zero. */
  function ToMillis(instant: int): int {
    if instant >= 0 then instant / MILLISECOND else -(-instant / MILLISECOND)
  }

  function Truncated(instant: int): int {
    ToMillis(instant) * MILLISECOND
  }

  // ---------- reading fields ----------

  predicate Has(doc: Bson, name: string) {
    doc.Document? && name in doc.fields
  }

  predicate HasStr(doc: Bson, name: string) { Has(doc, name) && doc.fields[name].Str? }

  predicate HasInt(doc: Bson, name: string) { Has(doc, name) && doc.fields[name].Int? }

  predicate HasDate(doc: Bson, name: string) { Has(doc, name) && doc.fields[name].Date? }

  // ---------- replies ----------

  function ReplyToBson(reply: Reply): Bson {
    Document(map["author" := Str(reply.author), "text" := Str(reply.text),
                 "created_at" := Date(ToMillis(reply.createdAt))])
  }

  function ReplyFromBson(doc: Bson): Result<Reply> {
    if HasStr(doc, "author") && HasStr(doc, "text") && HasDate(doc, "created_at")
    then Ok(Reply(doc.fields["author"].text, doc.fields["text"].text, doc.fields["created_at"].millis * MILLISECOND))
    else Threw
  }

  function StoredReply(reply: Reply): Reply {
    reply.(createdAt := Truncated(reply.createdAt))
  }

  function ReplyDocs(replies: seq<Reply>): seq<Bson> {
    seq(|replies|, i requires 0 <= i < |replies| => ReplyToBson(replies[i]))
  }

  function StoredReplies(replies: seq<Reply>): seq<Reply> {
    seq(|replies|, i requires 0 <= i < |replies| => StoredReply(replies[i]))
  }

  predicate RepliesReadable(items: seq<Bson>) {
    forall i :: 0 <= i < |items| ==> ReplyFromBson(items[i]).Ok?
  }

  function ReadReplies(items: seq<Bson>): seq<Reply>
    requires RepliesReadable(items)
  {
    seq(|items|, i requires 0 <= i < |items| => ReplyFromBson(items[i]).value)
  }

  // ---------- comments ----------

  function CommentFields(c: Comment): map<string, Bson> {
    var fixed := map["task_id" := Int(c.taskId), "author" := Str(c.author), "author_id" := Int(c.authorId),
                     "text" := Str(c.text), "created_at" := Date(ToMillis(c.createdAt)),
                     "replies" := Array(ReplyDocs(c.replies))];
    if c.updatedAt.Some? then fixed["updated_at" := Date(ToMillis(c.updatedAt.value))] else fixed
  }

  /** A document from which a comment can be read. */
  predicate Readable(doc: Bson) {
    && Has(doc, "_id") && doc.fields["_id"].ObjectId?
    && HasInt(doc, "task_id") && HasStr(doc, "author") && HasInt(doc, "author_id") && HasStr(doc, "text")
    && HasDate(doc, "created_at") && (Has(doc, "updated_at") ==> HasDate(doc, "updated_at"))
    && Has(doc, "replies") && doc.fields["replies"].Array? && RepliesReadable(doc.fields["replies"].items)
  }

  function CommentOf(doc: Bson): Comment
    requires Readable(doc)
  {
    Comment(doc.fields["_id"].hex, doc.fields["task_id"].number, doc.fields["author"].text,
            doc.fields["author_id"].number, doc.fields["text"].text, doc.fields["created_at"].millis * MILLISECOND,
            if Has(doc, "updated_at") then Some(doc.fields["updated_at"].millis * MILLISECOND) else None,
            ReadReplies(doc.fields["replies"].items))
  }

  /** The document holds the reply: every field is there with its type and value. */
  predicate HoldsReply(doc: Bson, reply: Reply) {
    && doc.Document? && {"author", "text", "created_at"} <= doc.fields.Keys
    && doc.fields["author"] == Str(reply.author) && doc.fields["text"] == Str(reply.text)
    && doc.fields["created_at"].Date? && doc.fields["created_at"].millis * 1_000_000 == reply.createdAt
  }

  /** The document holds the comment; only the update time may be missing. */
  predicate Holds(doc: Bson, c: Comment) {
    && doc.Document?
    && {"_id", "task_id", "author", "author_id", "text", "created_at", "replies"} <= doc.fields.Keys
    && doc.fields["_id"] == ObjectId(c.id) && doc.fields["task_id"] == Int(c.taskId)
    && doc.fields["author"] == Str(c.author) && doc.fields["author_id"] == Int(c.authorId)
    && doc.fields["text"] == Str(c.text)
    && doc.fields["created_at"].Date? && doc.fields["created_at"].millis * 1_000_000 == c.createdAt
    && (if "updated_at" !in doc.fields then c.updatedAt == None
        else doc.fields["updated_at"].Date? && c.updatedAt == Some(doc.fields["updated_at"].millis * 1_000_000))
    && doc.fields["replies"].Array? && |doc.fields["replies"].items| == |c.replies|
    && forall i :: 0 <= i < |c.replies| ==> HoldsReply(doc.fields["replies"].items[i], c.replies[i])
  }

  lemma ReplyReadsIff(doc: Bson, reply: Reply)
    ensures ReplyFromBson(doc) == Ok(reply) <==> HoldsReply(doc, reply)
  {
  }

  /** A document reads as a comment exactly when it holds it; one that holds none cannot be read. */
  lemma ReadsIff(doc: Bson, c: Comment)
    ensures Readable(doc) && CommentOf(doc) == c <==> Holds(doc, c)
  {
    if Holds(doc, c) {
      var items := doc.fields["replies"].items;
      forall i | 0 <= i < |items|
        ensures ReplyFromBson(items[i]) == Ok(c.replies[i])
      {
        ReplyReadsIff(items[i], c.replies[i]);
      }
      assert ReadReplies(items) == c.replies;
    }
    if Readable(doc) && CommentOf(doc) == c {
      var items := doc.fields["replies"].items;
      forall i | 0 <= i < |items|
        ensures HoldsReply(items[i], c.replies[i])
      {
        ReplyReadsIff(items[i], c.replies[i]);
      }
    }
  }

  /** What a comment inserted under the id `oid` reads back as. */
  function Stored(oid: string, c: Comment): Comment {
    c.(id := oid, createdAt := Truncated(c.createdAt),
       updatedAt := if c.updatedAt.Some? then Some(Truncated(c.updatedAt.value)) else None,
       replies := StoredReplies(c.replies))
  }

  /** The builder loop of `CommentToBson`. */
  method CommentToBson(c: Comment) returns (doc: Bson)
    ensures doc == Document(CommentFields(c))
  {
    var fields := map["task_id" := Int(c.taskId), "author" := Str(c.author), "author_id" := Int(c.authorId),
                      "text" := Str(c.text), "created_at" := Date(ToMillis(c.createdAt))];
    if c.updatedAt.Some? {
      fields := fields["updated_at" := Date(ToMillis(c.updatedAt.value))];
    }
    var items: seq<Bson> := [];
    for i := 0 to |c.replies|
      invariant items == ReplyDocs(c.replies)[..i]
    {
      items := items + [ReplyToBson(c.replies[i])];
    }
    assert items == ReplyDocs(c.replies);
    doc := Document(fields["replies" := Array(items)]);
    assert doc.fields == CommentFields(c);
  }

  /** The reader loop of `CommentFromBson`; a missing field, or one of another type, is an exception. */
  method CommentFromBson(doc: Bson) returns (result: Result<Comment>)
    ensures result == if Readable(doc) then Ok(CommentOf(doc)) else Threw
  {
    if !(Has(doc, "_id") && doc.fields["_id"].ObjectId? && HasInt(doc, "task_id") && HasStr(doc, "author") &&
         HasInt(doc, "author_id") && HasStr(doc, "text") && HasDate(doc, "created_at")) {
      return Threw;
    }
    var updatedAt := None;
    if Has(doc, "updated_at") {
      if !HasDate(doc, "updated_at") {
        return Threw;
      }
      updatedAt := Some(doc.fields["updated_at"].millis * MILLISECOND);
    }
    if !(Has(doc, "replies") && doc.fields["replies"].Array?) {
      return Threw;
    }
    var items := doc.fields["replies"].items;
    var replies: seq<Reply> := [];
    for i := 0 to |items|
      invariant RepliesReadable(items[..i]) && replies == ReadReplies(items[..i])
    {
      var reply := ReplyFromBson(items[i]);
      assert items[..i + 1][..i] == items[..i] && items[..i + 1][i] == items[i];
      if reply.Threw? {
        return Threw;
      }
      replies := replies + [reply.value];
    }
    assert items[..|items|] == items;
    return Ok(Comment(doc.fields["_id"].hex, doc.fields["task_id"].number, doc.fields["author"].text,
                      doc.fields["author_id"].number, doc.fields["text"].text,
                      doc.fields["created_at"].millis * MILLISECOND, updatedAt, replies));
  }

  lemma RepliesRoundTrip(replies: seq<Reply>)
    ensures RepliesReadable(ReplyDocs(replies)) && ReadReplies(ReplyDocs(replies)) == StoredReplies(replies)
  {
  }

  /** The BSON round trip: everything but the in-memory id survives, times to the millisecond. */
  lemma RoundTrip(oid: string, c: Comment)
    ensures var doc := Document(CommentFields(c)["_id" := ObjectId(oid)]);
            Readable(doc) && CommentOf(doc) == Stored(oid, c)
  {
    RepliesRoundTrip(c.replies);
  }
}
