/** The comment storage of the document database. Its methods make no demand on the documents they find. */
module MongoStorage {
  import opened Results
  import opened MachineInts
  import opened CommentModel
  import opened CommentCollection

  class MongoStorage {
    var docs: Collection

    constructor (docs: Collection)
      ensures this.docs == docs
    {
      this.docs := docs;
    }

    /** The driver adds the `_id`; `accepted` says whether the server took the document. */
    method InsertComment(comment: Comment, oid: string, accepted: bool) returns (ok: bool)
      modifies this
      ensures ok == accepted
      ensures docs == if accepted then Inserted(old(docs), oid, comment) else old(docs)
    {
      var doc := CommentToBson(comment);
      if accepted {
        docs := docs + [Document(doc.fields["_id" := ObjectId(oid)])];
      }
      return accepted;
    }

    /** A matching document that cannot be read ends the loop with an exception. */
    method GetCommentsByTask(taskId: int32, reachable: bool) returns (result: Result<seq<Comment>>)
      ensures result == if reachable then OfTask(docs, taskId) else Threw
    {
      if !reachable {
        return Threw;
      }
      var found: seq<Comment> := [];
      for i := 0 to |docs|
        invariant OfTask(docs[..i], taskId) == Ok(found)
      {
        assert docs[..i + 1][..i] == docs[..i];
        if OnTask(docs[i], taskId) {
          var read := CommentFromBson(docs[i]);
          if read.Threw? {
            ReadableIff(docs, taskId);
            return Threw;
          }
          found := found + [read.value];
        }
      }
      assert docs[..|docs|] == docs;
      return Ok(found);
    }

    /** The position of the first document with this id, as a filter on `_id` finds it. */
    method FindById(oid: string) returns (i: nat)
      ensures i == IndexOf(docs, oid)
    {
      i := 0;
      while i < |docs| && !HasId(docs[i], oid)
        invariant i <= |docs| && forall j :: 0 <= j < i ==> !HasId(docs[j], oid)
      {
        i := i + 1;
      }
      IndexOfUnique(docs, oid, i);
    }

    /** A malformed id throws, and so does an update the server does not carry out: one of a document whose `replies`
        are no array. */
    method AddReply(id: string, reply: Reply, now: int, accepted: bool) returns (ok: bool)
      modifies this
      ensures ok <==>
                && accepted && ParseOid(id).Ok?
                && var i := IndexOf(old(docs), ParseOid(id).value);
                   i < |old(docs)| ==>
                     old(docs)[i].Document? &&
                     ("replies" in old(docs)[i].fields ==> old(docs)[i].fields["replies"].Array?)
      ensures ok ==> AcceptsReply(old(docs), ParseOid(id).value)
      ensures docs == if ok then Replied(old(docs), ParseOid(id).value, reply, now) else old(docs)
    {
      var oid := ParseOid(id);
      if oid.Threw? || !accepted {
        return false;
      }
      var i := FindById(oid.value);
      if i < |docs| {
        if !Pushable(docs[i]) {
          return false;
        }
        docs := docs[i := Pushed(docs[i], reply, now)];
      }
      return true;
    }

    /** Every failure -- a malformed id, an unreachable server, no such comment, a task that is no integer -- reads as
        -1. */
    method GetTaskIdByCommentId(id: string, reachable: bool) returns (taskId: int32)
      ensures taskId == TaskIdFor(docs, id, reachable)
    {
      var oid := ParseOid(id);
      if oid.Threw? || !reachable {
        return -1;
      }
      var i := FindById(oid.value);
      if i < |docs| {
        if !HasInt(docs[i], "task_id") {
          return -1;
        }
        return docs[i].fields["task_id"].number;
      }
      return -1;
    }
  }

  /** A comment, a reply to it under its id in any spelling, and the listing, one call after the other: the reply is
      taken and, if the task can be listed, shown. */
  method InsertReplyList(storage: MongoStorage, comment: Comment, oid: string, id: string, reply: Reply, now: int)
    returns (ok: bool, listing: Result<seq<Comment>>)
    requires IndexOf(storage.docs, oid) == |storage.docs|
    requires |id| == |oid| == 24 && forall i :: 0 <= i < 24 ==> SameDigit(id[i], oid[i])
    modifies storage
    ensures ok && (listing.Ok? <==> OfTask(old(storage.docs), comment.taskId).Ok?)
    ensures listing.Ok? ==>
              exists c :: c in listing.value && c.id == oid && c.author == comment.author && c.text == comment.text &&
                exists last :: last in c.replies && last.author == reply.author && last.text == reply.text &&
                  -1_000_000 < reply.createdAt - last.createdAt < 1_000_000
  {
    ghost var docs := storage.docs;
    ParsesIff(id, oid);
    ReplyIsListed(docs, oid, comment, id, reply, now);
    IndexOfFirst(Inserted(docs, oid, comment), oid);
    ok := storage.InsertComment(comment, oid, true);
    ok := storage.AddReply(id, reply, now, true);
    listing := storage.GetCommentsByTask(comment.taskId, true);
    if listing.Ok? {
      ghost var c :| listing.value == OfTask(docs, comment.taskId).value + [c] && c.id == oid &&
                     c.author == comment.author && c.text == comment.text &&
                     |c.replies| == |comment.replies| + 1 &&
                     var last := c.replies[|comment.replies|];
                     last.author == reply.author && last.text == reply.text &&
                     -1_000_000 < reply.createdAt - last.createdAt < 1_000_000;
      assert c in listing.value && c.replies[|comment.replies|] in c.replies;
    }
  }
}
