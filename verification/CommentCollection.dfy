/** The comment collection: documents in the order in which the server returns them, which is taken to be the order of
    insertion. They may be any documents, also such as the service never wrote and cannot read. */
module CommentCollection {
  import opened Results
  import opened MachineInts
  import opened CommentModel

  type Collection = seq<Bson>

  predicate IsHex(c: char) { '0' <= c <= '9' || 'a' <= c <= 'f' || 'A' <= c <= 'F' }

  function LowerHex(c: char): char
    requires IsHex(c)
  {
    if 'A' <= c <= 'F' then c - 'A' + 'a' else c
  }

  /** `Oid(id)`: 24 hexadecimal digits in either case, or an exception. */
  function ParseOid(id: string): Result<string> {
    if |id| == 24 && forall i :: 0 <= i < |id| ==> IsHex(id[i])
    then Ok(seq(|id|, i requires 0 <= i < |id| => LowerHex(id[i])))
    else Threw
  }

  /** `c` is a hexadecimal digit, in either case, and `low` is the digit in lower case. */
  ghost predicate SameDigit(c: char, low: char) {
    exists k :: 0 <= k < 16 && low == "0123456789abcdef"[k] && (c == low || c == "0123456789ABCDEF"[k])
  }

  lemma DigitAt(k: nat)
    requires k < 16
    ensures "0123456789abcdef"[k] == if k < 10 then '0' + k as char else 'a' + (k - 10) as char
    ensures "0123456789ABCDEF"[k] == if k < 10 then '0' + k as char else 'A' + (k - 10) as char
  {
    assert k == 0 || k == 1 || k == 2 || k == 3 || k == 4 || k == 5 || k == 6 || k == 7 || k == 8 || k == 9 ||
           k == 10 || k == 11 || k == 12 || k == 13 || k == 14 || k == 15;
  }

  lemma HexDigit(c: char, low: char)
    ensures SameDigit(c, low) <==> IsHex(c) && low == LowerHex(c)
  {
    if IsHex(c) && low == LowerHex(c) {
      var k := if low <= '9' then (low - '0') as nat else 10 + (low - 'a') as nat;
      DigitAt(k);
    }
    if SameDigit(c, low) {
      var k :| 0 <= k < 16 && low == "0123456789abcdef"[k] && (c == low || c == "0123456789ABCDEF"[k]);
      DigitAt(k);
    }
  }

  /** An id parses to the lower-case spelling of its 24 hexadecimal digits, and nothing else parses. */
  lemma ParsesIff(id: string, oid: string)
    ensures ParseOid(id) == Ok(oid) <==> |id| == |oid| == 24 && forall i :: 0 <= i < 24 ==> SameDigit(id[i], oid[i])
  {
    if |id| == |oid| == 24 {
      forall i | 0 <= i < 24
        ensures SameDigit(id[i], oid[i]) <==> IsHex(id[i]) && oid[i] == LowerHex(id[i])
      {
        HexDigit(id[i], oid[i]);
      }
      if ParseOid(id).Ok? && forall i :: 0 <= i < 24 ==> oid[i] == LowerHex(id[i]) {
        assert oid == ParseOid(id).value;
      }
    }
  }

  /** The ids that listings show, in lower case, parse to themselves. */
  lemma LowerParses(id: string)
    requires |id| == 24 && forall i :: 0 <= i < 24 ==> id[i] in "0123456789abcdef"
    ensures ParseOid(id) == Ok(id)
  {
    forall i | 0 <= i < 24
      ensures SameDigit(id[i], id[i])
    {
      var k :| 0 <= k < 16 && "0123456789abcdef"[k] == id[i];
    }
    ParsesIff(id, id);
  }

  /** What parses at all are 24 digits of either case. */
  lemma ParsesAtAll(id: string)
    ensures ParseOid(id).Ok? <==> |id| == 24 && forall i :: 0 <= i < 24 ==> id[i] in "0123456789abcdefABCDEF"
  {
    if |id| == 24 {
      forall i | 0 <= i < 24
        ensures IsHex(id[i]) <==> id[i] in "0123456789abcdefABCDEF"
      {
        HexMember(id[i]);
      }
    }
  }

  lemma HexMember(c: char)
    ensures IsHex(c) <==> c in "0123456789abcdefABCDEF"
  {
    var all := "0123456789abcdefABCDEF";
    if IsHex(c) {
      HexDigit(c, LowerHex(c));
      var k :| 0 <= k < 16 && LowerHex(c) == "0123456789abcdef"[k] &&
               (c == LowerHex(c) || c == "0123456789ABCDEF"[k]);
      DigitAt(k);
      assert all[k] == "0123456789abcdef"[k] by {
        assert all[..16] == "0123456789abcdef";
      }
      if c != LowerHex(c) {
        assert all[16..] == "ABCDEF" && "0123456789ABCDEF"[10..] == "ABCDEF";
        assert all[k + 6] == all[16..][k - 10] == "0123456789ABCDEF"[10..][k - 10];
      }
    }
  }

  /** The two characters are the same digit. */
  ghost predicate Alike(a: char, b: char) {
    exists low :: SameDigit(a, low) && SameDigit(b, low)
  }

  /** Two ids parse alike exactly when they spell the same digits, each in any case. */
  lemma ParseAlike(a: string, b: string)
    requires ParseOid(a).Ok? && ParseOid(b).Ok?
    ensures ParseOid(a) == ParseOid(b) <==> forall i :: 0 <= i < 24 ==> Alike(a[i], b[i])
  {
    var x, y := ParseOid(a).value, ParseOid(b).value;
    ParsesIff(a, x);
    ParsesIff(b, y);
    forall i | 0 <= i < 24
      ensures x[i] == y[i] <==> Alike(a[i], b[i])
    {
      HexDigit(a[i], x[i]);
      HexDigit(b[i], y[i]);
      if low :| SameDigit(a[i], low) && SameDigit(b[i], low) {
        HexDigit(a[i], low);
        HexDigit(b[i], low);
      }
    }
    if forall i :: 0 <= i < 24 ==> Alike(a[i], b[i]) {
      assert x == y;
    }
  }

  // ---------- filters ----------

  predicate HasId(doc: Bson, oid: string) {
    Has(doc, "_id") && doc.fields["_id"] == ObjectId(oid)
  }

  /** The filter on `task_id` matches the integer, and an array that holds it. */
  predicate OnTask(doc: Bson, taskId: int32) {
    && Has(doc, "task_id")
    && var task := doc.fields["task_id"];
       task == Int(taskId) || (task.Array? && Int(taskId) in task.items)
  }

  /** The position of the first document with this id, or the length of the collection. */
  function IndexOf(docs: Collection, oid: string): nat
    ensures IndexOf(docs, oid) <= |docs|
  {
    if docs == [] then 0
    else
      var n := |docs| - 1;
      var i := IndexOf(docs[..n], oid);
      if i < n then i else if HasId(docs[n], oid) then n else n + 1
  }

  /** The comments of one task, in order; an exception when one of the matching documents cannot be read. */
  function OfTask(docs: Collection, taskId: int32): Result<seq<Comment>> {
    if docs == [] then Ok([])
    else
      var n := |docs| - 1;
      var rest := OfTask(docs[..n], taskId);
      if !OnTask(docs[n], taskId) then rest
      else if rest.Threw? || !Readable(docs[n]) then Threw
      else Ok(rest.value + [CommentOf(docs[n])])
  }

  /** The task of the first comment with this id, if there is one and its task is an integer. */
  function TaskOf(docs: Collection, oid: string): Option<int32> {
    var i := IndexOf(docs, oid);
    if i < |docs| && HasInt(docs[i], "task_id") then Some(docs[i].fields["task_id"].number) else None
  }

  /** The lookup of a comment's task, which reads as -1 when it fails for any reason. */
  function TaskIdFor(docs: Collection, id: string, reachable: bool): int32 {
    if !reachable || ParseOid(id).Threw? then -1
    else
      match TaskOf(docs, ParseOid(id).value)
      case Some(taskId) => taskId
      case None => -1
  }

  // ---------- updates ----------

  /** The document of a new comment, with the id the driver adds. */
  function NewDoc(oid: string, c: Comment): Bson {
    Document(CommentFields(c)["_id" := ObjectId(oid)])
  }

  function Inserted(docs: Collection, oid: string, c: Comment): Collection {
    docs + [NewDoc(oid, c)]
  }

  /** `$push` wants an array, or no field at all, which it then creates. */
  predicate Pushable(doc: Bson) {
    doc.Document? && (Has(doc, "replies") ==> doc.fields["replies"].Array?)
  }

  /** Whether the server carries out the update with a reply: no document with the id is fine too. */
  predicate AcceptsReply(docs: Collection, oid: string) {
    IndexOf(docs, oid) < |docs| ==> Pushable(docs[IndexOf(docs, oid)])
  }

  function RepliesIn(doc: Bson): seq<Bson> {
    if Has(doc, "replies") && doc.fields["replies"].Array? then doc.fields["replies"].items else []
  }

  /** A document after `$push` of a reply and `$set` of the update time. */
  function Pushed(doc: Bson, reply: Reply, now: int): Bson
    requires Pushable(doc)
  {
    Document(doc.fields["replies" := Array(RepliesIn(doc) + [ReplyToBson(reply)])]["updated_at" := Date(ToMillis(now))])
  }

  function Replied(docs: Collection, oid: string, reply: Reply, now: int): Collection
    requires AcceptsReply(docs, oid)
  {
    var i := IndexOf(docs, oid);
    if i < |docs| then docs[i := Pushed(docs[i], reply, now)] else docs
  }

  // ---------- one document ----------

  /** A reply leaves the id and the task of a document alone, adds itself to its replies, and repairs nothing: what the
      document reads as changes only in the replies and the update time. */
  lemma PushedReads(doc: Bson, reply: Reply, now: int)
    requires Pushable(doc)
    ensures var after := Pushed(doc, reply, now);
            && after.fields["replies"] == Array((if "replies" in doc.fields then doc.fields["replies"].items else []) +
                                                [ReplyToBson(reply)])
            && RepliesIn(after) == RepliesIn(doc) + [ReplyToBson(reply)]
            && (forall oid :: HasId(after, oid) <==> HasId(doc, oid))
            && (forall taskId :: OnTask(after, taskId) <==> OnTask(doc, taskId))
            && (Readable(doc) ==>
                  && Readable(after)
                  && CommentOf(after) == CommentOf(doc).(replies := CommentOf(doc).replies + [StoredReply(reply)],
                                                         updatedAt := Some(Truncated(now))))
  {
    var after := Pushed(doc, reply, now);
    assert forall name :: name != "replies" && name != "updated_at" ==>
             (Has(after, name) <==> Has(doc, name)) && (Has(doc, name) ==> after.fields[name] == doc.fields[name]);
    if Readable(doc) {
      var items := doc.fields["replies"].items;
      assert ReadReplies(items + [ReplyToBson(reply)]) == ReadReplies(items) + [StoredReply(reply)];
    }
  }

  lemma NewDocReads(oid: string, c: Comment)
    ensures Readable(NewDoc(oid, c)) && CommentOf(NewDoc(oid, c)) == Stored(oid, c)
    ensures forall other :: HasId(NewDoc(oid, c), other) <==> other == oid
    ensures forall taskId :: OnTask(NewDoc(oid, c), taskId) <==> taskId == c.taskId
  {
    RoundTrip(oid, c);
  }

  // ---------- the first comment with an id ----------

  lemma {:induction false} IndexOfFirst(docs: Collection, oid: string)
    ensures var i := IndexOf(docs, oid);
            && (i < |docs| ==> HasId(docs[i], oid))
            && forall j :: 0 <= j < i ==> !HasId(docs[j], oid)
  {
    if docs != [] {
      IndexOfFirst(docs[..|docs| - 1], oid);
    }
  }

  lemma IndexOfUnique(docs: Collection, oid: string, i: nat)
    requires i < |docs| ==> HasId(docs[i], oid)
    requires i <= |docs| && forall j :: 0 <= j < i ==> !HasId(docs[j], oid)
    ensures IndexOf(docs, oid) == i
  {
    IndexOfFirst(docs, oid);
  }

  /** An id keeps its position. */
  lemma InsertKeepsIndex(docs: Collection, oid: string, other: string, c: Comment)
    requires IndexOf(docs, oid) < |docs|
    ensures IndexOf(Inserted(docs, other, c), oid) == IndexOf(docs, oid)
  {
    IndexOfFirst(docs, oid);
    IndexOfUnique(Inserted(docs, other, c), oid, IndexOf(docs, oid));
  }

  lemma ReplyKeepsIndex(docs: Collection, oid: string, other: string, reply: Reply, now: int)
    requires AcceptsReply(docs, other)
    ensures IndexOf(Replied(docs, other, reply, now), oid) == IndexOf(docs, oid)
  {
    IndexOfFirst(docs, oid);
    var k := IndexOf(docs, other);
    if k < |docs| {
      PushedReads(docs[k], reply, now);
    }
    IndexOfUnique(Replied(docs, other, reply, now), oid, IndexOf(docs, oid));
  }

  /** A comment keeps its task: neither an insertion nor a reply changes which task an id belongs to. */
  lemma TaskOfStable(docs: Collection, oid: string, other: string, c: Comment, reply: Reply, now: int)
    requires TaskOf(docs, oid).Some?
    ensures TaskOf(Inserted(docs, other, c), oid) == TaskOf(docs, oid)
    ensures AcceptsReply(docs, other) ==> TaskOf(Replied(docs, other, reply, now), oid) == TaskOf(docs, oid)
  {
    InsertKeepsIndex(docs, oid, other, c);
    if AcceptsReply(docs, other) {
      ReplyKeepsIndex(docs, oid, other, reply, now);
    }
  }

  // ---------- what an operation leaves alone ----------

  /** Listings are blind to a change in a document that they skip, or that they cannot read before or after. */
  lemma {:induction false} OfTaskUpdate(docs: Collection, i: nat, doc: Bson, taskId: int32)
    requires i < |docs| && (OnTask(doc, taskId) <==> OnTask(docs[i], taskId))
    requires OnTask(doc, taskId) ==> !Readable(doc) && !Readable(docs[i])
    ensures OfTask(docs[i := doc], taskId) == OfTask(docs, taskId)
  {
    var n := |docs| - 1;
    if i < n {
      OfTaskUpdate(docs[..n], i, doc, taskId);
      assert docs[i := doc][..n] == docs[..n][i := doc];
    } else {
      assert docs[i := doc][..n] == docs[..n];
    }
  }

  /** An insertion shows up in the listing of its own task and no other. */
  lemma InsertedElsewhere(docs: Collection, oid: string, c: Comment, taskId: int32)
    ensures OfTask(Inserted(docs, oid, c), taskId) ==
            if c.taskId == taskId && OfTask(docs, taskId).Ok? then Ok(OfTask(docs, taskId).value + [Stored(oid, c)])
            else OfTask(docs, taskId)
  {
    assert Inserted(docs, oid, c)[..|docs|] == docs;
    NewDocReads(oid, c);
  }

  /** A reply changes no listing but that of the task its comment belongs to. */
  lemma RepliedElsewhere(docs: Collection, oid: string, reply: Reply, now: int, taskId: int32)
    requires AcceptsReply(docs, oid) && TaskOf(docs, oid) != Some(taskId)
    ensures OfTask(Replied(docs, oid, reply, now), taskId) == OfTask(docs, taskId)
  {
    var i := IndexOf(docs, oid);
    if i < |docs| {
      PushedReads(docs[i], reply, now);
      OfTaskUpdate(docs, i, Pushed(docs[i], reply, now), taskId);
    }
  }

  /** A listing that can be read holds the comments that the documents of the task read as, and nothing else. */
  lemma {:induction false} ListedIff(docs: Collection, taskId: int32, c: Comment)
    requires OfTask(docs, taskId).Ok?
    ensures c in OfTask(docs, taskId).value <==>
            c.taskId == taskId && exists i :: 0 <= i < |docs| && Readable(docs[i]) && CommentOf(docs[i]) == c
  {
    if docs != [] {
      var n := |docs| - 1;
      ListedIff(docs[..n], taskId, c);
      if Readable(docs[n]) && CommentOf(docs[n]) == c && c.taskId == taskId {
        assert OnTask(docs[n], taskId);
        assert c in OfTask(docs, taskId).value;
      }
      if i :| 0 <= i < n && Readable(docs[..n][i]) && CommentOf(docs[..n][i]) == c {
        assert docs[i] == docs[..n][i];
      }
      if i :| 0 <= i < |docs| && Readable(docs[i]) && CommentOf(docs[i]) == c {
        assert i < n ==> docs[..n][i] == docs[i];
      }
    }
  }

  /** And it can be read exactly when every document that the filter matches can: those with this task, or with an
      array that holds it. */
  lemma {:induction false} ReadableIff(docs: Collection, taskId: int32)
    ensures OfTask(docs, taskId).Ok? <==>
            forall i :: 0 <= i < |docs| && docs[i].Document? && "task_id" in docs[i].fields ==>
              var task := docs[i].fields["task_id"];
              task == Int(taskId) || (task.Array? && Int(taskId) in task.items) ==> Readable(docs[i])
  {
    if docs != [] {
      var n := |docs| - 1;
      ReadableIff(docs[..n], taskId);
      assert forall i :: 0 <= i < n ==> docs[..n][i] == docs[i];
    }
  }

  // ---------- what a listing shows of a change ----------

  lemma {:induction false} OfTaskChanges(docs: Collection, i: nat, doc: Bson, taskId: int32)
    requires i < |docs| && OnTask(docs[i], taskId) && OnTask(doc, taskId)
    requires OfTask(docs, taskId).Ok? && Readable(doc) && Readable(docs[i]) && CommentOf(doc) != CommentOf(docs[i])
    ensures OfTask(docs[i := doc], taskId) != OfTask(docs, taskId)
  {
    var n := |docs| - 1;
    if i < n {
      OfTaskChanges(docs[..n], i, doc, taskId);
      assert docs[i := doc][..n] == docs[..n][i := doc];
      OfTaskReadable(docs[..n], i, doc, taskId);
      var before, after := OfTask(docs[..n], taskId).value, OfTask(docs[..n][i := doc], taskId).value;
      if OnTask(docs[n], taskId) {
        var last := [CommentOf(docs[n])];
        assert (before + last)[..|before|] == before && (after + last)[..|after|] == after;
      }
    } else {
      assert docs[i := doc][..n] == docs[..n];
      var rest := OfTask(docs[..n], taskId).value;
      assert (rest + [CommentOf(doc)])[|rest|] != (rest + [CommentOf(docs[i])])[|rest|];
    }
  }

  lemma {:induction false} OfTaskReadable(docs: Collection, i: nat, doc: Bson, taskId: int32)
    requires i < |docs| && (OnTask(doc, taskId) ==> Readable(doc)) && OfTask(docs, taskId).Ok?
    requires OnTask(doc, taskId) <==> OnTask(docs[i], taskId)
    ensures OfTask(docs[i := doc], taskId).Ok?
    ensures |OfTask(docs[i := doc], taskId).value| == |OfTask(docs, taskId).value|
  {
    var n := |docs| - 1;
    if i < n {
      OfTaskReadable(docs[..n], i, doc, taskId);
      assert docs[i := doc][..n] == docs[..n][i := doc];
    } else {
      assert docs[i := doc][..n] == docs[..n];
    }
  }

  /** A reply changes the listing of its comment's task, if that can be read, and leaves it readable. */
  lemma RepliedShows(docs: Collection, oid: string, reply: Reply, now: int, taskId: int32)
    requires AcceptsReply(docs, oid) && TaskOf(docs, oid) == Some(taskId) && OfTask(docs, taskId).Ok?
    ensures OfTask(Replied(docs, oid, reply, now), taskId).Ok?
    ensures OfTask(Replied(docs, oid, reply, now), taskId) != OfTask(docs, taskId)
  {
    var i := IndexOf(docs, oid);
    ReadableIff(docs, taskId);
    PushedReads(docs[i], reply, now);
    assert |CommentOf(Pushed(docs[i], reply, now)).replies| == |CommentOf(docs[i]).replies| + 1;
    OfTaskReadable(docs, i, Pushed(docs[i], reply, now), taskId);
    OfTaskChanges(docs, i, Pushed(docs[i], reply, now), taskId);
  }

  // ---------- a comment that was inserted can be found, replied to and listed ----------

  /** A lookup that reaches the server gives the task of the first comment with the id, in any spelling of it. */
  lemma LookupFinds(docs: Collection, id: string, oid: string)
    requires ParseOid(id) == Ok(oid) && IndexOf(docs, oid) < |docs| && Readable(docs[IndexOf(docs, oid)])
    ensures TaskIdFor(docs, id, true) == CommentOf(docs[IndexOf(docs, oid)]).taskId
  {
  }

  /** After an insertion under an id not in use, the id finds the comment in any spelling: the lookup gives its task, a
      reply is accepted, and the task, if it can be listed, shows the comment with the reply and nothing else new. */
  lemma ReplyIsListed(docs: Collection, oid: string, comment: Comment, id: string, reply: Reply, now: int)
    requires IndexOf(docs, oid) == |docs| && ParseOid(id) == Ok(oid)
    ensures var inserted := Inserted(docs, oid, comment);
            && TaskIdFor(inserted, id, true) == comment.taskId
            && AcceptsReply(inserted, oid)
            && var listing := OfTask(Replied(inserted, oid, reply, now), comment.taskId);
               && (listing.Ok? <==> OfTask(docs, comment.taskId).Ok?)
               && (listing.Ok? ==>
                     exists c :: listing.value == OfTask(docs, comment.taskId).value + [c] && c.id == oid &&
                       c.author == comment.author && c.text == comment.text &&
                       |c.replies| == |comment.replies| + 1 &&
                       var last := c.replies[|comment.replies|];
                       last.author == reply.author && last.text == reply.text &&
                       -1_000_000 < reply.createdAt - last.createdAt < 1_000_000)
  {
    var inserted := Inserted(docs, oid, comment);
    InsertReadsBack(docs, oid, comment);
    LookupFinds(inserted, id, oid);
    var doc := NewDoc(oid, comment);
    NewDocReads(oid, comment);
    PushedReads(doc, reply, now);
    TruncatedWithin(reply.createdAt);
    var after := Replied(inserted, oid, reply, now);
    assert after == docs + [Pushed(doc, reply, now)];
    assert after[..|docs|] == docs;
    if OfTask(docs, comment.taskId).Ok? {
      var c := CommentOf(Pushed(doc, reply, now));
      assert c.replies == StoredReplies(comment.replies) + [StoredReply(reply)];
      assert OfTask(after, comment.taskId).value == OfTask(docs, comment.taskId).value + [c];
    }
  }

  // ---------- histories ----------

  datatype StoreOp =
    | InsertOp(oid: string, comment: Comment)
    | ReplyOp(oid: string, reply: Reply, now: int)

  /** A reply that the server does not carry out changes nothing. */
  function ApplyOp(docs: Collection, op: StoreOp): Collection {
    match op
    case InsertOp(oid, comment) => Inserted(docs, oid, comment)
    case ReplyOp(oid, reply, now) => if AcceptsReply(docs, oid) then Replied(docs, oid, reply, now) else docs
  }

  function ApplyAll(docs: Collection, ops: seq<StoreOp>): Collection {
    if ops == [] then docs else ApplyOp(ApplyAll(docs, ops[..|ops| - 1]), ops[|ops| - 1])
  }

  /** The replies pushed to `oid` by `ops`, in commit order, as they read back. */
  function RepliesTo(ops: seq<StoreOp>, oid: string): seq<Reply> {
    if ops == [] then []
    else
      var n := |ops| - 1;
      if ops[n].ReplyOp? && ops[n].oid == oid then RepliesTo(ops[..n], oid) + [StoredReply(ops[n].reply)]
      else RepliesTo(ops[..n], oid)
  }

  /** The id is not in use before the insertion. */
  ghost predicate FreshId(docs: Collection, before: seq<StoreOp>, oid: string) {
    && (forall i :: 0 <= i < |docs| ==> !HasId(docs[i], oid))
    && (forall i :: 0 <= i < |before| ==> before[i].InsertOp? ==> before[i].oid != oid)
  }

  lemma {:induction false} IdsAfter(docs: Collection, ops: seq<StoreOp>, oid: string)
    requires FreshId(docs, ops, oid)
    ensures IndexOf(ApplyAll(docs, ops), oid) == |ApplyAll(docs, ops)|
  {
    if ops == [] {
      IndexOfUnique(docs, oid, |docs|);
    } else {
      var n := |ops| - 1;
      IdsAfter(docs, ops[..n], oid);
      var prior := ApplyAll(docs, ops[..n]);
      IndexOfFirst(prior, oid);
      match ops[n]
      case InsertOp(other, c) =>
        NewDocReads(other, c);
        IndexOfUnique(Inserted(prior, other, c), oid, |prior| + 1);
      case ReplyOp(other, reply, now) =>
        if AcceptsReply(prior, other) {
          ReplyKeepsIndex(prior, oid, other, reply, now);
        }
    }
  }

  /** What an operation does to the first comment with an id. */
  lemma StepKeepsComment(docs: Collection, op: StoreOp, oid: string)
    requires IndexOf(docs, oid) < |docs| && Readable(docs[IndexOf(docs, oid)])
    ensures var i, after := IndexOf(docs, oid), ApplyOp(docs, op);
            && IndexOf(after, oid) == i < |after| && Readable(after[i])
            && var c := CommentOf(docs[i]);
               if op.ReplyOp? && op.oid == oid
               then CommentOf(after[i]) == c.(replies := c.replies + [StoredReply(op.reply)],
                                              updatedAt := Some(Truncated(op.now)))
               else CommentOf(after[i]) == c
  {
    var i := IndexOf(docs, oid);
    IndexOfFirst(docs, oid);
    match op
    case InsertOp(other, c) => InsertKeepsIndex(docs, oid, other, c);
    case ReplyOp(other, reply, now) =>
      if AcceptsReply(docs, other) {
        ReplyKeepsIndex(docs, oid, other, reply, now);
        PushedReads(docs[i], reply, now);
        if other != oid {
          IndexOfFirst(docs, other);
        }
      }
  }

  /** Times lose less than a millisecond, toward the epoch. */
  lemma TruncatedWithin(instant: int)
    ensures -1_000_000 < instant - Truncated(instant) < 1_000_000
    ensures if instant >= 0 then 0 <= Truncated(instant) <= instant else instant <= Truncated(instant) <= 0
  {
    if instant >= 0 {
      assert instant == MILLISECOND * (instant / MILLISECOND) + instant % MILLISECOND;
    } else {
      assert -instant == MILLISECOND * (-instant / MILLISECOND) + -instant % MILLISECOND;
    }
  }

  /** The first comment with the id, found at `i`, is `comment` as it was inserted, but for its replies, its update time
      and less than a millisecond of its creation time. */
  ghost predicate ReadsBack(docs: Collection, i: nat, oid: string, comment: Comment, replies: seq<Reply>) {
    && i < |docs| && IndexOf(docs, oid) == i && Readable(docs[i])
    && var c := CommentOf(docs[i]);
       && c.id == oid && c.taskId == comment.taskId
       && c.author == comment.author && c.authorId == comment.authorId && c.text == comment.text
       && -1_000_000 < comment.createdAt - c.createdAt < 1_000_000
       && c.replies == replies
  }

  lemma InsertReadsBack(docs: Collection, oid: string, comment: Comment)
    requires IndexOf(docs, oid) == |docs|
    ensures ReadsBack(Inserted(docs, oid, comment), |docs|, oid, comment, StoredReplies(comment.replies))
  {
    IndexOfFirst(docs, oid);
    NewDocReads(oid, comment);
    IndexOfUnique(Inserted(docs, oid, comment), oid, |docs|);
    TruncatedWithin(comment.createdAt);
  }

  /** Documents record their history, whatever else the collection holds. After any run that inserts `comment` under an
      id not in use, the comment reads back as it was inserted; its replies are the ones it came with followed by
      exactly those pushed to it since, in commit order; and its task lists it as long as it can be listed at all. */
  lemma {:induction false} History(docs: Collection, before: seq<StoreOp>, oid: string, comment: Comment,
                                   after: seq<StoreOp>)
    requires FreshId(docs, before, oid)
    ensures var final := ApplyAll(Inserted(ApplyAll(docs, before), oid, comment), after);
            var i := |ApplyAll(docs, before)|;
            && ReadsBack(final, i, oid, comment, StoredReplies(comment.replies) + RepliesTo(after, oid))
            && (OfTask(final, comment.taskId).Ok? ==> CommentOf(final[i]) in OfTask(final, comment.taskId).value)
  {
    var base := ApplyAll(docs, before);
    var inserted := Inserted(base, oid, comment);
    if after == [] {
      IdsAfter(docs, before, oid);
      InsertReadsBack(base, oid, comment);
      assert RepliesTo(after, oid) == [];
    } else {
      var n := |after| - 1;
      History(docs, before, oid, comment, after[..n]);
      StepKeepsComment(ApplyAll(inserted, after[..n]), after[n], oid);
    }
    var final := ApplyAll(inserted, after);
    if OfTask(final, comment.taskId).Ok? {
      ListedIff(final, comment.taskId, CommentOf(final[|base|]));
    }
  }
}
