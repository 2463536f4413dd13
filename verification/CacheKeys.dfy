/** What is cached, under which keys and for how long, and how the keys relate to the swept prefix. */
module CacheKeys {
  import opened MachineInts
  import opened Decimal

  const COMMENTS_PREFIX := "comments:task:"
  const PROJECTS_KEY := "projects:all"

  /** `s.rfind(prefix, 0) == 0`. */
  predicate StartsWith(s: string, prefix: string) {
    prefix <= s
  }

  function CommentsKey(taskId: int32): string {
    COMMENTS_PREFIX + ToString(taskId)
  }

  /** Two tasks never share a key. */
  lemma CommentsKeyInjective(a: int32, b: int32)
    ensures CommentsKey(a) == CommentsKey(b) <==> a == b
  {
    if CommentsKey(a) == CommentsKey(b) {
      assert ToString(a) == CommentsKey(a)[|COMMENTS_PREFIX|..];
      assert ToString(b) == CommentsKey(b)[|COMMENTS_PREFIX|..];
      RoundTrip(a);
      RoundTrip(b);
    }
  }

  /** Path arguments share a key exactly when they parse to the same id. */
  lemma SpellingsShareKey(a: string, b: string)
    requires Stoi(a).Ok? && Stoi(b).Ok?
    ensures CommentsKey(Stoi(a).value) == CommentsKey(Stoi(b).value) <==> Stoi(a) == Stoi(b)
  {
    CommentsKeyInjective(Stoi(a).value, Stoi(b).value);
  }

  /** Every comments key, negative ids included, is swept by the prefix, and the projects key is not. */
  lemma SweepHitsCommentsOnly(taskId: int32)
    ensures StartsWith(CommentsKey(taskId), COMMENTS_PREFIX)
    ensures !StartsWith(PROJECTS_KEY, COMMENTS_PREFIX)
    ensures CommentsKey(taskId) != PROJECTS_KEY
  {
    assert PROJECTS_KEY[0] != COMMENTS_PREFIX[0];
    assert CommentsKey(taskId)[0] == COMMENTS_PREFIX[0];
  }

  /** The listings whose responses are cached. */
  datatype Resource = Comments(taskId: int32) | Projects

  /** Times to live of cached responses, in seconds. */
  const COMMENTS_TTL := 60
  const PROJECTS_TTL := 300

  function KeyOf(res: Resource): string {
    match res
    case Comments(taskId) => CommentsKey(taskId)
    case Projects => PROJECTS_KEY
  }

  function TtlSeconds(res: Resource): int {
    if res.Comments? then COMMENTS_TTL else PROJECTS_TTL
  }

  /** Two resources never share a key, and the sweep takes exactly the comments. */
  lemma KeyOfInjective(a: Resource, b: Resource)
    ensures KeyOf(a) == KeyOf(b) ==> a == b
    ensures StartsWith(KeyOf(a), COMMENTS_PREFIX) <==> a.Comments?
  {
    if a.Comments? {
      SweepHitsCommentsOnly(a.taskId);
    }
    if b.Comments? {
      SweepHitsCommentsOnly(b.taskId);
    }
    if a.Comments? && b.Comments? {
      CommentsKeyInjective(a.taskId, b.taskId);
    }
    SweepHitsCommentsOnly(0);
  }
}
