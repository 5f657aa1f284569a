/** The `comments` column of an event: a flat list of comments in which a
    reply names the comment it answers. Covers `add-comment` and
    `delete-comment`. */
module Comments {
  import opened Common

  datatype Comment = Comment(uuid: string, userId: UserId, message: string, replyTo: Option<string>, createdAt: string)

  // ---------------------------------------------------------------------
  // add-comment

  /** The comment the handler builds: a falsy `reply_to` becomes null. */
  function NewComment(userId: UserId, message: string, replyTo: string, freshId: string, now: string): (c: Comment)
    ensures c.replyTo.None? <==> !Truthy(replyTo)
    ensures c.replyTo.Some? ==> c.replyTo.value == replyTo
    ensures c.uuid == freshId && c.userId == userId && c.message == message
  {
    Comment(freshId, userId, message, if Truthy(replyTo) then Some(replyTo) else None, now)
  }

  /** `add-comment`, with the fresh uuid and the clock as parameters. A
      NULL column is read as an empty list. */
  function AddComment(col: Column<seq<Comment>>, eventId: string, userId: UserId, message: string,
                      replyTo: string, freshId: string, now: string): (r: Step<Column<seq<Comment>>>)
    ensures r.outcome == BadRequest <==> !Truthy(eventId) || !Truthy(userId) || !Truthy(message)
    ensures r.outcome == NotFound <==> Truthy(eventId) && Truthy(userId) && Truthy(message) && col.NoRow?
    ensures r.outcome in {Ok, BadRequest, NotFound}
    ensures r.outcome != Ok ==> r.next == col
    ensures r.outcome == Ok ==>
              && r.next.Value?
              && |r.next.v| == |col.OrElse([])| + 1
              && r.next.v[..|col.OrElse([])|] == col.OrElse([])
              && r.next.v[|col.OrElse([])|] == NewComment(userId, message, replyTo, freshId, now)
  {
    if !Truthy(eventId) || !Truthy(userId) || !Truthy(message) then Step(BadRequest, col)
    else if col.NoRow? then Step(NotFound, col)
    else
      var existing := col.OrElse([]);
      var c := NewComment(userId, message, replyTo, freshId, now);
      assert (existing + [c])[..|existing|] == existing;
      Step(Ok, Value(existing + [c]))
  }

  // ---------------------------------------------------------------------
  // delete-comment

  /** `comments.filter(c => !shouldDelete.has(c.uuid))`. */
  function WithoutIds(s: seq<Comment>, ids: set<string>): (r: seq<Comment>)
    ensures |r| <= |s|
    ensures (forall c :: c in s ==> c.uuid !in ids) ==> r == s
  {
    if s == [] then []
    else
      assert s == [s[0]] + s[1..];
      (if s[0].uuid in ids then [] else [s[0]]) + WithoutIds(s[1..], ids)
  }

  /** What the filter keeps: exactly the comments whose id was not named,
      each as often as before. */
  lemma {:induction false} WithoutIdsContents(s: seq<Comment>, ids: set<string>)
    ensures forall c :: c in WithoutIds(s, ids) <==> c in s && c.uuid !in ids
    ensures forall c :: multiset(WithoutIds(s, ids))[c] == if c.uuid in ids then 0 else multiset(s)[c]
  {
    if s != [] {
      assert s == [s[0]] + s[1..];
      WithoutIdsContents(s[1..], ids);
    }
  }

  /** The filter keeps the survivors' relative order: it distributes over
      concatenation. */
  lemma {:induction false} WithoutIdsAppend(a: seq<Comment>, b: seq<Comment>, ids: set<string>)
    ensures WithoutIds(a + b, ids) == WithoutIds(a, ids) + WithoutIds(b, ids)
  {
    if a == [] {
      assert a + b == b;
    } else {
      ConsConcat(a, b);
      WithoutIdsAppend(a[1..], b, ids);
      ConcatAssoc(if a[0].uuid in ids then [] else [a[0]], WithoutIds(a[1..], ids), WithoutIds(b, ids));
    }
  }

  /** `delete-comment`: the request is not validated; a missing event is
      NotFound and otherwise the filtered list is written back, even when
      nothing matched. */
  function DeleteComments(col: Column<seq<Comment>>, ids: set<string>): (r: Step<Column<seq<Comment>>>)
    ensures r.outcome == NotFound <==> col.NoRow?
    ensures r.outcome != NotFound ==> r.outcome == Ok
    ensures col.NoRow? ==> r.next == col
    ensures r.outcome == Ok ==>
              && r.next.Value?
              && (forall c :: c in r.next.v <==> c in col.OrElse([]) && c.uuid !in ids)
              && (forall c :: multiset(r.next.v)[c] == if c.uuid in ids then 0 else multiset(col.OrElse([]))[c])
              && r.next == Value(WithoutIds(col.OrElse([]), ids))
  {
    if col.NoRow? then Step(NotFound, col)
    else
      WithoutIdsContents(col.OrElse([]), ids);
      Step(Ok, Value(WithoutIds(col.OrElse([]), ids)))
  }

  /** Deleting a comment does not delete its replies: a reply whose own id
      was not named survives and still points at the removed comment. */
  lemma RepliesAreOrphaned(s: seq<Comment>, ids: set<string>, reply: Comment)
    requires reply in s && reply.uuid !in ids
    requires reply.replyTo.Some? && reply.replyTo.value in ids
    ensures reply in WithoutIds(s, ids)
    ensures forall c :: c in WithoutIds(s, ids) ==> c.uuid != reply.replyTo.value
  {
    WithoutIdsContents(s, ids);
  }

  /** Deleting the id of a comment just added restores the list, provided
      no earlier comment carried one of the deleted ids. */
  lemma AddThenDelete(col: Column<seq<Comment>>, eventId: string, userId: UserId, message: string,
                      replyTo: string, freshId: string, now: string)
    requires AddComment(col, eventId, userId, message, replyTo, freshId, now).outcome == Ok
    requires forall c :: c in col.OrElse([]) ==> c.uuid != freshId
    ensures var added := AddComment(col, eventId, userId, message, replyTo, freshId, now).next;
            DeleteComments(added, {freshId}) == Step(Ok, Value(col.OrElse([])))
  {
    var existing := col.OrElse([]);
    var c := NewComment(userId, message, replyTo, freshId, now);
    assert AddComment(col, eventId, userId, message, replyTo, freshId, now).next == Value(existing + [c]);
    assert WithoutIds(existing + [c], {freshId}) == existing by {
      WithoutIdsAppend(existing, [c], {freshId});
      assert [c][1..] == [];
      assert existing + [] == existing;
    }
    assert DeleteComments(Value(existing + [c]), {freshId}).next == Value(existing);
  }
}
