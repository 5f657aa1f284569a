/** The `links` column of an event: shared URLs with who added them.
    Covers `add-link` and `delete-link`. */
module Links {
  import opened Common

  datatype Link = Link(url: string, addedBy: string, createdAt: string)

  // ---------------------------------------------------------------------
  // add-link

  /** `add-link`, with the clock as a parameter. The existing list is read
      as empty when the row is missing or the column NULL; on a missing row
      the write matches nothing and the handler still answers 200. */
  function AddLink(col: Column<seq<Link>>, url: string, addedBy: string, eventId: string, now: string): (r: Step<Column<seq<Link>>>)
    ensures r.outcome == BadRequest <==> !Truthy(url) || !Truthy(addedBy) || !Truthy(eventId)
    ensures r.outcome != BadRequest ==> r.outcome == Ok
    ensures r.outcome != Ok || col.NoRow? ==> r.next == col
    ensures r.outcome == Ok && !col.NoRow? ==>
              && r.next.Value?
              && |r.next.v| == |col.OrElse([])| + 1
              && r.next.v[..|col.OrElse([])|] == col.OrElse([])
              && r.next.v[|col.OrElse([])|] == Link(url, addedBy, now)
  {
    if !Truthy(url) || !Truthy(addedBy) || !Truthy(eventId) then Step(BadRequest, col)
    else if col.NoRow? then Step(Ok, col)
    else
      var existing := col.OrElse([]);
      assert (existing + [Link(url, addedBy, now)])[..|existing|] == existing;
      Step(Ok, Value(existing + [Link(url, addedBy, now)]))
  }

  // ---------------------------------------------------------------------
  // delete-link

  /** `links.filter(item => item.link !== url)`. */
  function WithoutUrl(s: seq<Link>, url: string): (r: seq<Link>)
    ensures |r| <= |s|
  {
    if s == [] then []
    else
      assert s == [s[0]] + s[1..];
      (if s[0].url == url then [] else [s[0]]) + WithoutUrl(s[1..], url)
  }

  /** What the filter keeps: exactly the entries for other URLs, each as
      often as before; and it shortens the list exactly when some entry
      had the URL. */
  lemma {:induction false} WithoutUrlContents(s: seq<Link>, url: string)
    ensures forall l :: l in WithoutUrl(s, url) <==> l in s && l.url != url
    ensures forall l :: multiset(WithoutUrl(s, url))[l] == if l.url == url then 0 else multiset(s)[l]
    ensures |WithoutUrl(s, url)| == |s| <==> forall l :: l in s ==> l.url != url
    ensures (forall l :: l in s ==> l.url != url) ==> WithoutUrl(s, url) == s
  {
    WithoutUrlMembers(s, url);
    WithoutUrlUnchanged(s, url);
  }

  lemma {:induction false} WithoutUrlMembers(s: seq<Link>, url: string)
    ensures forall l :: l in WithoutUrl(s, url) <==> l in s && l.url != url
    ensures forall l :: multiset(WithoutUrl(s, url))[l] == if l.url == url then 0 else multiset(s)[l]
  {
    if s != [] {
      assert s == [s[0]] + s[1..];
      WithoutUrlMembers(s[1..], url);
    }
  }

  lemma {:induction false} WithoutUrlUnchanged(s: seq<Link>, url: string)
    ensures |WithoutUrl(s, url)| == |s| <==> forall l :: l in s ==> l.url != url
    ensures (forall l :: l in s ==> l.url != url) ==> WithoutUrl(s, url) == s
  {
    if s != [] {
      assert s == [s[0]] + s[1..];
      WithoutUrlUnchanged(s[1..], url);
      assert forall l :: l in s[1..] ==> l in s;
    }
  }

  /** The filter keeps the survivors' relative order. */
  lemma {:induction false} WithoutUrlAppend(a: seq<Link>, b: seq<Link>, url: string)
    ensures WithoutUrl(a + b, url) == WithoutUrl(a, url) + WithoutUrl(b, url)
  {
    if a == [] {
      assert a + b == b;
    } else {
      ConsConcat(a, b);
      WithoutUrlAppend(a[1..], b, url);
      ConcatAssoc(if a[0].url == url then [] else [a[0]], WithoutUrl(a[1..], url), WithoutUrl(b, url));
    }
  }

  /** `delete-link`: every entry for the URL goes; when none matched the
      list is left as it was and the handler answers 404. */
  function DeleteLink(col: Column<seq<Link>>, url: string, eventId: string): (r: Step<Column<seq<Link>>>)
    ensures r.outcome == BadRequest <==> !Truthy(url) || !Truthy(eventId)
    ensures r.outcome == NotFound <==>
              Truthy(url) && Truthy(eventId)
              && (col.NoRow? || forall l :: l in col.OrElse([]) ==> l.url != url)
    ensures r.outcome in {Ok, BadRequest, NotFound}
    ensures r.outcome != Ok ==> r.next == col
    ensures r.outcome == Ok ==>
              && col.Value? && r.next.Value?
              && |r.next.v| < |col.v|
              && (forall l :: l in r.next.v <==> l in col.v && l.url != url)
              && (forall l :: multiset(r.next.v)[l] == if l.url == url then 0 else multiset(col.v)[l])
              && r.next == Value(WithoutUrl(col.v, url))
  {
    if !Truthy(url) || !Truthy(eventId) then Step(BadRequest, col)
    else if col.NoRow? then Step(NotFound, col)
    else
      var links := col.OrElse([]);
      var updated := WithoutUrl(links, url);
      WithoutUrlContents(links, url);
      if |links| == |updated| then Step(NotFound, col)
      else Step(Ok, Value(updated))
  }

  /** Adding a link and deleting it again restores the list, when no entry
      for that URL was there before. */
  lemma AddThenDelete(s: seq<Link>, url: string, addedBy: string, eventId: string, now: string)
    requires Truthy(url) && Truthy(addedBy) && Truthy(eventId)
    requires forall l :: l in s ==> l.url != url
    ensures DeleteLink(AddLink(Value(s), url, addedBy, eventId, now).next, url, eventId) == Step(Ok, Value(s))
  {
    var l := Link(url, addedBy, now);
    assert AddLink(Value(s), url, addedBy, eventId, now).next == Value(s + [l]);
    assert WithoutUrl(s + [l], url) == s by {
      WithoutUrlAppend(s, [l], url);
      assert [l][1..] == [];
      WithoutUrlContents(s, url);
      assert s + [] == s;
    }
    assert DeleteLink(Value(s + [l]), url, eventId) == Step(Ok, Value(s));
  }

  /** A second delete of the same URL finds nothing. */
  lemma DeleteTwice(col: Column<seq<Link>>, url: string, eventId: string)
    requires DeleteLink(col, url, eventId).outcome == Ok
    ensures DeleteLink(DeleteLink(col, url, eventId).next, url, eventId).outcome == NotFound
  {
  }
}
