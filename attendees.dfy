/** The attendee list and the join-request list of an event: the id set
    and organiser split behind `fetch-attendees`, `request-access`,
    `reject-request`, the membership checks of `promote-user` and
    `demote-user`, and `kick-user`. */
module Attendees {
  import opened Common

  // ---------------------------------------------------------------------
  // fetch-attendees

  /** `set.add(x)` on a `Set` viewed in insertion order. */
  function AddUnique(acc: seq<UserId>, x: UserId): (r: seq<UserId>)
    ensures x in r && forall u :: u in r <==> u in acc || u == x
    ensures NoDuplicates(acc) ==> NoDuplicates(r)
  {
    if x in acc then acc else acc + [x]
  }

  /** The insertion-ordered contents of a `Set` after adding every truthy
      id of `ids` to `acc`. */
  function AddAllTruthy(acc: seq<UserId>, ids: seq<UserId>): (r: seq<UserId>)
  {
    if ids == [] then acc
    else
      var front := AddAllTruthy(acc, ids[..|ids| - 1]);
      var x := ids[|ids| - 1];
      if Truthy(x) then AddUnique(front, x) else front
  }

  lemma {:induction false} AddAllTruthyProperties(acc: seq<UserId>, ids: seq<UserId>)
    requires NoDuplicates(acc)
    ensures var r := AddAllTruthy(acc, ids);
            NoDuplicates(r)
            && |acc| <= |r| && r[..|acc|] == acc
            && forall u :: u in r <==> u in acc || (u in ids && Truthy(u))
  {
    if ids != [] {
      var front := ids[..|ids| - 1];
      AddAllTruthyProperties(acc, front);
      assert forall u :: u in ids <==> u in front || u == ids[|ids| - 1];
    }
  }

  /** `Array.from(userIdsSet)`: the organiser (when truthy), then the
      truthy attendees, each id once, in first-insertion order. */
  function CombinedIds(organiser: UserId, attendees: seq<UserId>): (ids: seq<UserId>)
    ensures NoDuplicates(ids)
    ensures forall u :: u in ids <==> (u == organiser && Truthy(u)) || (u in attendees && Truthy(u))
    ensures Truthy(organiser) ==> |ids| > 0 && ids[0] == organiser
    ensures ids == [] <==> !Truthy(organiser) && forall u :: u in attendees ==> !Truthy(u)
  {
    var start := if Truthy(organiser) then [organiser] else [];
    AddAllTruthyProperties(start, attendees);
    var ids := AddAllTruthy(start, attendees);
    assert ids != [] ==> ids[0] in ids;
    ids
  }

  /** The source's `Set` build: an `add` for the organiser, then a
      `forEach` over the attendee list. */
  method BuildCombinedIds(organiser: UserId, attendees: seq<UserId>) returns (ids: seq<UserId>)
    ensures ids == CombinedIds(organiser, attendees)
  {
    ids := [];
    if Truthy(organiser) {
      ids := [organiser];
    }
    ghost var start := ids;
    var i := 0;
    while i < |attendees|
      invariant 0 <= i <= |attendees|
      invariant ids == AddAllTruthy(start, attendees[..i])
    {
      assert attendees[..i + 1][..i] == attendees[..i];
      var u := attendees[i];
      if Truthy(u) && u !in ids {
        ids := ids + [u];
      }
      i := i + 1;
    }
    assert attendees[..i] == attendees;
  }

  /** The first user row with the given id (`rows.find(...)`). */
  function FindUser(rows: seq<User>, id: UserId): (r: Option<User>)
    ensures r.None? <==> forall u :: u in rows ==> u.userId != id
    ensures r.Some? ==> r.value in rows && r.value.userId == id
  {
    if rows == [] then None
    else if rows[0].userId == id then Some(rows[0])
    else
      var r := FindUser(rows[1..], id);
      assert forall u :: u in rows[1..] ==> u in rows;
      assert forall u :: u in rows ==> u == rows[0] || u in rows[1..];
      r
  }

  /** `find` returns the first match: the row at the first index holding
      the id. */
  lemma {:induction false} FindUserFirst(rows: seq<User>, id: UserId, i: nat)
    requires i < |rows| && rows[i].userId == id
    requires forall k :: 0 <= k < i ==> rows[k].userId != id
    ensures FindUser(rows, id) == Some(rows[i])
  {
    if i > 0 {
      FindUserFirst(rows[1..], id, i - 1);
    }
  }

  /** `find` on a list with a known first row. */
  lemma FindUserCons(x: User, rest: seq<User>, id: UserId)
    ensures FindUser([x] + rest, id) == if x.userId == id then Some(x) else FindUser(rest, id)
  {
    assert ([x] + rest)[0] == x && ([x] + rest)[1..] == rest;
  }

  /** `FindUser` over a filtered table that keeps every row with the id
      finds what it finds over the whole table. */
  lemma {:induction false} FindUserFiltered(rows: seq<User>, keep: User -> bool, id: UserId)
    requires forall u: User :: u.userId == id ==> keep(u)
    ensures FindUser(Filter(rows, keep), id) == FindUser(rows, id)
  {
    if rows != [] {
      var tail := Filter(rows[1..], keep);
      FindUserFiltered(rows[1..], keep, id);
      FindUserCons(rows[0], rows[1..], id);
      assert [rows[0]] + rows[1..] == rows;
      if keep(rows[0]) {
        assert Filter(rows, keep) == [rows[0]] + tail;
        FindUserCons(rows[0], tail, id);
      } else {
        assert Filter(rows, keep) == tail;
      }
    }
  }

  /** The `IN (...)` test of the user query. */
  function HasIdIn(ids: seq<UserId>): User -> bool {
    (u: User) => u.userId in ids
  }

  /** The attendee side of the split: `user.user_id !== organiserId`. */
  function NotOrganiser(org: UserId): User -> bool {
    (u: User) => u.userId != org
  }

  /** A fetched row that is listed as an attendee. */
  function AttendeeRow(org: UserId, ids: seq<UserId>): User -> bool {
    (u: User) => u.userId in ids && u.userId != org
  }

  datatype AttendeeListing = AttendeeListing(outcome: Outcome, organiser: Option<User>, attendees: seq<User>, requests: seq<JoinRequest>)

  /** `fetch-attendees`. `users` is the user table in the order the
      `IN (...)` query returns it. */
  function FetchAttendees(eventId: string, organiser: Column<UserId>, attendees: Option<seq<UserId>>,
                          requests: Option<seq<JoinRequest>>, users: seq<User>): (r: AttendeeListing)
    requires organiser.NoRow? ==> attendees.None? && requests.None?
    ensures !Truthy(eventId) ==> r.outcome == BadRequest
    ensures Truthy(eventId) && organiser.NoRow? ==> r.outcome == NotFound
    ensures Truthy(eventId) && !organiser.NoRow? ==> r.outcome == Ok
    ensures r.outcome == Ok ==>
              var org := organiser.OrElse("");
              && (r.organiser.Some? ==> r.organiser.value.userId == org && r.organiser.value in users)
              && (forall u :: u in r.attendees <==> u in users && u.userId != org && u.userId in CombinedIds(org, attendees.OrElse([])))
    ensures r.outcome == Ok && CombinedIds(organiser.OrElse(""), attendees.OrElse([])) == [] ==>
              r.organiser.None? && r.attendees == [] && r.requests == []
    ensures r.outcome == Ok && CombinedIds(organiser.OrElse(""), attendees.OrElse([])) != [] ==>
              r.requests == requests.OrElse([])
    ensures r.outcome == Ok ==>
              var org := organiser.OrElse("");
              && (r.organiser.None? <==> !Truthy(org) || forall u :: u in users ==> u.userId != org)
              && (Truthy(org) ==> r.organiser == FindUser(users, org))
              && r.attendees == Filter(users, AttendeeRow(org, CombinedIds(org, attendees.OrElse([]))))
  {
    if !Truthy(eventId) then AttendeeListing(BadRequest, None, [], [])
    else if organiser.NoRow? then AttendeeListing(NotFound, None, [], [])
    else
      var org := organiser.OrElse("");
      var ids := CombinedIds(org, attendees.OrElse([]));
      if ids == [] then
        assert Filter(users, AttendeeRow(org, ids)) == [];
        AttendeeListing(Ok, None, [], [])
      else
        var rows := Filter(users, HasIdIn(ids));
        FilterTwice(users, HasIdIn(ids), NotOrganiser(org), AttendeeRow(org, ids));
        assert Truthy(org) ==> FindUser(rows, org) == FindUser(users, org) by {
          if Truthy(org) {
            FindUserFiltered(users, HasIdIn(ids), org);
          }
        }
        AttendeeListing(Ok, FindUser(rows, org), Filter(rows, NotOrganiser(org)), requests.OrElse([]))
  }

  // ---------------------------------------------------------------------
  // Join requests

  datatype JoinRequest = JoinRequest(username: string, email: string, timeRequested: string, status: string)

  /** `request-access`: always appends one pending request; a NULL column
      counts as empty. */
  function RequestAccess(requests: Column<seq<JoinRequest>>, email: string, username: string, eventId: string,
                         timeRequested: string): (r: Step<Column<seq<JoinRequest>>>)
    ensures r.outcome == BadRequest <==> !Truthy(email) || !Truthy(username) || !Truthy(eventId) || !Truthy(timeRequested)
    ensures r.outcome == NotFound <==> r.outcome != BadRequest && requests.NoRow?
    ensures r.outcome in {Ok, BadRequest, NotFound}
    ensures r.outcome == Ok ==> r.next.Value? && r.next.v == requests.OrElse([]) + [JoinRequest(username, email, timeRequested, "pending")]
    ensures r.outcome != Ok ==> r.next == requests
  {
    if !Truthy(email) || !Truthy(username) || !Truthy(eventId) || !Truthy(timeRequested) then Step(BadRequest, requests)
    else if requests.NoRow? then Step(NotFound, requests)
    else Step(Ok, Value(requests.OrElse([]) + [JoinRequest(username, email, timeRequested, "pending")]))
  }

  /** Asking twice leaves two entries: there is no de-duplication by
      e-mail. */
  lemma RequestTwiceAppendsTwice(requests: seq<JoinRequest>, email: string, username: string, eventId: string, t1: string, t2: string)
    requires Truthy(email) && Truthy(username) && Truthy(eventId) && Truthy(t1) && Truthy(t2)
    ensures var once := RequestAccess(Value(requests), email, username, eventId, t1).next;
            var twice := RequestAccess(once, email, username, eventId, t2).next;
            twice.Value? && |twice.v| == |requests| + 2
            && twice.v[|requests|].email == email && twice.v[|requests| + 1].email == email
  {
  }

  /** `requests.findIndex(req => req.email === email)`. */
  function IndexOfEmail(requests: seq<JoinRequest>, email: string): (i: int)
    ensures -1 <= i < |requests|
    ensures i == -1 <==> forall k :: 0 <= k < |requests| ==> requests[k].email != email
    ensures 0 <= i ==> requests[i].email == email && forall k :: 0 <= k < i ==> requests[k].email != email
  {
    if requests == [] then -1
    else if requests[0].email == email then 0
    else
      var j := IndexOfEmail(requests[1..], email);
      if j == -1 then -1 else j + 1
  }

  /** `reject-request`: the first request with the e-mail becomes
      rejected, whatever its status was. */
  function RejectRequest(requests: Column<seq<JoinRequest>>, eventId: string, email: string): (r: Step<Column<seq<JoinRequest>>>)
    ensures r.outcome == BadRequest <==> !Truthy(eventId) || !Truthy(email)
    ensures r.outcome == NotFound <==>
              Truthy(eventId) && Truthy(email)
              && (requests.NoRow? || forall q :: q in requests.OrElse([]) ==> q.email != email)
    ensures r.outcome in {Ok, BadRequest, NotFound}
    ensures r.outcome != Ok ==> r.next == requests
    ensures r.outcome == Ok ==>
              var old_ := requests.OrElse([]);
              var i := IndexOfEmail(old_, email);
              && r.next.Value? && |r.next.v| == |old_| && 0 <= i
              && r.next.v[i] == old_[i].(status := "rejected")
              && forall k :: 0 <= k < |old_| && k != i ==> r.next.v[k] == old_[k]
  {
    if !Truthy(eventId) || !Truthy(email) then Step(BadRequest, requests)
    else if requests.NoRow? then Step(NotFound, requests)
    else
      var list := requests.OrElse([]);
      var i := IndexOfEmail(list, email);
      if i == -1 then
        assert forall q :: q in list ==> q.email != email by {
          forall q | q in list ensures q.email != email {
            var k :| 0 <= k < |list| && list[k] == q;
          }
        }
        Step(NotFound, requests)
      else Step(Ok, Value(list[i := list[i].(status := "rejected")]))
  }

  /** The handler's `findIndex` and in-place status assignment. */
  method RejectFirstMatch(requests: seq<JoinRequest>, email: string) returns (found: bool, next: seq<JoinRequest>)
    ensures found <==> IndexOfEmail(requests, email) != -1
    ensures found ==> next == requests[IndexOfEmail(requests, email) := requests[IndexOfEmail(requests, email)].(status := "rejected")]
    ensures !found ==> next == requests
  {
    var i := 0;
    while i < |requests| && requests[i].email != email
      invariant 0 <= i <= |requests|
      invariant forall k :: 0 <= k < i ==> requests[k].email != email
    {
      i := i + 1;
    }
    found := i < |requests|;
    next := requests;
    if found {
      next := requests[i := requests[i].(status := "rejected")];
    }
  }

  // ---------------------------------------------------------------------
  // Roles and removal

  /** The `includes` check shared by promote and demote, then the role
      update, which reports `NotFound` when no user row matched. */
  function SetRoleIfAttendee(attendees: Column<seq<UserId>>, roles: map<UserId, string>, eventId: string,
                             userId: UserId, role: string): (r: Step<map<UserId, string>>)
    ensures r.outcome == BadRequest <==> !Truthy(eventId) || !Truthy(userId)
    ensures r.outcome == Ok <==>
              Truthy(eventId) && Truthy(userId) && attendees.Value? && userId in attendees.v && userId in roles
    ensures r.outcome == InvalidState <==>
              Truthy(eventId) && Truthy(userId) && !attendees.NoRow? && userId !in attendees.OrElse([])
    ensures r.outcome == NotFound <==>
              Truthy(eventId) && Truthy(userId)
              && (attendees.NoRow? || (attendees.Value? && userId in attendees.v && userId !in roles))
    ensures r.outcome in {Ok, BadRequest, InvalidState, NotFound}
    ensures r.outcome == Ok ==> r.next == roles[userId := role]
    ensures r.outcome != Ok ==> r.next == roles
  {
    if !Truthy(eventId) || !Truthy(userId) then Step(BadRequest, roles)
    else if attendees.NoRow? then Step(NotFound, roles)
    else if userId !in attendees.OrElse([]) then Step(InvalidState, roles)
    else if userId !in roles then Step(NotFound, roles)
    else Step(Ok, roles[userId := role])
  }

  /** `promote-user`. */
  function Promote(attendees: Column<seq<UserId>>, roles: map<UserId, string>, eventId: string, userId: UserId): (r: Step<map<UserId, string>>)
    ensures r.outcome == Ok ==>
              r.next.Keys == roles.Keys && userId in r.next && r.next[userId] == "admin"
              && forall u :: u in roles && u != userId ==> r.next[u] == roles[u]
    ensures r.outcome == Ok <==> Truthy(eventId) && Truthy(userId) && attendees.Value? && userId in attendees.v && userId in roles
    ensures r.outcome == NotFound <==>
              Truthy(eventId) && Truthy(userId)
              && (attendees.NoRow? || (attendees.Value? && userId in attendees.v && userId !in roles))
    ensures r.outcome == BadRequest <==> !Truthy(eventId) || !Truthy(userId)
    ensures r.outcome == InvalidState <==>
              Truthy(eventId) && Truthy(userId) && !attendees.NoRow? && userId !in attendees.OrElse([])
    ensures r.outcome in {Ok, BadRequest, InvalidState, NotFound}
    ensures r.outcome != Ok ==> r.next == roles
  {
    SetRoleIfAttendee(attendees, roles, eventId, userId, "admin")
  }

  /** `demote-user`. */
  function Demote(attendees: Column<seq<UserId>>, roles: map<UserId, string>, eventId: string, userId: UserId): (r: Step<map<UserId, string>>)
    ensures r.outcome == Ok ==>
              r.next.Keys == roles.Keys && userId in r.next && r.next[userId] == "attendee"
              && forall u :: u in roles && u != userId ==> r.next[u] == roles[u]
    ensures r.outcome == Ok <==> Truthy(eventId) && Truthy(userId) && attendees.Value? && userId in attendees.v && userId in roles
    ensures r.outcome == NotFound <==>
              Truthy(eventId) && Truthy(userId)
              && (attendees.NoRow? || (attendees.Value? && userId in attendees.v && userId !in roles))
    ensures r.outcome == BadRequest <==> !Truthy(eventId) || !Truthy(userId)
    ensures r.outcome == InvalidState <==>
              Truthy(eventId) && Truthy(userId) && !attendees.NoRow? && userId !in attendees.OrElse([])
    ensures r.outcome in {Ok, BadRequest, InvalidState, NotFound}
    ensures r.outcome != Ok ==> r.next == roles
  {
    SetRoleIfAttendee(attendees, roles, eventId, userId, "attendee")
  }

  /** Demoting a promoted attendee gives the same role table as demoting
      directly: promotion leaves no other trace. */
  lemma PromoteThenDemote(attendees: Column<seq<UserId>>, roles: map<UserId, string>, eventId: string, userId: UserId)
    requires Promote(attendees, roles, eventId, userId).outcome == Ok
    ensures Demote(attendees, Promote(attendees, roles, eventId, userId).next, eventId, userId)
            == Demote(attendees, roles, eventId, userId)
  {
    assert roles[userId := "admin"][userId := "attendee"] == roles[userId := "attendee"];
  }

  /** The attendee column of the event together with the ids that have a
      user row. */
  datatype Membership = Membership(attendees: Column<seq<UserId>>, users: set<UserId>)

  /** `kick-user`: the attendee list is written back before the user row
      is deleted, so a missing user row answers `NotFound` after the list
      has already changed. */
  function Kick(m: Membership, eventId: string, userId: UserId): (r: Step<Membership>)
    ensures r.outcome == BadRequest <==> !Truthy(eventId) || !Truthy(userId)
    ensures r.outcome == InvalidState <==>
              Truthy(eventId) && Truthy(userId) && !m.attendees.NoRow? && userId !in m.attendees.OrElse([])
    ensures r.outcome == NotFound <==>
              Truthy(eventId) && Truthy(userId)
              && (m.attendees.NoRow? || (m.attendees.Value? && userId in m.attendees.v && userId !in m.users))
    ensures r.outcome in {Ok, BadRequest, InvalidState, NotFound}
    ensures r.outcome in {Ok, NotFound} && m.attendees.Value? && userId in m.attendees.v ==>
              && r.next.attendees == Value(RemoveAll(m.attendees.v, userId))
              && r.next.users == m.users - {userId}
              && (r.outcome == Ok <==> userId in m.users)
    ensures r.outcome !in {Ok, NotFound} || m.attendees.NoRow? ==> r.next == m
  {
    if !Truthy(eventId) || !Truthy(userId) then Step(BadRequest, m)
    else if m.attendees.NoRow? then Step(NotFound, m)
    else if userId !in m.attendees.OrElse([]) then Step(InvalidState, m)
    else
      var next := Membership(Value(RemoveAll(m.attendees.v, userId)), m.users - {userId});
      Step(if userId in m.users then Ok else NotFound, next)
  }
}
