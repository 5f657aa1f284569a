/** The user routes: the retention reset every mutating handler calls,
    account creation with the attendee join, the two sign-in decisions,
    the per-path last-opened upsert, the e-mail uniqueness check of
    `update-user`, and leaving an event. */
module Users {
  import opened Common
  import opened Events
  import Markers
  import Reaper
  import opened Attendees

  // ---------------------------------------------------------------------
  // Retention reset

  datatype Touched = Touched(next: Option<EventRecord>, rescue: Option<Delivery>)

  /** `updateEventLastUpdated`: a missing row is left alone; otherwise
      `updated_at` becomes now and `deleted_warning_sent` 0, and when the
      flag was exactly 1 and the organiser has a row, the rescue notice is
      sent. The send does not hold up or undo the reset. */
  function UpdateEventLastUpdated(row: Option<EventRecord>, nowMs: int, known: set<UserId>): (r: Touched)
    ensures row.None? ==> r == Touched(None, None)
    ensures row.Some? ==> r.next.Some? && r.next.value.deletedWarningSent == 0 && r.next.value.updatedAt == nowMs
    ensures row.Some? ==> SameOutsideRetention(row.value, r.next.value)
    ensures r.rescue.Some? <==> row.Some? && row.value.deletedWarningSent == 1 && row.value.organiser in known
    ensures r.rescue.Some? ==> r.rescue.value == Delivery(RescueNotice, row.value.eventId, row.value.organiser)
  {
    match row
    case None => Touched(None, None)
    case Some(e) =>
      var rescue := if e.deletedWarningSent == 1 && e.organiser in known
                    then Some(Delivery(RescueNotice, e.eventId, e.organiser)) else None;
      Touched(Some(e.(updatedAt := nowMs, deletedWarningSent := 0)), rescue)
  }

  /** Equal in every field except the two retention fields. */
  predicate SameOutsideRetention(a: EventRecord, b: EventRecord) {
    a.(updatedAt := 0, deletedWarningSent := 0) == b.(updatedAt := 0, deletedWarningSent := 0)
  }

  /** A touched event is safe from the reaper: a pass within three months
      of the reset leaves it alone, and no pass deletes it before a new
      warning has been recorded. */
  lemma TouchedEventSurvives(e: EventRecord, touchMs: int, laterMs: int, known: set<UserId>)
    requires touchMs <= laterMs
    ensures var t := UpdateEventLastUpdated(Some(e), touchMs, known).next.value;
            && Reaper.Decide(laterMs - t.updatedAt, t.deletedWarningSent) != Reaper.Delete
            && (laterMs - touchMs <= Reaper.WarnAfterMs ==> Reaper.Decide(laterMs - t.updatedAt, t.deletedWarningSent) == Reaper.Keep)
  {
  }

  /** Touching twice is touching once at the later time, except that the
      second touch never sends a rescue notice. */
  lemma TouchTwice(e: EventRecord, t1: int, t2: int, known: set<UserId>)
    ensures var once := UpdateEventLastUpdated(Some(e), t1, known);
            var twice := UpdateEventLastUpdated(once.next, t2, known);
            twice.next == UpdateEventLastUpdated(Some(e), t2, known).next && twice.rescue.None?
  {
  }

  // ---------------------------------------------------------------------
  // create-user

  datatype NewUser = NewUser(email: string, name: string, fingerprint: string, role: string, eventId: string,
                             profileNum: Option<int>)

  /** The `missingFields` accumulator, in the order the checks run. */
  function MissingFields(req: NewUser): (missing: seq<string>)
    ensures |missing| <= 4
    ensures "email" in missing <==> !Truthy(req.email)
    ensures "name" in missing <==> !Truthy(req.name)
    ensures "fingerprint" in missing <==> !Truthy(req.fingerprint)
    ensures "profileNum" in missing <==> req.profileNum.None?
    ensures forall f :: f in missing ==> f in ["email", "name", "fingerprint", "profileNum"]
    ensures req.profileNum == Some(0) ==> "profileNum" !in missing
  {
    var e := if !Truthy(req.email) then ["email"] else [];
    var n := if !Truthy(req.name) then ["name"] else [];
    var f := if !Truthy(req.fingerprint) then ["fingerprint"] else [];
    var p := if req.profileNum.None? then ["profileNum"] else [];
    assert forall x :: x in e + n + f + p <==> x in e || x in n || x in f || x in p;
    e + n + f + p
  }

  /** No field is reported twice. */
  lemma MissingFieldsDistinct(req: NewUser)
    ensures NoDuplicates(MissingFields(req))
  {
    var e := if !Truthy(req.email) then ["email"] else [];
    var n := if !Truthy(req.name) then ["name"] else [];
    var f := if !Truthy(req.fingerprint) then ["fingerprint"] else [];
    var p := if req.profileNum.None? then ["profileNum"] else [];
    NoDuplicatesAppend(e, n);
    NoDuplicatesAppend(e + n, f);
    NoDuplicatesAppend(e + n + f, p);
  }

  const ValidRoles: seq<string> := ["organiser", "admin", "attendee"]

  /** `validRoles.includes(role) ? role : "attendee"`. */
  function RoleOrAttendee(role: string): (r: string)
    ensures r in ValidRoles
    ensures role in ValidRoles ==> r == role
    ensures role !in ValidRoles ==> r == "attendee"
  {
    if role in ValidRoles then role else "attendee"
  }

  /** The attendee push of the join: the new id is appended unless it is
      already listed. */
  function JoinAttendees(attendees: seq<UserId>, id: UserId): (r: seq<UserId>)
    ensures id in r
    ensures forall u :: u in r <==> u in attendees || u == id
    ensures id in attendees ==> r == attendees
    ensures id !in attendees ==> r == attendees + [id]
    ensures NoDuplicates(attendees) ==> NoDuplicates(r)
  {
    if id in attendees then attendees else attendees + [id]
  }

  datatype UserCreated = UserCreated(
    outcome: Outcome,
    inserted: Option<User>,             // the row written to user_details
    attendees: Option<seq<UserId>>,     // the attendee list written back, if any
    joinNotice: bool,                   // the "Event Joined" e-mail was sent
    touched: Touched)                   // the retention reset of the joined event

  /** `create-user` with the fresh id, the clock and the event row as
      parameters. The event row is looked up after the user row is
      inserted, so an unknown event answers `NotFound` with the user
      already created. A join writes the attendee list back and then
      resets the event's retention fields. */
  function CreateUser(req: NewUser, freshId: UserId, event: Option<EventRecord>, nowMs: int, known: set<UserId>)
    : (r: UserCreated)
    ensures r.outcome == BadRequest <==> MissingFields(req) != []
    ensures r.outcome == BadRequest ==> r.inserted.None? && r.attendees.None? && !r.joinNotice
    ensures r.outcome != BadRequest ==>
              && r.inserted == Some(User(freshId, req.email, req.name, req.fingerprint, RoleOrAttendee(req.role), req.profileNum.value))
              && (r.outcome == NotFound <==> Truthy(req.eventId) && event.None?)
              && (r.outcome == Ok <==> !Truthy(req.eventId) || event.Some?)
    ensures r.attendees.Some? <==> r.outcome == Ok && Truthy(req.eventId)
    ensures r.attendees.Some? ==> r.attendees.value == JoinAttendees(event.value.attendees.OrElse([]), freshId)
    ensures r.joinNotice <==>
              r.outcome != BadRequest && req.role == "attendee" && Truthy(req.eventId) && event.Some?
    ensures r.attendees.None? ==> r.touched == Touched(None, None)
    ensures r.attendees.Some? ==>
              && r.touched == UpdateEventLastUpdated(Some(event.value.(attendees := r.attendees)), nowMs, known)
              && r.touched.next.Some? && r.touched.next.value.attendees == r.attendees
              && r.touched.next.value.updatedAt == nowMs && r.touched.next.value.deletedWarningSent == 0
  {
    if MissingFields(req) != [] then UserCreated(BadRequest, None, None, false, Touched(None, None))
    else
      var user := User(freshId, req.email, req.name, req.fingerprint, RoleOrAttendee(req.role), req.profileNum.value);
      var notice := req.role == "attendee" && Truthy(req.eventId) && event.Some?;
      if !Truthy(req.eventId) then UserCreated(Ok, Some(user), None, notice, Touched(None, None))
      else if event.None? then UserCreated(NotFound, Some(user), None, notice, Touched(None, None))
      else
        var joined := JoinAttendees(event.value.attendees.OrElse([]), freshId);
        var written := event.value.(attendees := Some(joined));
        UserCreated(Ok, Some(user), Some(joined), notice, UpdateEventLastUpdated(Some(written), nowMs, known))
  }

  // ---------------------------------------------------------------------
  // login

  datatype LoginDecision =
    | LoginMissingFields
    | LoginNoEvent
    | LoginPending(request: JoinRequest)
    | AsOrganiser(user: User)
    | AsAttendee(user: User)
    | NotAuthorized

  /** `requests.find(request => request.email === email)`. */
  function FindRequest(requests: seq<JoinRequest>, email: string): (r: Option<JoinRequest>)
    ensures r.None? <==> forall q :: q in requests ==> q.email != email
    ensures r.Some? ==> r.value in requests && r.value.email == email
  {
    if requests == [] then None
    else if requests[0].email == email then Some(requests[0])
    else
      assert forall q :: q in requests ==> q == requests[0] || q in requests[1..];
      FindRequest(requests[1..], email)
  }

  /** The `for (const user of userRows)` loop: per row, the organiser test
      before the attendee test; the first row passing either decides. */
  function FirstAuthorized(rows: seq<User>, organiser: UserId, attendees: seq<UserId>): (d: LoginDecision)
    ensures d.AsOrganiser? || d.AsAttendee? || d == NotAuthorized
    ensures d.AsOrganiser? ==> d.user in rows && d.user.userId == organiser
    ensures d.AsAttendee? ==> d.user in rows && d.user.userId in attendees && d.user.userId != organiser
    ensures d == NotAuthorized <==> forall u :: u in rows ==> u.userId != organiser && u.userId !in attendees
  {
    if rows == [] then NotAuthorized
    else if rows[0].userId == organiser then AsOrganiser(rows[0])
    else if rows[0].userId in attendees then AsAttendee(rows[0])
    else
      assert forall u :: u in rows ==> u == rows[0] || u in rows[1..];
      FirstAuthorized(rows[1..], organiser, attendees)
  }

  /** A row that either branch of the loop accepts. */
  predicate Authorized(u: User, organiser: UserId, attendees: seq<UserId>) {
    u.userId == organiser || u.userId in attendees
  }

  /** The loop's decision comes from the first accepted row: that row,
      as organiser when its id is the organiser's and as attendee
      otherwise. */
  lemma {:induction false} FirstAuthorizedIsFirst(rows: seq<User>, organiser: UserId, attendees: seq<UserId>, i: nat)
    requires i < |rows| && Authorized(rows[i], organiser, attendees)
    requires forall j :: 0 <= j < i ==> !Authorized(rows[j], organiser, attendees)
    ensures FirstAuthorized(rows, organiser, attendees)
              == if rows[i].userId == organiser then AsOrganiser(rows[i]) else AsAttendee(rows[i])
  {
    if i > 0 {
      assert !Authorized(rows[0], organiser, attendees);
      assert forall j :: 0 <= j < i - 1 ==> rows[1..][j] == rows[j + 1];
      FirstAuthorizedIsFirst(rows[1..], organiser, attendees, i - 1);
    }
  }

  /** The loop itself, leaving at the first authorised row. */
  method ScanUserRows(rows: seq<User>, organiser: UserId, attendees: seq<UserId>) returns (d: LoginDecision)
    ensures d == FirstAuthorized(rows, organiser, attendees)
  {
    var i := 0;
    while i < |rows|
      invariant 0 <= i <= |rows|
      invariant FirstAuthorized(rows[i..], organiser, attendees) == FirstAuthorized(rows, organiser, attendees)
    {
      assert rows[i..][1..] == rows[i + 1..];
      var user := rows[i];
      if user.userId == organiser {
        return AsOrganiser(user);
      }
      if user.userId in attendees {
        return AsAttendee(user);
      }
      i := i + 1;
    }
    return NotAuthorized;
  }

  /** The event columns `login` and `auto-sign-in` read. */
  datatype EventAccess = EventAccess(organiser: UserId, attendees: Option<seq<UserId>>, requests: Option<seq<JoinRequest>>)

  /** `login`: a request with the e-mail, in any status, answers
      "pending" before any user row is looked at; then the user rows with
      that e-mail are scanned in table order. */
  function Login(email: string, fingerprint: string, eventId: string, event: Option<EventAccess>, users: seq<User>): (d: LoginDecision)
    ensures d == LoginMissingFields <==> !Truthy(email) || !Truthy(fingerprint) || !Truthy(eventId)
    ensures d == LoginNoEvent <==> Truthy(email) && Truthy(fingerprint) && Truthy(eventId) && event.None?
    ensures d.LoginPending? <==>
              Truthy(email) && Truthy(fingerprint) && Truthy(eventId) && event.Some?
              && exists q :: q in event.value.requests.OrElse([]) && q.email == email
    ensures d.LoginPending? ==> d.request.email == email && d.request in event.value.requests.OrElse([])
    ensures d.AsOrganiser? ==> d.user in users && d.user.email == email && d.user.userId == event.value.organiser
    ensures d.AsAttendee? ==>
              d.user in users && d.user.email == email && d.user.userId in event.value.attendees.OrElse([])
              && d.user.userId != event.value.organiser
    ensures Truthy(email) && Truthy(fingerprint) && Truthy(eventId) && event.Some?
            && (forall q :: q in event.value.requests.OrElse([]) ==> q.email != email) ==>
              d == FirstAuthorized(WithEmail(users, email), event.value.organiser, event.value.attendees.OrElse([]))
    ensures d == NotAuthorized <==>
              && Truthy(email) && Truthy(fingerprint) && Truthy(eventId) && event.Some?
              && (forall q :: q in event.value.requests.OrElse([]) ==> q.email != email)
              && forall u :: u in users && u.email == email ==>
                   !Authorized(u, event.value.organiser, event.value.attendees.OrElse([]))
  {
    if !Truthy(email) || !Truthy(fingerprint) || !Truthy(eventId) then LoginMissingFields
    else if event.None? then LoginNoEvent
    else
      var ev := event.value;
      match FindRequest(ev.requests.OrElse([]), email)
      case Some(q) => LoginPending(q)
      case None =>
        FirstAuthorized(WithEmail(users, email), ev.organiser, ev.attendees.OrElse([]))
  }

  /** The test of the `SELECT ... WHERE email = ?`. */
  function HasEmail(email: string): User -> bool {
    (u: User) => u.email == email
  }

  /** The user rows the login query returns, in table order. */
  function WithEmail(users: seq<User>, email: string): (rows: seq<User>)
    ensures forall u :: u in rows <==> u in users && u.email == email
  {
    Filter(users, HasEmail(email))
  }

  /** With no request under the e-mail, login decides by the first user
      row with that e-mail that is the organiser or an attendee. */
  lemma LoginPicksFirstMatchingRow(email: string, fingerprint: string, eventId: string, ev: EventAccess,
                                   users: seq<User>, i: nat)
    requires Truthy(email) && Truthy(fingerprint) && Truthy(eventId)
    requires forall q :: q in ev.requests.OrElse([]) ==> q.email != email
    requires i < |users| && users[i].email == email && Authorized(users[i], ev.organiser, ev.attendees.OrElse([]))
    requires forall j :: 0 <= j < i && users[j].email == email ==> !Authorized(users[j], ev.organiser, ev.attendees.OrElse([]))
    ensures Login(email, fingerprint, eventId, Some(ev), users)
              == if users[i].userId == ev.organiser then AsOrganiser(users[i]) else AsAttendee(users[i])
  {
    var front := WithEmail(users[..i], email);
    var rows := WithEmail(users, email);
    WithEmailAround(users, email, i);
    forall j | 0 <= j < |front|
      ensures !Authorized(rows[j], ev.organiser, ev.attendees.OrElse([]))
    {
      assert rows[j] == front[j] && front[j] in users[..i];
    }
    FirstAuthorizedIsFirst(rows, ev.organiser, ev.attendees.OrElse([]), |front|);
  }

  /** A row with the e-mail sits in the query's result right after the
      matching rows before it. */
  lemma WithEmailAround(users: seq<User>, email: string, i: nat)
    requires i < |users| && users[i].email == email
    ensures var front := WithEmail(users[..i], email);
            |front| < |WithEmail(users, email)| && WithEmail(users, email)[|front|] == users[i]
            && WithEmail(users, email)[..|front|] == front
  {
    var pre, post := users[..i], users[i + 1..];
    assert users == pre + ([users[i]] + post);
    FilterAppend(pre, [users[i]] + post, HasEmail(email));
    FilterAppend([users[i]], post, HasEmail(email));
    assert [users[i]][1..] == [];
    assert Filter([users[i]], HasEmail(email)) == [users[i]];
  }

  /** A rejected request still answers "pending": the lookup ignores the
      request's status. */
  lemma RejectedRequestStillPending(email: string, fingerprint: string, eventId: string, ev: EventAccess, users: seq<User>)
    requires Truthy(email) && Truthy(fingerprint) && Truthy(eventId)
    requires ev.requests.Some? && |ev.requests.value| > 0 && ev.requests.value[0].email == email
    ensures var rejected := ev.(requests := Some(ev.requests.value[0 := ev.requests.value[0].(status := "rejected")]));
            Login(email, fingerprint, eventId, Some(rejected), users).LoginPending?
  {
    var list := ev.requests.value[0 := ev.requests.value[0].(status := "rejected")];
    assert list[0] in list;
  }

  // ---------------------------------------------------------------------
  // auto-sign-in

  datatype SignIn =
    | SignInMissingFields
    | SignInNoEvent
    | SignInNoOrganiser
    | SignedIn(email: string)
    | SignInDuplicate
    | SignInFailed

  /** The rows of `SELECT ... WHERE user_id IN (attendees)` whose
      fingerprint matches. */
  function AttendeeMatches(users: seq<User>, attendees: seq<UserId>, fingerprint: string): (m: seq<User>)
    ensures forall u :: u in m <==> u in users && u.userId in attendees && u.fingerprint == fingerprint
  {
    Filter(Filter(users, (u: User) => u.userId in attendees), (u: User) => u.fingerprint == fingerprint)
  }

  /** `auto-sign-in`: the organiser's fingerprint wins; otherwise exactly
      one matching attendee row signs in, and two or more are refused as
      duplicates. */
  function AutoSignIn(eventId: string, fingerprint: string, event: Option<EventAccess>, users: seq<User>): (r: SignIn)
    ensures r == SignInMissingFields <==> !Truthy(eventId) || !Truthy(fingerprint)
    ensures r == SignInNoEvent <==> Truthy(eventId) && Truthy(fingerprint) && event.None?
    ensures r == SignInNoOrganiser <==>
              Truthy(eventId) && Truthy(fingerprint) && event.Some? && FindUser(users, event.value.organiser).None?
    ensures r.SignedIn? ==>
              var org := FindUser(users, event.value.organiser).value;
              (org.fingerprint == fingerprint && r.email == org.email)
              || (org.fingerprint != fingerprint
                  && |AttendeeMatches(users, event.value.attendees.OrElse([]), fingerprint)| == 1
                  && r.email == AttendeeMatches(users, event.value.attendees.OrElse([]), fingerprint)[0].email)
    ensures r == SignInDuplicate ==>
              FindUser(users, event.value.organiser).value.fingerprint != fingerprint
              && |AttendeeMatches(users, event.value.attendees.OrElse([]), fingerprint)| > 1
    ensures r == SignInFailed ==>
              FindUser(users, event.value.organiser).value.fingerprint != fingerprint
              && (event.value.attendees.OrElse([]) == []
                  || AttendeeMatches(users, event.value.attendees.OrElse([]), fingerprint) == [])
  {
    if !Truthy(eventId) || !Truthy(fingerprint) then SignInMissingFields
    else if event.None? then SignInNoEvent
    else
      var ev := event.value;
      match FindUser(users, ev.organiser)
      case None => SignInNoOrganiser
      case Some(org) =>
        if org.fingerprint == fingerprint then SignedIn(org.email)
        else
          var attendees := ev.attendees.OrElse([]);
          if attendees == [] then SignInFailed
          else
            var matches := AttendeeMatches(users, attendees, fingerprint);
            if |matches| > 1 then SignInDuplicate
            else if |matches| == 1 then SignedIn(matches[0].email)
            else SignInFailed
  }

  /** The organiser test comes first: an organiser whose fingerprint
      matches signs in even when attendee rows share that fingerprint. */
  lemma OrganiserFingerprintWins(eventId: string, fingerprint: string, ev: EventAccess, users: seq<User>, org: User)
    requires Truthy(eventId) && Truthy(fingerprint)
    requires FindUser(users, ev.organiser) == Some(org) && org.fingerprint == fingerprint
    ensures AutoSignIn(eventId, fingerprint, Some(ev), users) == SignedIn(org.email)
  {
  }

  // ---------------------------------------------------------------------
  // update-last-opened

  /** `update-last-opened`: the per-path upsert on the user's
      `last_opened` list; a NULL column starts empty. The stored timestamp
      is `new Date(timestamp)` as `JSON.stringify` writes it, which
      `asDate` stands for. */
  function UpdateLastOpened(col: Column<seq<Markers.Marker>>, userId: UserId, path: string, timestamp: string,
                            asDate: string -> string)
    : (r: Step<Column<seq<Markers.Marker>>>)
    ensures r.outcome == BadRequest <==> !Truthy(userId) || !Truthy(path) || !Truthy(timestamp)
    ensures r.outcome == NotFound <==> Truthy(userId) && Truthy(path) && Truthy(timestamp) && col.NoRow?
    ensures r.outcome in {Ok, BadRequest, NotFound}
    ensures r.outcome != Ok ==> r.next == col
    ensures r.outcome == Ok ==>
              var before := col.OrElse([]);
              && r.next.Value?
              && |before| <= |r.next.v| <= |before| + 1
              && (exists k :: 0 <= k < |r.next.v| && r.next.v[k] == Markers.Marker(path, asDate(timestamp)))
              && (Markers.PathsUnique(before) ==> Markers.PathsUnique(r.next.v))
              && r.next == Value(Markers.Upsert(before, path, asDate(timestamp)))
  {
    if !Truthy(userId) || !Truthy(path) || !Truthy(timestamp) then Step(BadRequest, col)
    else if col.NoRow? then Step(NotFound, col)
    else
      var before := col.OrElse([]);
      var stamp := asDate(timestamp);
      var after := Markers.Upsert(before, path, stamp);
      ghost var i := Markers.IndexOfPath(before, path);
      assert i == -1 ==> after[|before|] == Markers.Marker(path, stamp);
      Step(Ok, Value(after))
  }

  // ---------------------------------------------------------------------
  // update-user

  datatype UserEdit = UserEdit(userId: UserId, name: string, email: string, eventId: string, profilePic: Option<int>)

  /** Another account of the event already uses the e-mail: the
      organiser's row (unless it is the user's own), or any attendee row
      other than the user's own. */
  predicate EmailTaken(users: seq<User>, ev: EventAccess, userId: UserId, email: string) {
    (ev.organiser != userId && FindUser(users, ev.organiser).Some? && FindUser(users, ev.organiser).value.email == email)
    || exists u :: u in users && u.userId in ev.attendees.OrElse([]) && u.userId != userId && u.email == email
  }

  /** `update-user`: validation, the user and event lookups, the two
      conflict checks, then the row update. */
  function UpdateUser(req: UserEdit, users: seq<User>, event: Option<EventAccess>): (r: Step<Option<User>>)
    ensures r.outcome == BadRequest <==>
              !Truthy(req.userId) || !Truthy(req.name) || !Truthy(req.email) || !Truthy(req.eventId) || req.profilePic.None?
    ensures r.outcome == NotFound <==>
              r.outcome != BadRequest && (FindUser(users, req.userId).None? || event.None?)
    ensures r.outcome == Conflict <==>
              r.outcome != BadRequest && r.outcome != NotFound && EmailTaken(users, event.value, req.userId, req.email)
    ensures r.outcome in {Ok, BadRequest, NotFound, Conflict}
    ensures r.outcome == Ok <==> r.next.Some?
    ensures r.outcome == Ok ==>
              var old_ := FindUser(users, req.userId).value;
              r.next.value == old_.(username := req.name, email := req.email, profilePic := req.profilePic.value)
  {
    if !Truthy(req.userId) || !Truthy(req.name) || !Truthy(req.email) || !Truthy(req.eventId) || req.profilePic.None? then
      Step(BadRequest, None)
    else if FindUser(users, req.userId).None? || event.None? then Step(NotFound, None)
    else
      var ev := event.value;
      var orgRow := FindUser(users, ev.organiser);
      if ev.organiser != req.userId && orgRow.Some? && orgRow.value.email == req.email then Step(Conflict, None)
      else
        var others := RemoveAll(ev.attendees.OrElse([]), req.userId);
        var rows := Filter(users, (u: User) => u.userId in others);
        if others != [] && FindEmail(rows, req.email).Some? then Step(Conflict, None)
        else
          assert others == [] ==> forall u :: u in users && u.userId in ev.attendees.OrElse([]) ==> u.userId == req.userId;
          var old_ := FindUser(users, req.userId).value;
          Step(Ok, Some(old_.(username := req.name, email := req.email, profilePic := req.profilePic.value)))
  }

  /** `rows.find(att => att.email === email)`. */
  function FindEmail(rows: seq<User>, email: string): (r: Option<User>)
    ensures r.None? <==> forall u :: u in rows ==> u.email != email
    ensures r.Some? ==> r.value in rows && r.value.email == email
  {
    if rows == [] then None
    else if rows[0].email == email then Some(rows[0])
    else
      assert forall u :: u in rows ==> u == rows[0] || u in rows[1..];
      FindEmail(rows[1..], email)
  }

  // ---------------------------------------------------------------------
  // leave-event

  /** `leave-event`: the user must be listed; every occurrence is removed
      and the user row is deleted (whether or not it existed). */
  function LeaveEvent(m: Membership, userId: UserId, eventId: string): (r: Step<Membership>)
    ensures r.outcome == BadRequest <==> !Truthy(userId) || !Truthy(eventId)
    ensures r.outcome == NotFound <==> Truthy(userId) && Truthy(eventId) && m.attendees.NoRow?
    ensures r.outcome == InvalidState <==>
              Truthy(userId) && Truthy(eventId) && !m.attendees.NoRow? && userId !in m.attendees.OrElse([])
    ensures r.outcome in {Ok, BadRequest, NotFound, InvalidState}
    ensures r.outcome != Ok ==> r.next == m
    ensures r.outcome == Ok ==>
              && m.attendees.Value? && userId in m.attendees.v
              && r.next.attendees == Value(RemoveAll(m.attendees.v, userId))
              && r.next.users == m.users - {userId}
  {
    if !Truthy(userId) || !Truthy(eventId) then Step(BadRequest, m)
    else if m.attendees.NoRow? then Step(NotFound, m)
    else if userId !in m.attendees.OrElse([]) then Step(InvalidState, m)
    else Step(Ok, Membership(Value(RemoveAll(m.attendees.v, userId)), m.users - {userId}))
  }

  /** Joining and then leaving restores the attendee list of a user who
      was not listed before. */
  lemma {:induction false} JoinThenLeave(attendees: seq<UserId>, id: UserId)
    requires id !in attendees
    ensures RemoveAll(JoinAttendees(attendees, id), id) == attendees
  {
    RemoveAllAppend(attendees, [id], id);
    assert RemoveAll([id], id) == [];
  }
}
