/** Scheduling: each user's availability map, the event's chosen dates and
    the availability overview of an event's members. Covers
    `set-availability`, `update-chosen-date` and `fetch-availability`. */
module Calendar {
  import opened Common

  // ---------------------------------------------------------------------
  // set-availability

  /** A user's `availability` column: a date mapped to a status. */
  type Availability = map<string, string>

  /** The statuses a date may be set to. */
  const ValidStatuses: set<string> := {"available", "not available", "tentative"}

  /** One entry of the `updates` array: `None` is a `null` status; an
      absent status is a string outside `ValidStatuses`. */
  datatype Update = Update(date: string, status: Option<string>)

  /** The body of the `forEach`: a null status deletes the date, a valid one
      sets it and anything else is skipped. */
  function ApplyUpdate(m: Availability, u: Update): (r: Availability)
    ensures u.status.None? ==> r == m - {u.date}
    ensures u.status.Some? && u.status.value in ValidStatuses ==> r == m[u.date := u.status.value]
    ensures u.status.Some? && u.status.value !in ValidStatuses ==> r == m
  {
    match u.status
    case None => m - {u.date}
    case Some(s) => if s in ValidStatuses then m[u.date := s] else m
  }

  /** The availability after applying `updates` in order. */
  function ApplyAll(m: Availability, updates: seq<Update>): Availability
  {
    if updates == [] then m
    else ApplyUpdate(ApplyAll(m, updates[..|updates| - 1]), updates[|updates| - 1])
  }

  /** The `forEach` over the updates, mutating one map. */
  method ApplyUpdates(m: Availability, updates: seq<Update>) returns (r: Availability)
    ensures r == ApplyAll(m, updates)
  {
    r := m;
    var i := 0;
    while i < |updates|
      invariant 0 <= i <= |updates|
      invariant r == ApplyAll(m, updates[..i])
    {
      var u := updates[i];
      match u.status {
        case None =>
          r := r - {u.date};
        case Some(s) =>
          if s in ValidStatuses {
            r := r[u.date := s];
          }
      }
      assert updates[..i + 1][..i] == updates[..i];
      i := i + 1;
    }
    assert updates[..i] == updates;
  }

  /** Reference definition, one date at a time: the last update for `d`
      whose status is null or valid decides; without one, the prior value
      stands. `None` means the date is absent. */
  function Decided(m: Availability, updates: seq<Update>, d: string): (r: Option<string>)
    ensures r.Some? ==> r.value in ValidStatuses || (d in m && r.value == m[d])
  {
    if updates == [] then (if d in m then Some(m[d]) else None)
    else
      var u := updates[|updates| - 1];
      if u.date == d && u.status.None? then None
      else if u.date == d && u.status.value in ValidStatuses then u.status
      else Decided(m, updates[..|updates| - 1], d)
  }

  /** The fold agrees with the per-date reference definition on every
      date. */
  lemma {:induction false} ApplyAllIsDecided(m: Availability, updates: seq<Update>, d: string)
    ensures d in ApplyAll(m, updates) <==> Decided(m, updates, d).Some?
    ensures d in ApplyAll(m, updates) ==> ApplyAll(m, updates)[d] == Decided(m, updates, d).value
  {
    if updates != [] {
      ApplyAllIsDecided(m, updates[..|updates| - 1], d);
    }
  }

  /** A date no update mentions keeps its prior value, or stays absent. */
  lemma {:induction false} UnmentionedDateKept(m: Availability, updates: seq<Update>, d: string)
    requires forall k :: 0 <= k < |updates| ==> updates[k].date != d
    ensures d in ApplyAll(m, updates) <==> d in m
    ensures d in m ==> ApplyAll(m, updates)[d] == m[d]
  {
    if updates != [] {
      UnmentionedDateKept(m, updates[..|updates| - 1], d);
    }
  }

  /** A later valid or null update for a date overrides everything before
      it. */
  lemma LaterUpdateWins(m: Availability, updates: seq<Update>, d: string, s: Option<string>)
    requires s.None? || s.value in ValidStatuses
    ensures s.None? ==> d !in ApplyAll(m, updates + [Update(d, s)])
    ensures s.Some? ==> d in ApplyAll(m, updates + [Update(d, s)]) && ApplyAll(m, updates + [Update(d, s)])[d] == s.value
  {
    assert (updates + [Update(d, s)])[..|updates|] == updates;
  }

  /** Every stored status is a valid one, provided the prior map held only
      valid statuses. */
  lemma {:induction false} StatusesStayValid(m: Availability, updates: seq<Update>)
    requires forall d :: d in m ==> m[d] in ValidStatuses
    ensures forall d :: d in ApplyAll(m, updates) ==> ApplyAll(m, updates)[d] in ValidStatuses
  {
    if updates != [] {
      StatusesStayValid(m, updates[..|updates| - 1]);
    }
  }

  /** `set-availability`. `updates` is `None` when the request's field is
      not an array. A NULL or empty column starts from the empty map. */
  method SetAvailability(col: Column<Availability>, userId: UserId, updates: Option<seq<Update>>)
    returns (r: Step<Column<Availability>>)
    ensures r.outcome == BadRequest <==> !Truthy(userId) || updates.None?
    ensures r.outcome == NotFound <==> Truthy(userId) && updates.Some? && col.NoRow?
    ensures r.outcome in {Ok, BadRequest, NotFound}
    ensures r.outcome != Ok ==> r.next == col
    ensures r.outcome == Ok ==> r.next == Value(ApplyAll(col.OrElse(map[]), updates.value))
  {
    if !Truthy(userId) || updates.None? {
      return Step(BadRequest, col);
    }
    if col.NoRow? {
      return Step(NotFound, col);
    }
    var availability := ApplyUpdates(col.OrElse(map[]), updates.value);
    r := Step(Ok, Value(availability));
  }

  // ---------------------------------------------------------------------
  // update-chosen-date

  /** The `chosen_date` field of the request. */
  datatype ChosenArg = Undefined | NullDate | One(date: string) | Many(dates: seq<string>)

  /** The argument as an array of strings: `String(null)` is `"null"`. */
  function Normalise(arg: ChosenArg): (ds: seq<string>)
    requires !arg.Undefined?
    ensures arg.NullDate? ==> ds == ["null"]
    ensures arg.One? ==> ds == [arg.date]
    ensures arg.Many? ==> ds == arg.dates
  {
    match arg
    case NullDate => ["null"]
    case One(d) => [d]
    case Many(ds) => ds
  }

  /** The body of the `forEach`: a present date leaves with every
      occurrence, an absent one is appended. */
  function Toggle(cur: seq<string>, d: string): (r: seq<string>)
    ensures d in r <==> d !in cur
    ensures forall x :: x != d ==> (x in r <==> x in cur)
    ensures d in cur ==> multiset(r) == multiset(cur)[d := 0]
    ensures d !in cur ==> multiset(r) == multiset(cur) + multiset{d}
  {
    if d in cur then RemoveAll(cur, d) else cur + [d]
  }

  /** Toggling one date twice restores the chosen set; when the date
      occurred at most once, it restores every count, and when it was
      absent, the very list. */
  lemma ToggleTwice(cur: seq<string>, d: string)
    ensures forall x :: x in Toggle(Toggle(cur, d), d) <==> x in cur
    ensures multiset(cur)[d] <= 1 ==> multiset(Toggle(Toggle(cur, d), d)) == multiset(cur)
    ensures d !in cur ==> Toggle(Toggle(cur, d), d) == cur
  {
    if d in cur {
      var once := RemoveAll(cur, d);
      assert multiset(once + [d]) == multiset(cur)[d := 0] + multiset{d};
      if multiset(cur)[d] <= 1 {
        assert multiset(cur)[d] == 1;
        assert multiset(cur)[d := 0] + multiset{d} == multiset(cur);
      }
    } else {
      RemoveAllAppend(cur, [d], d);
      assert RemoveAll([d], d) == [];
      assert cur + [] == cur;
    }
  }

  /** No date occurs twice after a toggle when none did before. */
  lemma ToggleKeepsAtMostOnce(cur: seq<string>, d: string)
    requires forall x :: multiset(cur)[x] <= 1
    ensures forall x :: multiset(Toggle(cur, d))[x] <= 1
  {
  }

  /** The list after toggling `dates` in order. */
  function ToggleAll(cur: seq<string>, dates: seq<string>): seq<string>
  {
    if dates == [] then cur
    else Toggle(ToggleAll(cur, dates[..|dates| - 1]), dates[|dates| - 1])
  }

  /** A date is chosen afterwards exactly when it was toggled an odd number
      of times away from its prior state. */
  lemma {:induction false} ToggleAllParity(cur: seq<string>, dates: seq<string>, x: string)
    ensures x in ToggleAll(cur, dates) <==> (x in cur) != (multiset(dates)[x] % 2 == 1)
  {
    if dates != [] {
      var init, last := dates[..|dates| - 1], dates[|dates| - 1];
      var prev := ToggleAll(cur, init);
      ToggleAllParity(cur, init, x);
      assert multiset(dates)[x] == multiset(init)[x] + (if last == x then 1 else 0) by {
        assert dates == init + [last];
      }
      assert x in ToggleAll(cur, dates) <==> (x in prev) != (x == last) by {
        assert ToggleAll(cur, dates) == Toggle(prev, last);
      }
      ParityStep(multiset(init)[x]);
    }
  }

  /** One more occurrence flips the parity. */
  lemma ParityStep(n: nat)
    ensures (n + 1) % 2 == 1 <==> n % 2 != 1
  {
    assert n == 2 * (n / 2) + n % 2;
  }

  /** The `forEach` over the normalised dates, reassigning and pushing. */
  method ToggleDates(cur: seq<string>, dates: seq<string>) returns (r: seq<string>)
    ensures r == ToggleAll(cur, dates)
  {
    r := cur;
    var i := 0;
    while i < |dates|
      invariant 0 <= i <= |dates|
      invariant r == ToggleAll(cur, dates[..i])
    {
      var d := dates[i];
      if d in r {
        r := RemoveAll(r, d);
      } else {
        r := r + [d];
      }
      assert dates[..i + 1][..i] == dates[..i];
      i := i + 1;
    }
    assert dates[..i] == dates;
  }

  /** `update-chosen-date`. A NULL column starts from the empty list. */
  method UpdateChosenDate(col: Column<seq<string>>, eventId: string, arg: ChosenArg)
    returns (r: Step<Column<seq<string>>>)
    ensures r.outcome == BadRequest <==> !Truthy(eventId) || arg.Undefined?
    ensures r.outcome == NotFound <==> Truthy(eventId) && !arg.Undefined? && col.NoRow?
    ensures r.outcome in {Ok, BadRequest, NotFound}
    ensures r.outcome != Ok ==> r.next == col
    ensures r.outcome == Ok ==> r.next == Value(ToggleAll(col.OrElse([]), Normalise(arg)))
  {
    if !Truthy(eventId) || arg.Undefined? {
      return Step(BadRequest, col);
    }
    if col.NoRow? {
      return Step(NotFound, col);
    }
    var dates := ToggleDates(col.OrElse([]), Normalise(arg));
    r := Step(Ok, Value(dates));
  }

  // ---------------------------------------------------------------------
  // fetch-availability

  /** The columns `fetch-availability` reads from a `user_details` row. */
  datatype Member = Member(userId: UserId, username: string, availability: Availability, profilePic: int, createdAt: string)

  /** The organiser and attendee columns of an event row. */
  datatype EventPeople = EventPeople(organiser: UserId, attendees: Option<seq<UserId>>)

  /** `[organiser_id, ...attendees].filter(Boolean)`. */
  function MemberIds(e: EventPeople): (ids: seq<UserId>)
    ensures forall id :: id in ids <==> Truthy(id) && (id == e.organiser || id in e.attendees.OrElse([]))
  {
    Filter([e.organiser] + e.attendees.OrElse([]), (id: UserId) => Truthy(id))
  }

  /** The last row of `rows` that belongs to the organiser: each such row
      overwrites `response.organiser`. */
  function LastOrganiserRow(rows: seq<Member>, organiser: UserId): (r: Option<Member>)
    ensures r.Some? ==> r.value in rows && r.value.userId == organiser
    ensures r.None? <==> forall m :: m in rows ==> m.userId != organiser
  {
    if rows == [] then None
    else
      var last := rows[|rows| - 1];
      assert rows == rows[..|rows| - 1] + [last];
      if last.userId == organiser then Some(last)
      else LastOrganiserRow(rows[..|rows| - 1], organiser)
  }

  /** The rows pushed onto `response.attendees`, in order. */
  function OtherRows(rows: seq<Member>, organiser: UserId): (r: seq<Member>)
    ensures forall m :: m in r <==> m in rows && m.userId != organiser
    ensures |r| <= |rows|
  {
    if rows == [] then []
    else
      var last := rows[|rows| - 1];
      assert rows == rows[..|rows| - 1] + [last];
      OtherRows(rows[..|rows| - 1], organiser) + (if last.userId != organiser then [last] else [])
  }

  /** The split of the fetched rows. */
  datatype Overview = Overview(organiser: Option<Member>, attendees: seq<Member>)

  /** The `forEach` over the fetched rows. */
  method SplitRows(rows: seq<Member>, organiser: UserId) returns (o: Overview)
    ensures o == Overview(LastOrganiserRow(rows, organiser), OtherRows(rows, organiser))
  {
    o := Overview(None, []);
    var i := 0;
    while i < |rows|
      invariant 0 <= i <= |rows|
      invariant o == Overview(LastOrganiserRow(rows[..i], organiser), OtherRows(rows[..i], organiser))
    {
      SplitStep(rows, i, organiser);
      if rows[i].userId == organiser {
        o := o.(organiser := Some(rows[i]));
      } else {
        o := o.(attendees := o.attendees + [rows[i]]);
      }
      i := i + 1;
    }
    assert rows[..i] == rows;
  }

  /** One more row of the same sequence either replaces the organiser row
      or is appended to the others. */
  lemma SplitStep(rows: seq<Member>, i: nat, organiser: UserId)
    requires i < |rows|
    ensures LastOrganiserRow(rows[..i + 1], organiser)
              == if rows[i].userId == organiser then Some(rows[i]) else LastOrganiserRow(rows[..i], organiser)
    ensures OtherRows(rows[..i + 1], organiser)
              == OtherRows(rows[..i], organiser) + if rows[i].userId != organiser then [rows[i]] else []
  {
    assert rows[..i + 1][..i] == rows[..i];
  }

  /** The rows the `IN (...)` query returns: the table's rows whose id is
      a member id of the event, in table order. */
  function EventRows(table: seq<Member>, ev: EventPeople): (rows: seq<Member>)
    ensures forall m :: m in rows <==> m in table && m.userId in MemberIds(ev)
  {
    Filter(table, (m: Member) => m.userId in MemberIds(ev))
  }

  /** `fetch-availability` over the user table. `event` is `None` when no
      row has the id; the `IN (...)` query is the table's rows whose id is
      a member id, in table order. */
  method FetchAvailability(eventId: string, event: Option<EventPeople>, table: seq<Member>)
    returns (outcome: Outcome, o: Overview)
    ensures outcome == BadRequest <==> !Truthy(eventId)
    ensures outcome == NotFound <==> Truthy(eventId) && (event.None? || MemberIds(event.value) == [])
    ensures outcome in {Ok, BadRequest, NotFound}
    ensures outcome != Ok ==> o == Overview(None, [])
    ensures outcome == Ok ==>
              && event.Some?
              && (o.organiser.Some? ==> o.organiser.value in table && o.organiser.value.userId == event.value.organiser)
              && (o.organiser.None? <==> forall m :: m in table ==> m.userId != event.value.organiser || !Truthy(m.userId))
              && (forall m :: m in o.attendees <==>
                    m in table && m.userId != event.value.organiser
                    && Truthy(m.userId) && m.userId in event.value.attendees.OrElse([]))
    ensures outcome == Ok ==>
              var rows := EventRows(table, event.value);
              o == Overview(LastOrganiserRow(rows, event.value.organiser), OtherRows(rows, event.value.organiser))
  {
    o := Overview(None, []);
    if !Truthy(eventId) {
      return BadRequest, o;
    }
    if event.None? {
      return NotFound, o;
    }
    var ids := MemberIds(event.value);
    if ids == [] {
      return NotFound, o;
    }
    var rows := EventRows(table, event.value);
    o := SplitRows(rows, event.value.organiser);
    outcome := Ok;
  }
}
