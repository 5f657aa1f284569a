/** The event record and the handlers of `src/routes/events.js` that decide
    something: the event-id format check, create-event's validation and
    defaults, the three status transitions (confirm, cancel, reopen), the
    `last_updated` upsert and the id-migration retry loop. Store round
    trips are opaque: a handler receives the row it loaded (or `None`) and
    returns the row it writes. */
module Events {
  import opened Common
  import Markers

  datatype Location = Location(address: string, city: string, postcode: string, country: string)

  /** One row of `event_details`, restricted to the columns the core reads
      or writes (polls, comments, links, to-do and requests are modelled
      by their own modules). Days and instants are abstract: `updatedAt` is
      in milliseconds, dates are the strings the client sent. */
  datatype EventRecord = EventRecord(
    eventId: string,
    title: string,
    description: Option<string>,
    earliestDate: string,
    latestDate: string,
    location: Option<Location>,
    duration: int,
    reminderTime: Option<string>,
    organiser: UserId,
    status: string,
    cancellationReason: Option<string>,
    chosenDates: Option<seq<string>>,
    reminderSent: int,
    dailyReminderSent: int,
    deletedWarningSent: int,
    updatedAt: int,
    attendees: Option<seq<UserId>>)

  const Pending := "pending"
  const Confirmed := "confirmed"
  const Canceled := "canceled"

  // ---------------------------------------------------------------------
  // Event ids

  predicate IsHexDigit(c: char) {
    '0' <= c <= '9' || 'a' <= c <= 'f' || 'A' <= c <= 'F'
  }

  predicate IsHexRun(s: string, n: nat) {
    |s| == n && forall i :: 0 <= i < |s| ==> IsHexDigit(s[i])
  }

  /** The case-insensitive pattern `^[0-9a-f]{8}-[0-9a-f]{4}-[0-9a-f]{4}-[0-9a-f]{4}-[0-9a-f]{12}$`,
      read position by position. */
  predicate IsUUID(s: string) {
    && |s| == 36
    && IsHexRun(s[..8], 8) && s[8] == '-'
    && IsHexRun(s[9..13], 4) && s[13] == '-'
    && IsHexRun(s[14..18], 4) && s[18] == '-'
    && IsHexRun(s[19..23], 4) && s[23] == '-'
    && IsHexRun(s[24..], 12)
  }

  /** The five hex groups joined by dashes, as an id generator writes them. */
  function FormatUUID(g1: string, g2: string, g3: string, g4: string, g5: string): string {
    g1 + "-" + g2 + "-" + g3 + "-" + g4 + "-" + g5
  }

  /** Every dash-joined string of hex groups of lengths 8-4-4-4-12 passes
      the check. */
  lemma FormattedIsUUID(g1: string, g2: string, g3: string, g4: string, g5: string)
    requires IsHexRun(g1, 8) && IsHexRun(g2, 4) && IsHexRun(g3, 4) && IsHexRun(g4, 4) && IsHexRun(g5, 12)
    ensures IsUUID(FormatUUID(g1, g2, g3, g4, g5))
  {
    var s := FormatUUID(g1, g2, g3, g4, g5);
    assert s[..8] == g1;
    assert s[9..13] == g2;
    assert s[14..18] == g3;
    assert s[19..23] == g4;
    assert s[24..] == g5;
  }

  /** ... and every string that passes the check is such a string: the
      check accepts exactly the 8-4-4-4-12 hex shapes. */
  lemma UUIDIsFormatted(s: string)
    requires IsUUID(s)
    ensures s == FormatUUID(s[..8], s[9..13], s[14..18], s[19..23], s[24..])
  {
    var f := FormatUUID(s[..8], s[9..13], s[14..18], s[19..23], s[24..]);
    assert |f| == |s|;
    forall i | 0 <= i < |s| ensures f[i] == s[i] {
    }
  }

  // ---------------------------------------------------------------------
  // create-event

  /** The request body of create-event. An empty string stands for an
      absent or falsy field; `durationNumber` is `Number(duration)` (None
      for NaN); `status` is None when the body has no status key. */
  datatype CreateRequest = CreateRequest(
    eventId: string,
    title: string,
    description: string,
    earliestDate: string,
    latestDate: string,
    location: Option<Location>,
    durationNumber: Option<int>,
    reminderTime: string,
    organiser: UserId,
    status: Option<string>)

  /** The outcome and the row inserted (an insert can happen even when the
      answer is an error). */
  datatype Created = Created(outcome: Outcome, inserted: Option<EventRecord>)

  /** `Number(duration) || 1`: NaN and 0 both become 1. */
  function DurationOrOne(n: Option<int>): (d: int)
    ensures d != 0
    ensures n.Some? && n.value != 0 ==> d == n.value
  {
    if n.Some? && n.value != 0 then n.value else 1
  }

  /** `value || null` on a string column. */
  function NullIfEmpty(s: string): (r: Option<string>)
    ensures r.None? <==> !Truthy(s)
    ensures r.Some? ==> r.value == s
  {
    if Truthy(s) then Some(s) else None
  }

  /** create-event: a supplied id must be a UUID, a missing one is
      generated (`freshId`); title, both dates and the organiser are
      required. The organiser's e-mail is looked up after the insert, so a
      missing organiser answers 404 with the row already inserted. The
      remaining columns take their store defaults (NULL, 0, `now`). */
  function CreateEvent(req: CreateRequest, freshId: string, organiserKnown: bool, now: int): (r: Created)
    requires IsUUID(freshId)
    ensures Truthy(req.eventId) && !IsUUID(req.eventId) ==> r == Created(BadRequest, None)
    ensures (!Truthy(req.title) || !Truthy(req.earliestDate) || !Truthy(req.latestDate) || !Truthy(req.organiser))
              ==> r == Created(BadRequest, None)
    ensures r.inserted.Some? ==>
              var e := r.inserted.value;
              && IsUUID(e.eventId)
              && (Truthy(req.eventId) ==> e.eventId == req.eventId)
              && (!Truthy(req.eventId) ==> e.eventId == freshId)
              && e.title == req.title && e.organiser == req.organiser
              && e.description == NullIfEmpty(req.description)
              && e.earliestDate == req.earliestDate && e.latestDate == req.latestDate
              && e.location == req.location
              && e.duration == DurationOrOne(req.durationNumber) && e.duration != 0
              && e.reminderTime == NullIfEmpty(req.reminderTime)
              && e.status == (if req.status.Some? then req.status.value else Pending)
              && e.cancellationReason.None? && e.chosenDates.None? && e.attendees.None?
              && e.reminderSent == 0 && e.dailyReminderSent == 0
              && e.deletedWarningSent == 0 && e.updatedAt == now
    ensures r.outcome == Ok <==> r.inserted.Some? && organiserKnown
    ensures r.outcome == NotFound <==> r.inserted.Some? && !organiserKnown
    ensures r.outcome in {Ok, BadRequest, NotFound}
    ensures r.inserted.Some? <==>
              (!Truthy(req.eventId) || IsUUID(req.eventId))
              && Truthy(req.title) && Truthy(req.earliestDate) && Truthy(req.latestDate) && Truthy(req.organiser)
  {
    if Truthy(req.eventId) && !IsUUID(req.eventId) then Created(BadRequest, None)
    else if !Truthy(req.title) || !Truthy(req.earliestDate) || !Truthy(req.latestDate) || !Truthy(req.organiser) then
      Created(BadRequest, None)
    else
      var id := if Truthy(req.eventId) then req.eventId else freshId;
      var e := EventRecord(
        eventId := id,
        title := req.title,
        description := NullIfEmpty(req.description),
        earliestDate := req.earliestDate,
        latestDate := req.latestDate,
        location := req.location,
        duration := DurationOrOne(req.durationNumber),
        reminderTime := NullIfEmpty(req.reminderTime),
        organiser := req.organiser,
        status := if req.status.Some? then req.status.value else Pending,
        cancellationReason := None,
        chosenDates := None,
        reminderSent := 0,
        dailyReminderSent := 0,
        deletedWarningSent := 0,
        updatedAt := now,
        attendees := None);
      Created(if organiserKnown then Ok else NotFound, Some(e))
  }

  // ---------------------------------------------------------------------
  // Status transitions

  /** Two rows agree on every column outside the lifecycle columns
      (status, reminder time, chosen dates, cancellation reason). */
  predicate SameOutsideLifecycle(a: EventRecord, b: EventRecord) {
    && a.eventId == b.eventId && a.title == b.title && a.description == b.description
    && a.earliestDate == b.earliestDate && a.latestDate == b.latestDate
    && a.location == b.location && a.duration == b.duration && a.organiser == b.organiser
    && a.reminderSent == b.reminderSent && a.dailyReminderSent == b.dailyReminderSent
    && a.deletedWarningSent == b.deletedWarningSent && a.updatedAt == b.updatedAt
    && a.attendees == b.attendees
  }

  /** confirm-event: needs an id, a reminder date and a non-empty array of
      selected dates; an UPDATE that touches no row answers 404. The prior
      status is not consulted. */
  function Confirm(row: Option<EventRecord>, eventId: string, reminderDate: string, selected: Option<seq<string>>)
    : (r: Step<Option<EventRecord>>)
    ensures r.outcome == BadRequest <==>
              !Truthy(eventId) || !Truthy(reminderDate) || selected.None? || selected.value == []
    ensures r.outcome == NotFound <==> r.outcome != BadRequest && row.None?
    ensures r.outcome in {Ok, BadRequest, NotFound}
    ensures r.outcome != Ok ==> r.next == row
    ensures r.outcome == Ok ==>
              r.next.Some? && row.Some? &&
              var e := r.next.value;
              SameOutsideLifecycle(e, row.value)
              && e.status == Confirmed && e.reminderTime == Some(reminderDate)
              && e.chosenDates == selected && e.chosenDates.value != []
              && e.cancellationReason == row.value.cancellationReason
  {
    if !Truthy(eventId) || !Truthy(reminderDate) || selected.None? || selected.value == [] then Step(BadRequest, row)
    else if row.None? then Step(NotFound, row)
    else Step(Ok, Some(row.value.(status := Confirmed, reminderTime := Some(reminderDate), chosenDates := selected)))
  }

  /** A request-body field as destructuring sees it: left out, sent as
      JSON `null`, or given. A destructuring default replaces only the
      first. */
  datatype BodyField = Absent | JsonNull | Given(text: string)

  /** cancel-event: records the reason (default "", so an absent reason is
      stored as "" and a `null` one as NULL) and clears the reminder time;
      chosen dates stay for display. */
  function Cancel(row: Option<EventRecord>, eventId: string, reason: BodyField): (r: Step<Option<EventRecord>>)
    ensures r.outcome == BadRequest <==> !Truthy(eventId)
    ensures r.outcome == NotFound <==> Truthy(eventId) && row.None?
    ensures r.outcome in {Ok, BadRequest, NotFound}
    ensures r.outcome != Ok ==> r.next == row
    ensures r.outcome == Ok ==>
              r.next.Some? && row.Some? &&
              var e := r.next.value;
              SameOutsideLifecycle(e, row.value)
              && e.status == Canceled && e.reminderTime.None?
              && (reason.Absent? ==> e.cancellationReason == Some(""))
              && (reason.JsonNull? ==> e.cancellationReason.None?)
              && (reason.Given? ==> e.cancellationReason == Some(reason.text))
              && e.chosenDates == row.value.chosenDates
  {
    if !Truthy(eventId) then Step(BadRequest, row)
    else if row.None? then Step(NotFound, row)
    else
      var why := match reason
        case Absent => Some("")
        case JsonNull => None
        case Given(s) => Some(s);
      Step(Ok, Some(row.value.(status := Canceled, cancellationReason := why, reminderTime := None)))
  }

  /** reopen-event: back to pending with reminder time and chosen dates
      cleared, and nothing else; the reminder flags and the cancellation
      reason are left as they were. */
  function Reopen(row: Option<EventRecord>, eventId: string): (r: Step<Option<EventRecord>>)
    ensures r.outcome == BadRequest <==> !Truthy(eventId)
    ensures r.outcome == NotFound <==> Truthy(eventId) && row.None?
    ensures r.outcome in {Ok, BadRequest, NotFound}
    ensures r.outcome != Ok ==> r.next == row
    ensures r.outcome == Ok ==>
              r.next.Some? && row.Some? &&
              var e := r.next.value;
              SameOutsideLifecycle(e, row.value)
              && e.status == Pending && e.reminderTime.None? && e.chosenDates.None?
              && e.cancellationReason == row.value.cancellationReason
  {
    if !Truthy(eventId) then Step(BadRequest, row)
    else if row.None? then Step(NotFound, row)
    else Step(Ok, Some(row.value.(status := Pending, reminderTime := None, chosenDates := None)))
  }

  /** Create, confirm with some dates, reopen: the event is pending again
      with no chosen dates and no reminder time, every column outside the
      lifecycle is as created, and the reminder flags hold whatever they
      held before the reopen (reopen does not reset them). */
  lemma ConfirmThenReopen(req: CreateRequest, freshId: string, now: int, reminderDate: string, dates: seq<string>)
    requires IsUUID(freshId)
    requires CreateEvent(req, freshId, true, now).outcome == Ok
    requires Truthy(reminderDate) && dates != []
    ensures var e0 := CreateEvent(req, freshId, true, now).inserted;
            var c := Confirm(e0, e0.value.eventId, reminderDate, Some(dates));
            var o := Reopen(c.next, e0.value.eventId);
            && c.outcome == Ok && o.outcome == Ok
            && o.next.value.status == Pending
            && o.next.value.chosenDates.None? && o.next.value.reminderTime.None?
            && o.next.value.organiser == req.organiser
            && SameOutsideLifecycle(o.next.value, e0.value)
            && o.next.value.cancellationReason == e0.value.cancellationReason
            && o.next.value.reminderSent == c.next.value.reminderSent
            && o.next.value.dailyReminderSent == c.next.value.dailyReminderSent
  {
    var e0 := CreateEvent(req, freshId, true, now).inserted;
    assert Truthy(e0.value.eventId) by {
      assert IsUUID(e0.value.eventId);
    }
  }

  /** No transition looks at the prior status: two rows that differ only
      in status get the same outcome and the same written fields. */
  lemma TransitionsIgnoreStatus(a: EventRecord, s: string, eventId: string, reminderDate: string,
                                selected: Option<seq<string>>, reason: BodyField)
    ensures var b := a.(status := s);
            && Confirm(Some(a), eventId, reminderDate, selected).outcome == Confirm(Some(b), eventId, reminderDate, selected).outcome
            && Cancel(Some(a), eventId, reason).outcome == Cancel(Some(b), eventId, reason).outcome
            && Reopen(Some(a), eventId).outcome == Reopen(Some(b), eventId).outcome
            && (Confirm(Some(a), eventId, reminderDate, selected).outcome == Ok ==>
                  Confirm(Some(a), eventId, reminderDate, selected).next == Confirm(Some(b), eventId, reminderDate, selected).next)
            && (Cancel(Some(a), eventId, reason).outcome == Ok ==>
                  Cancel(Some(a), eventId, reason).next == Cancel(Some(b), eventId, reason).next)
            && (Reopen(Some(a), eventId).outcome == Ok ==>
                  Reopen(Some(a), eventId).next == Reopen(Some(b), eventId).next)
  {
  }

  // ---------------------------------------------------------------------
  // update-last-update

  /** update-last-update: event id, path and timestamp are required; a
      missing event answers 404; a column that is not an array counts as
      empty; then the per-path upsert. */
  function UpdateLastUpdate(col: Column<seq<Markers.Marker>>, eventId: string, path: string, timestamp: string)
    : (r: Step<Column<seq<Markers.Marker>>>)
    ensures r.outcome == BadRequest <==> !Truthy(eventId) || !Truthy(path) || !Truthy(timestamp)
    ensures r.outcome == NotFound <==> r.outcome != BadRequest && col.NoRow?
    ensures r.outcome in {Ok, BadRequest, NotFound}
    ensures r.outcome != Ok ==> r.next == col
    ensures r.outcome == Ok ==>
              && r.next.Value?
              && |col.OrElse([])| <= |r.next.v| <= |col.OrElse([])| + 1
              && (Markers.PathsUnique(col.OrElse([])) ==> Markers.PathsUnique(r.next.v))
              && (exists k :: 0 <= k < |r.next.v| && r.next.v[k] == Markers.Marker(path, timestamp))
              && r.next == Value(Markers.Upsert(col.OrElse([]), path, timestamp))
  {
    if !Truthy(eventId) || !Truthy(path) || !Truthy(timestamp) then Step(BadRequest, col)
    else if col.NoRow? then Step(NotFound, col)
    else
      var ms := col.OrElse([]);
      var r := Markers.Upsert(ms, path, timestamp);
      var k := Markers.IndexOfPath(ms, path);
      assert r[if k == -1 then |ms| else k] == Markers.Marker(path, timestamp);
      Step(Ok, Value(r))
  }

  // ---------------------------------------------------------------------
  // migrate-event

  /** migrate-event's retry loop: `candidates` are the ids the generator
      yields, in order; the first one not already used becomes the new id
      and the row is renamed. The source loops for as long as it takes;
      here the loop ends with a server error when the candidates run out. */
  method MigrateEvent(eventId: string, existing: set<string>, candidates: seq<string>)
    returns (outcome: Outcome, newId: Option<string>, ids: set<string>)
    ensures outcome == BadRequest <==> !Truthy(eventId)
    ensures newId.Some? ==>
              && newId.value !in existing
              && exists i :: 0 <= i < |candidates| && candidates[i] == newId.value
                             && forall j :: 0 <= j < i ==> candidates[j] in existing
    ensures outcome == Ok <==> newId.Some? && eventId in existing
    ensures outcome == Ok ==> ids == existing - {eventId} + {newId.value}
    ensures outcome != Ok ==> ids == existing
    ensures outcome == ServerError <==> Truthy(eventId) && forall c :: c in candidates ==> c in existing
    ensures outcome == NotFound <==> Truthy(eventId) && newId.Some? && eventId !in existing
    ensures newId.Some? <==> Truthy(eventId) && exists c :: c in candidates && c !in existing
    ensures outcome in {Ok, BadRequest, NotFound, ServerError}
  {
    ids := existing;
    newId := None;
    if !Truthy(eventId) {
      return BadRequest, newId, ids;
    }
    var i := 0;
    while i < |candidates| && candidates[i] in existing
      invariant 0 <= i <= |candidates|
      invariant forall j :: 0 <= j < i ==> candidates[j] in existing
    {
      i := i + 1;
    }
    if i == |candidates| {
      return ServerError, newId, ids;
    }
    newId := Some(candidates[i]);
    if eventId !in existing {
      return NotFound, newId, ids;
    }
    ids := existing - {eventId} + {candidates[i]};
    outcome := Ok;
  }
}
