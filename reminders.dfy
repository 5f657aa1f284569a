/** One pass of the daily reminder dispatcher (`sendReminderEmails`). The
    pass walks the confirmed events that have a reminder time and, per
    event, updates the undeclared `earliestDate` variable, builds the
    location line and the recipient list, and evaluates two independent
    triggers; each trigger sends to every recipient that has a user row
    and sets its flag only if no send threw.

    Abstractions: days are integers; `dayOf` turns a stored date string
    into its day; `known` is the set of user ids that have a row; the
    `Mailer` oracle says which sends succeed. `earliestDate` is an implicit
    global in the source, so its value flows from one event to the next
    and from one pass to the next: the pass takes it in and hands it out.
    `None` stands for a variable nothing has assigned yet, whose read
    throws. */
module Reminders {
  import opened Common
  import opened Events

  /** The query's filter: `status = 'confirmed' AND reminder_time IS NOT NULL`. */
  predicate Selected(e: EventRecord) {
    e.status == Confirmed && e.reminderTime.Some?
  }

  /** The rows the query returns, in table order. */
  function SelectForReminders(table: seq<EventRecord>): (rows: seq<EventRecord>)
    ensures forall e :: e in rows <==> e in table && Selected(e)
    ensures forall e :: e in rows ==> e.reminderTime.Some?
  {
    Filter(table, Selected)
  }

  // ---------------------------------------------------------------------
  // Earliest chosen date

  /** The smallest day among the chosen dates (the head of the sorted list). */
  function MinDay(dates: seq<string>, dayOf: string -> int): (d: int)
    requires dates != []
    ensures exists i :: 0 <= i < |dates| && dayOf(dates[i]) == d
    ensures forall i :: 0 <= i < |dates| ==> d <= dayOf(dates[i])
  {
    if |dates| == 1 then dayOf(dates[0])
    else
      var rest := MinDay(dates[1..], dayOf);
      assert forall i :: 1 <= i < |dates| ==> dates[i] == dates[1..][i - 1];
      if dayOf(dates[0]) <= rest then dayOf(dates[0]) else rest
  }

  /** The value `earliestDate` holds after the source's first block for
      event `e`: the minimum chosen day when there are chosen dates, and
      otherwise whatever the previous event (or the previous pass) left
      in it. */
  function NextEarliest(prev: Option<int>, e: EventRecord, dayOf: string -> int): (r: Option<int>)
    ensures e.chosenDates.OrElse([]) == [] ==> r == prev
    ensures e.chosenDates.OrElse([]) != [] ==>
              && r.Some?
              && (forall d :: d in e.chosenDates.value ==> r.value <= dayOf(d))
              && (exists d :: d in e.chosenDates.value && dayOf(d) == r.value)
  {
    var dates := e.chosenDates.OrElse([]);
    if dates != [] then Some(MinDay(dates, dayOf)) else prev
  }

  // ---------------------------------------------------------------------
  // Location line

  /** The non-empty location fields in the order city, address, country,
      postcode. */
  function LocationParts(l: Location): (parts: seq<string>)
    ensures |parts| <= 4
    ensures forall p :: p in parts ==> Truthy(p)
    ensures Truthy(l.city) ==> |parts| > 0 && parts[0] == l.city
    ensures Truthy(l.postcode) ==> |parts| > 0 && parts[|parts| - 1] == l.postcode
    ensures parts == [] <==> !Truthy(l.city) && !Truthy(l.address) && !Truthy(l.country) && !Truthy(l.postcode)
  {
    (if Truthy(l.city) then [l.city] else [])
    + (if Truthy(l.address) then [l.address] else [])
    + (if Truthy(l.country) then [l.country] else [])
    + (if Truthy(l.postcode) then [l.postcode] else [])
  }

  /** `parts.join(sep)`. */
  function Join(parts: seq<string>, sep: string): string {
    if parts == [] then ""
    else if |parts| == 1 then parts[0]
    else parts[0] + sep + Join(parts[1..], sep)
  }

  /** The location line of the e-mails: the non-empty parts joined with
      ", ", or "TBA" when the event has no location or no non-empty part. */
  function LocationString(location: Option<Location>): (s: string)
    ensures location.None? ==> s == "TBA"
    ensures location.Some? && LocationParts(location.value) == [] ==> s == "TBA"
    ensures location.Some? && LocationParts(location.value) == [location.value.city] ==> s == location.value.city
    ensures location.Some? && LocationParts(location.value) != [] ==> s == Join(LocationParts(location.value), ", ")
  {
    if location.Some? && LocationParts(location.value) != [] then Join(LocationParts(location.value), ", ")
    else "TBA"
  }

  /** The source's construction: one `push` per non-empty field, then a
      join when anything was pushed. */
  method BuildLocationString(location: Option<Location>) returns (s: string)
    ensures s == LocationString(location)
  {
    s := "TBA";
    if location.Some? {
      var l := location.value;
      var parts: seq<string> := [];
      if Truthy(l.city) { parts := parts + [l.city]; }
      if Truthy(l.address) { parts := parts + [l.address]; }
      if Truthy(l.country) { parts := parts + [l.country]; }
      if Truthy(l.postcode) { parts := parts + [l.postcode]; }
      assert parts == LocationParts(l);
      if |parts| > 0 {
        s := Join(parts, ", ");
      }
    }
  }

  // ---------------------------------------------------------------------
  // Recipients

  /** The attendee list (empty when the column is not an array) with the
      organiser put in front, unless the organiser id is empty or already
      listed. */
  function Recipients(e: EventRecord): (r: seq<UserId>)
    ensures forall u :: u in r <==> u in e.attendees.OrElse([]) || (u == e.organiser && Truthy(u))
    ensures Truthy(e.organiser) && e.organiser !in e.attendees.OrElse([]) ==> r == [e.organiser] + e.attendees.OrElse([])
    ensures !Truthy(e.organiser) || e.organiser in e.attendees.OrElse([]) ==> r == e.attendees.OrElse([])
    ensures NoDuplicates(e.attendees.OrElse([])) ==> NoDuplicates(r)
  {
    var attendees := e.attendees.OrElse([]);
    if Truthy(e.organiser) && e.organiser !in attendees then [e.organiser] + attendees else attendees
  }

  // ---------------------------------------------------------------------
  // Triggers and sends

  /** The upcoming reminder is due when today is the reminder day and the
      flag is not 1 (selected rows always have a reminder time). */
  predicate UpcomingDue(e: EventRecord, today: int, dayOf: string -> int) {
    e.reminderTime.Some? && today == dayOf(e.reminderTime.value) && e.reminderSent != 1
  }

  /** The day-of reminder is due when `earliestDate` (as it stands after
      this event's first block) is today and the flag is not 1. */
  predicate DayOfDue(earliest: Option<int>, e: EventRecord, today: int) {
    earliest == Some(today) && e.dailyReminderSent != 1
  }

  /** Every recipient that has a user row was sent the notice without an
      exception; recipients without a row are skipped. */
  predicate AllDelivered(n: Notice, eventId: string, recipients: seq<UserId>, known: set<UserId>, mailer: Mailer) {
    forall u :: u in recipients && u in known ==> mailer(n, eventId, u)
  }

  /** The sends a trigger attempts: one per recipient with a user row, in
      recipient order. */
  function Attempts(n: Notice, eventId: string, recipients: seq<UserId>, known: set<UserId>): (r: seq<Delivery>)
    ensures |r| <= |recipients|
    ensures forall d :: d in r <==> d.notice == n && d.eventId == eventId && d.recipient in recipients && d.recipient in known
  {
    if recipients == [] then []
    else
      var last := recipients[|recipients| - 1];
      var front := recipients[..|recipients| - 1];
      assert recipients == front + [last];
      Attempts(n, eventId, front, known) + (if last in known then [Delivery(n, eventId, last)] else [])
  }

  /** No recipient has a user row, so the send loop attempts nothing. */
  predicate NoneKnown(recipients: seq<UserId>, known: set<UserId>) {
    forall u :: u in recipients ==> u !in known
  }

  /** One trigger's `for (const userId of attendees)` loop with its
      `allEmailsSent` accumulator. When `composeThrows` holds, building the
      message throws inside the `try` (the upcoming reminder's text reads
      `earliestDate` before anything assigned it): nothing is sent to a
      recipient with a user row and each such recipient clears success. */
  method SendAll(n: Notice, eventId: string, recipients: seq<UserId>, known: set<UserId>, mailer: Mailer,
                 composeThrows: bool)
    returns (allSent: bool, sent: seq<Delivery>)
    ensures allSent <==> AllDelivered(n, eventId, recipients, known, mailer)
                         && (composeThrows ==> NoneKnown(recipients, known))
    ensures sent == if composeThrows then [] else Attempts(n, eventId, recipients, known)
  {
    allSent := true;
    sent := [];
    var i := 0;
    while i < |recipients|
      invariant 0 <= i <= |recipients|
      invariant sent == if composeThrows then [] else Attempts(n, eventId, recipients[..i], known)
      invariant allSent <==> AllDelivered(n, eventId, recipients[..i], known, mailer)
                             && (composeThrows ==> NoneKnown(recipients[..i], known))
    {
      var u := recipients[i];
      SendStep(n, eventId, recipients, i, known, mailer);
      if u in known {
        if composeThrows {
          allSent := false;
        } else {
          sent := sent + [Delivery(n, eventId, u)];
          if !mailer(n, eventId, u) {
            allSent := false;
          }
        }
      }
      i := i + 1;
    }
    assert recipients[..i] == recipients;
  }

  /** One more recipient of the same list: one more attempt when the
      recipient has a user row, and that send must succeed too. */
  lemma SendStep(n: Notice, eventId: string, recipients: seq<UserId>, i: nat, known: set<UserId>, mailer: Mailer)
    requires i < |recipients|
    ensures Attempts(n, eventId, recipients[..i + 1], known)
              == Attempts(n, eventId, recipients[..i], known)
                 + if recipients[i] in known then [Delivery(n, eventId, recipients[i])] else []
    ensures AllDelivered(n, eventId, recipients[..i + 1], known, mailer) <==>
              AllDelivered(n, eventId, recipients[..i], known, mailer)
              && (recipients[i] in known ==> mailer(n, eventId, recipients[i]))
    ensures NoneKnown(recipients[..i + 1], known) <==>
              NoneKnown(recipients[..i], known) && recipients[i] !in known
  {
    assert recipients[..i + 1][..i] == recipients[..i];
    assert recipients[..i + 1] == recipients[..i] + [recipients[i]];
  }

  // ---------------------------------------------------------------------
  // One event, one pass

  /** What one event contributes to a pass. `aborted` records the
      `ReferenceError` of the day-of test `today === earliestDate` when
      nothing has assigned `earliestDate` yet: that read is outside every
      `try`, so it rejects the loop's async callback and ends the pass. */
  datatype EventEffects = EventEffects(earliest: Option<int>, sent: seq<Delivery>, setReminderSent: bool,
                                       setDailyReminderSent: bool, aborted: bool)

  /** The body of the `for (const event of events)` loop for one event. */
  function ProcessEvent(e: EventRecord, earliestIn: Option<int>, today: int, dayOf: string -> int,
                        known: set<UserId>, mailer: Mailer): (r: EventEffects)
    ensures r.earliest == NextEarliest(earliestIn, e, dayOf)
    ensures r.aborted <==> Recipients(e) != [] && r.earliest.None?
    ensures r.setReminderSent <==>
              Recipients(e) != [] && UpcomingDue(e, today, dayOf)
              && AllDelivered(UpcomingReminder, e.eventId, Recipients(e), known, mailer)
              && (r.earliest.Some? || NoneKnown(Recipients(e), known))
    ensures r.setDailyReminderSent <==>
              Recipients(e) != [] && DayOfDue(r.earliest, e, today)
              && AllDelivered(DayOfReminder, e.eventId, Recipients(e), known, mailer)
    ensures forall d :: d in r.sent ==> d.eventId == e.eventId && d.recipient in Recipients(e) && d.recipient in known
    ensures (exists d :: d in r.sent && d.notice == UpcomingReminder) ==> UpcomingDue(e, today, dayOf) && r.earliest.Some?
    ensures (exists d :: d in r.sent && d.notice == DayOfReminder) ==> DayOfDue(r.earliest, e, today)
  {
    var earliest := NextEarliest(earliestIn, e, dayOf);
    var rcpt := Recipients(e);
    if rcpt == [] then EventEffects(earliest, [], false, false, false)
    else
      var up := UpcomingDue(e, today, dayOf);
      if earliest.None? then
        EventEffects(earliest, [], up && NoneKnown(rcpt, known), false, true)
      else
        var day := DayOfDue(earliest, e, today);
        var upSent := if up then Attempts(UpcomingReminder, e.eventId, rcpt, known) else [];
        var daySent := if day then Attempts(DayOfReminder, e.eventId, rcpt, known) else [];
        EventEffects(earliest, upSent + daySent,
                     up && AllDelivered(UpcomingReminder, e.eventId, rcpt, known, mailer),
                     day && AllDelivered(DayOfReminder, e.eventId, rcpt, known, mailer), false)
  }

  /** A due trigger whose message can be built is attempted for every
      recipient with a user row. */
  lemma DueRemindersAttempted(e: EventRecord, earliestIn: Option<int>, today: int, dayOf: string -> int,
                              known: set<UserId>, mailer: Mailer, u: UserId)
    requires u in Recipients(e) && u in known
    ensures var r := ProcessEvent(e, earliestIn, today, dayOf, known, mailer);
            && (UpcomingDue(e, today, dayOf) && r.earliest.Some? ==> Delivery(UpcomingReminder, e.eventId, u) in r.sent)
            && (DayOfDue(r.earliest, e, today) ==> Delivery(DayOfReminder, e.eventId, u) in r.sent)
  {
  }

  /** A flag write the pass issues. */
  datatype FlagWrite = ReminderSentSet(eventId: string) | DailyReminderSentSet(eventId: string)

  /** What a pass has done; `stopped` is set once an event aborted it. */
  datatype PassReport = PassReport(earliest: Option<int>, sent: seq<Delivery>, writes: seq<FlagWrite>, stopped: bool)

  function FlagWrites(e: EventRecord, fx: EventEffects): seq<FlagWrite> {
    (if fx.setReminderSent then [ReminderSentSet(e.eventId)] else [])
    + (if fx.setDailyReminderSent then [DailyReminderSentSet(e.eventId)] else [])
  }

  /** The pass over `rows` in order, threading `earliestDate` through and
      ignoring every row after an abort. */
  function PassOver(rows: seq<EventRecord>, earliestIn: Option<int>, today: int, dayOf: string -> int,
                    known: set<UserId>, mailer: Mailer): PassReport
  {
    if rows == [] then PassReport(earliestIn, [], [], false)
    else
      var e := rows[|rows| - 1];
      var before := PassOver(rows[..|rows| - 1], earliestIn, today, dayOf, known, mailer);
      if before.stopped then before
      else Extend(before, e, ProcessEvent(e, before.earliest, today, dayOf, known, mailer))
  }

  /** The report after one more event: its earliest date carries on, its
      sends and flag writes are appended, and its abort stops the pass. */
  function Extend(before: PassReport, e: EventRecord, fx: EventEffects): PassReport {
    PassReport(fx.earliest, before.sent + fx.sent, before.writes + FlagWrites(e, fx), fx.aborted)
  }

  /** The loop body for one selected event: update `earliestDate`, build
      the location line and recipients, then run each due trigger's send
      loop and set its flag when every send succeeded. The day-of test
      reads `earliestDate`; when it was never assigned the body stops
      there. */
  method HandleEvent(e: EventRecord, earliestIn: Option<int>, today: int, dayOf: string -> int,
                     known: set<UserId>, mailer: Mailer)
    returns (fx: EventEffects)
    ensures fx == ProcessEvent(e, earliestIn, today, dayOf, known, mailer)
  {
    var earliest := NextEarliest(earliestIn, e, dayOf);
    var location := BuildLocationString(e.location);
    var rcpt := Recipients(e);
    if rcpt == [] {
      return EventEffects(earliest, [], false, false, false);
    }
    var upSent: seq<Delivery> := [];
    var daySent: seq<Delivery> := [];
    var setUp, setDay := false, false;
    if UpcomingDue(e, today, dayOf) {
      setUp, upSent := SendAll(UpcomingReminder, e.eventId, rcpt, known, mailer, earliest.None?);
    }
    if earliest.None? {
      return EventEffects(earliest, upSent, setUp, false, true);
    }
    if DayOfDue(earliest, e, today) {
      setDay, daySent := SendAll(DayOfReminder, e.eventId, rcpt, known, mailer, false);
    }
    fx := EventEffects(earliest, upSent + daySent, setUp, setDay, false);
  }

  /** The pass over one more row of the same sequence extends the pass by
      that row's effects, unless the pass had already stopped. */
  lemma PassOverStep(rows: seq<EventRecord>, i: nat, earliestIn: Option<int>, today: int,
                     dayOf: string -> int, known: set<UserId>, mailer: Mailer)
    requires i < |rows|
    ensures var before := PassOver(rows[..i], earliestIn, today, dayOf, known, mailer);
            PassOver(rows[..i + 1], earliestIn, today, dayOf, known, mailer)
              == if before.stopped then before
                 else Extend(before, rows[i], ProcessEvent(rows[i], before.earliest, today, dayOf, known, mailer))
  {
    assert rows[..i + 1][..i] == rows[..i];
  }

  /** Once the pass has stopped, later rows change nothing. */
  lemma {:induction false} StoppedPassIsFinal(rows: seq<EventRecord>, i: nat, j: nat, earliestIn: Option<int>,
                                              today: int, dayOf: string -> int, known: set<UserId>, mailer: Mailer)
    requires i <= j <= |rows|
    requires PassOver(rows[..i], earliestIn, today, dayOf, known, mailer).stopped
    ensures PassOver(rows[..j], earliestIn, today, dayOf, known, mailer)
              == PassOver(rows[..i], earliestIn, today, dayOf, known, mailer)
    decreases j
  {
    if j > i {
      StoppedPassIsFinal(rows, i, j - 1, earliestIn, today, dayOf, known, mailer);
      PassOverStep(rows, j - 1, earliestIn, today, dayOf, known, mailer);
    }
  }

  /** `sendReminderEmails`: select, then one loop over the selected rows;
      an aborting event ends the loop. */
  method SendReminderEmails(table: seq<EventRecord>, earliestIn: Option<int>, today: int, dayOf: string -> int,
                            known: set<UserId>, mailer: Mailer)
    returns (report: PassReport)
    ensures report == PassOver(SelectForReminders(table), earliestIn, today, dayOf, known, mailer)
  {
    var rows := SelectForReminders(table);
    report := PassReport(earliestIn, [], [], false);
    var i := 0;
    while i < |rows| && !report.stopped
      invariant 0 <= i <= |rows|
      invariant report == PassOver(rows[..i], earliestIn, today, dayOf, known, mailer)
    {
      var fx := HandleEvent(rows[i], report.earliest, today, dayOf, known, mailer);
      PassOverStep(rows, i, earliestIn, today, dayOf, known, mailer);
      report := Extend(report, rows[i], fx);
      i := i + 1;
    }
    PassEndsAt(rows, i, earliestIn, today, dayOf, known, mailer);
  }

  /** A pass that has stopped, or has seen every row, is the whole pass. */
  lemma PassEndsAt(rows: seq<EventRecord>, i: nat, earliestIn: Option<int>, today: int, dayOf: string -> int,
                   known: set<UserId>, mailer: Mailer)
    requires i <= |rows|
    requires i == |rows| || PassOver(rows[..i], earliestIn, today, dayOf, known, mailer).stopped
    ensures PassOver(rows, earliestIn, today, dayOf, known, mailer) == PassOver(rows[..i], earliestIn, today, dayOf, known, mailer)
  {
    if i < |rows| {
      StoppedPassIsFinal(rows, i, |rows|, earliestIn, today, dayOf, known, mailer);
    }
    assert rows[..|rows|] == rows;
  }

  // ---------------------------------------------------------------------
  // Properties of the pass

  /** A flag is written for an event only if that event is one of the
      selected rows, its trigger was due, and every send to a recipient
      with a user row succeeded. */
  lemma {:induction false} ReminderFlagSound(rows: seq<EventRecord>, earliestIn: Option<int>, today: int,
                                             dayOf: string -> int, known: set<UserId>, mailer: Mailer, w: FlagWrite)
    requires w in PassOver(rows, earliestIn, today, dayOf, known, mailer).writes
    requires w.ReminderSentSet?
    ensures exists e :: e in rows && e.eventId == w.eventId && UpcomingDue(e, today, dayOf)
                        && AllDelivered(UpcomingReminder, e.eventId, Recipients(e), known, mailer)
  {
    var e := rows[|rows| - 1];
    var front := rows[..|rows| - 1];
    var before := PassOver(front, earliestIn, today, dayOf, known, mailer);
    if w in before.writes {
      ReminderFlagSound(front, earliestIn, today, dayOf, known, mailer, w);
      assert forall x :: x in front ==> x in rows;
    } else {
      assert e in rows;
    }
  }

  /** Once `reminder_sent` is 1, no pass sends the upcoming reminder for
      that event again (until something resets the flag). */
  lemma SentFlagStopsUpcoming(e: EventRecord, earliestIn: Option<int>, today: int, dayOf: string -> int,
                              known: set<UserId>, mailer: Mailer)
    requires Selected(e) && e.reminderSent == 1
    ensures var fx := ProcessEvent(e, earliestIn, today, dayOf, known, mailer);
            !fx.setReminderSent && forall d :: d in fx.sent ==> d.notice != UpcomingReminder
  {
  }

  /** Both triggers can fire for the same event in the same pass: when the
      reminder day and the earliest chosen day are both today and every
      send succeeds, both flags are written. */
  lemma BothTriggersSameDay(e: EventRecord, earliestIn: Option<int>, today: int, dayOf: string -> int,
                            known: set<UserId>, mailer: Mailer)
    requires Selected(e) && e.reminderSent != 1 && e.dailyReminderSent != 1
    requires Truthy(e.organiser)
    requires dayOf(e.reminderTime.value) == today
    requires e.chosenDates.Some? && e.chosenDates.value != [] && forall d :: d in e.chosenDates.value ==> dayOf(d) == today
    requires forall n, u :: mailer(n, e.eventId, u)
    ensures var fx := ProcessEvent(e, earliestIn, today, dayOf, known, mailer);
            fx.setReminderSent && fx.setDailyReminderSent
  {
    assert e.organiser in Recipients(e);
  }

  /** Before anything has assigned `earliestDate` (a fresh process), an
      event with recipients and no chosen dates aborts the pass: no
      reminder goes out, the upcoming flag is written only when no
      recipient has a user row, and no later row is looked at. */
  lemma UnassignedEarliestStopsPass(e: EventRecord, more: seq<EventRecord>, today: int, dayOf: string -> int,
                                    known: set<UserId>, mailer: Mailer)
    requires e.chosenDates.OrElse([]) == [] && Truthy(e.organiser)
    ensures var r := PassOver([e] + more, None, today, dayOf, known, mailer);
            && r.stopped && r.sent == [] && r.earliest.None?
            && (r.writes == [] || r.writes == [ReminderSentSet(e.eventId)])
            && (r.writes != [] <==> UpcomingDue(e, today, dayOf) && NoneKnown(Recipients(e), known))
  {
    assert e.organiser in Recipients(e);
    var fx := ProcessEvent(e, None, today, dayOf, known, mailer);
    var rows := [e] + more;
    PassOverStep(rows, 0, None, today, dayOf, known, mailer);
    assert rows[..0] == [] && rows[0] == e;
    assert PassOver(rows[..1], None, today, dayOf, known, mailer) == Extend(PassReport(None, [], [], false), e, fx);
    StoppedPassIsFinal(rows, 1, |rows|, None, today, dayOf, known, mailer);
    assert rows[..|rows|] == rows;
  }

  /** The leaked `earliestDate`: an event without chosen dates is judged
      against the previous event's earliest day, so it receives the
      day-of reminder on that day. */
  lemma EarliestDateLeaks(a: EventRecord, b: EventRecord, earliestIn: Option<int>, today: int,
                          dayOf: string -> int, known: set<UserId>, mailer: Mailer)
    requires Selected(a) && Selected(b)
    requires a.chosenDates.Some? && a.chosenDates.value != [] && MinDay(a.chosenDates.value, dayOf) == today
    requires b.chosenDates.OrElse([]) == [] && b.dailyReminderSent != 1
    requires Truthy(b.organiser)
    requires forall n, u :: mailer(n, b.eventId, u)
    ensures PassOver([a, b], earliestIn, today, dayOf, known, mailer).earliest == Some(today)
    ensures DailyReminderSentSet(b.eventId) in PassOver([a, b], earliestIn, today, dayOf, known, mailer).writes
  {
    var fxa := ProcessEvent(a, earliestIn, today, dayOf, known, mailer);
    assert fxa.earliest == Some(today) && !fxa.aborted;
    var first := PassOver([a], earliestIn, today, dayOf, known, mailer);
    PassOverStep([a], 0, earliestIn, today, dayOf, known, mailer);
    assert [a][..0] == [] && [a][..1] == [a];
    assert first == Extend(PassReport(earliestIn, [], [], false), a, fxa);
    assert b.organiser in Recipients(b);
    var fxb := ProcessEvent(b, first.earliest, today, dayOf, known, mailer);
    assert fxb.setDailyReminderSent;
    PassOverStep([a, b], 1, earliestIn, today, dayOf, known, mailer);
    assert [a, b][..1] == [a] && [a, b][..2] == [a, b];
  }
}
