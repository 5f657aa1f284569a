/** One pass of the retention reaper (`DeleteOldEvents`). Every event row
    is judged by its inactivity age `now - updated_at` in milliseconds and
    its `deleted_warning_sent` flag: an old, warned event is deleted
    together with every user it references; an older, unwarned event gets
    a warning e-mail to its organiser and the flag.

    The store is abstracted to what the pass reads and writes: the set of
    user ids that have a row (`known`, which shrinks as users are deleted),
    the event ids whose rows disappear between the initial scan and the
    delete branch's re-select (`vanished`), and the `Mailer` oracle. */
module Reaper {
  import opened Common
  import opened Events

  /** Three 30-day months in milliseconds. */
  const WarnAfterMs: int := 3 * 30 * 24 * 60 * 60 * 1000
  /** One week in milliseconds. */
  const DeleteAfterMs: int := 7 * 24 * 60 * 60 * 1000

  datatype Action = Keep | Delete | Warn

  /** The `if` / `else if` on age and flag. The delete test comes first;
      each test compares the flag with one exact value. */
  function Decide(ageMs: int, warningSent: int): (a: Action)
    ensures a == Delete <==> ageMs > 604800000 && warningSent == 1
    ensures a == Warn <==> ageMs > 7776000000 && warningSent == 0
    ensures a == Keep <==> (ageMs <= 604800000 || warningSent != 1) && (ageMs <= 7776000000 || warningSent != 0)
  {
    if ageMs > DeleteAfterMs && warningSent == 1 then Delete
    else if ageMs > WarnAfterMs && warningSent == 0 then Warn
    else Keep
  }

  /** The one-week delay is measured from `updated_at`, not from the
      warning: any later pass over a warned event that saw it old enough
      to warn deletes it, however soon after the warning it runs. */
  lemma NoGraceAfterWarning(warnAgeMs: int, laterAgeMs: int)
    requires Decide(warnAgeMs, 0) == Warn
    requires laterAgeMs >= warnAgeMs
    ensures Decide(laterAgeMs, 1) == Delete
  {
  }

  /** Every user the cascade removes: the organiser when set, then the
      attendee list when it is an array. */
  function DeletionTargets(e: EventRecord): (ids: seq<UserId>)
    ensures forall u :: u in ids <==> (u == e.organiser && Truthy(u)) || u in e.attendees.OrElse([])
    ensures |ids| == |e.attendees.OrElse([])| + (if Truthy(e.organiser) then 1 else 0)
  {
    (if Truthy(e.organiser) then [e.organiser] else []) + e.attendees.OrElse([])
  }

  /** What a pass has done so far. */
  datatype ReapState = ReapState(
    known: set<UserId>,          // users that still have a row
    deletedEvents: seq<string>,
    deletedUsers: set<UserId>,
    warned: seq<string>,         // events whose flag was set
    sent: seq<Delivery>,
    stopped: bool)               // the delete branch's `return` ended the pass

  /** The users a deletion removes, as a set. */
  function Gone(e: EventRecord): (ids: set<UserId>)
    ensures forall u :: u in ids <==> u in DeletionTargets(e)
  {
    set u | u in DeletionTargets(e)
  }

  /** The deletion of `e` goes ahead: the pass is running, the event is due
      for deletion, its row is still there, and the notice to an organiser
      with a row did not throw. */
  predicate Deletes(st: ReapState, e: EventRecord, nowMs: int, vanished: set<string>, mailer: Mailer) {
    && !st.stopped && Decide(nowMs - e.updatedAt, e.deletedWarningSent) == Delete && e.eventId !in vanished
    && (e.organiser in st.known ==> mailer(DeletionNotice, e.eventId, e.organiser))
  }

  /** The warning flag of `e` is set: the pass is running, the event is due
      for a warning, and the warning to an organiser with a row did not
      throw (an organiser without a row gets the flag with no e-mail). */
  predicate Warns(st: ReapState, e: EventRecord, nowMs: int, mailer: Mailer) {
    && !st.stopped && Decide(nowMs - e.updatedAt, e.deletedWarningSent) == Warn
    && (e.organiser in st.known ==> mailer(DeletionWarning, e.eventId, e.organiser))
  }

  /** The loop body for one event. */
  function ReapEvent(st: ReapState, e: EventRecord, nowMs: int, vanished: set<string>, mailer: Mailer): (r: ReapState)
    ensures st.stopped ==> r == st
    ensures r.stopped <==>
              st.stopped || (Decide(nowMs - e.updatedAt, e.deletedWarningSent) == Delete && e.eventId in vanished)
    ensures r.known <= st.known && st.deletedUsers <= r.deletedUsers
    ensures st.known !! st.deletedUsers ==> r.known == st.known - r.deletedUsers
    ensures r.deletedEvents == st.deletedEvents || r.deletedEvents == st.deletedEvents + [e.eventId]
    ensures r.warned == st.warned || r.warned == st.warned + [e.eventId]
  {
    if st.stopped then st
    else match Decide(nowMs - e.updatedAt, e.deletedWarningSent)
      case Keep => st
      case Delete =>
        if e.eventId in vanished then st.(stopped := true)
        else if e.organiser in st.known && !mailer(DeletionNotice, e.eventId, e.organiser) then
          st.(sent := st.sent + [Delivery(DeletionNotice, e.eventId, e.organiser)])
        else
          var notice := if e.organiser in st.known then [Delivery(DeletionNotice, e.eventId, e.organiser)] else [];
          st.(known := st.known - Gone(e),
              deletedEvents := st.deletedEvents + [e.eventId],
              deletedUsers := st.deletedUsers + Gone(e),
              sent := st.sent + notice)
      case Warn =>
        if e.organiser in st.known then
          var attempt := [Delivery(DeletionWarning, e.eventId, e.organiser)];
          if mailer(DeletionWarning, e.eventId, e.organiser) then
            st.(warned := st.warned + [e.eventId], sent := st.sent + attempt)
          else st.(sent := st.sent + attempt)
        else st.(warned := st.warned + [e.eventId])
  }

  /** The whole new state after one event: the deletion and its cascade
      happen exactly when `Deletes` holds, the flag is set exactly when
      `Warns` holds, and the organiser with a row is mailed exactly when
      the pass is running and the event is due for a warning, or for a
      deletion whose row is still there. */
  lemma ReapEventTransition(st: ReapState, e: EventRecord, nowMs: int, vanished: set<string>, mailer: Mailer)
    ensures var r := ReapEvent(st, e, nowMs, vanished, mailer);
            && (Deletes(st, e, nowMs, vanished, mailer) ==>
                  && r.deletedEvents == st.deletedEvents + [e.eventId]
                  && r.deletedUsers == st.deletedUsers + Gone(e)
                  && r.known == st.known - Gone(e))
            && (!Deletes(st, e, nowMs, vanished, mailer) ==>
                  r.deletedEvents == st.deletedEvents && r.deletedUsers == st.deletedUsers && r.known == st.known)
            && r.warned == (if Warns(st, e, nowMs, mailer) then st.warned + [e.eventId] else st.warned)
    ensures var r := ReapEvent(st, e, nowMs, vanished, mailer);
            var a := Decide(nowMs - e.updatedAt, e.deletedWarningSent);
            r.sent == if !st.stopped && e.organiser in st.known && (a == Warn || (a == Delete && e.eventId !in vanished))
                      then st.sent + [Delivery(if a == Delete then DeletionNotice else DeletionWarning, e.eventId, e.organiser)]
                      else st.sent
  {
  }

  function Start(known: set<UserId>): ReapState {
    ReapState(known, [], {}, [], [], false)
  }

  /** The pass over `rows` in scan order. */
  function ReapOver(rows: seq<EventRecord>, nowMs: int, known: set<UserId>, vanished: set<string>, mailer: Mailer): ReapState {
    if rows == [] then Start(known)
    else ReapEvent(ReapOver(rows[..|rows| - 1], nowMs, known, vanished, mailer), rows[|rows| - 1], nowMs, vanished, mailer)
  }

  /** `DeleteOldEvents`: the `for (const event of events)` loop; the delete
      branch's `return` leaves the loop and the whole pass. */
  method DeleteOldEvents(rows: seq<EventRecord>, nowMs: int, known: set<UserId>, vanished: set<string>, mailer: Mailer)
    returns (st: ReapState)
    ensures st == ReapOver(rows, nowMs, known, vanished, mailer)
  {
    st := Start(known);
    var i := 0;
    while i < |rows|
      invariant 0 <= i <= |rows|
      invariant st == ReapOver(rows[..i], nowMs, known, vanished, mailer)
      invariant !st.stopped
    {
      assert rows[..i + 1][..i] == rows[..i];
      var e := rows[i];
      ghost var next := ReapEvent(st, e, nowMs, vanished, mailer);
      assert next == ReapOver(rows[..i + 1], nowMs, known, vanished, mailer);
      var action := Decide(nowMs - e.updatedAt, e.deletedWarningSent);
      if action == Delete {
        if e.eventId in vanished {
          st := st.(stopped := true);
          StoppedPassIsFinal(rows[..i + 1], rows[i + 1..], nowMs, known, vanished, mailer);
          assert rows[..i + 1] + rows[i + 1..] == rows;
          return;
        }
        var targets := DeletionTargets(e);
        var mailed := true;
        if e.organiser in st.known {
          st := st.(sent := st.sent + [Delivery(DeletionNotice, e.eventId, e.organiser)]);
          mailed := mailer(DeletionNotice, e.eventId, e.organiser);
        }
        if mailed {
          var gone := set u | u in targets;
          st := st.(known := st.known - gone,
                    deletedEvents := st.deletedEvents + [e.eventId],
                    deletedUsers := st.deletedUsers + gone);
        }
      } else if action == Warn {
        if e.organiser in st.known {
          st := st.(sent := st.sent + [Delivery(DeletionWarning, e.eventId, e.organiser)]);
          if mailer(DeletionWarning, e.eventId, e.organiser) {
            st := st.(warned := st.warned + [e.eventId]);
          }
        } else {
          st := st.(warned := st.warned + [e.eventId]);
        }
      }
      assert st == next;
      i := i + 1;
    }
    assert rows[..i] == rows;
  }

  // ---------------------------------------------------------------------
  // Properties of a pass

  /** Once the pass has stopped, later rows change nothing. */
  lemma {:induction false} StoppedPassIsFinal(rows: seq<EventRecord>, more: seq<EventRecord>, nowMs: int,
                                              known: set<UserId>, vanished: set<string>, mailer: Mailer)
    requires ReapOver(rows, nowMs, known, vanished, mailer).stopped
    ensures ReapOver(rows + more, nowMs, known, vanished, mailer) == ReapOver(rows, nowMs, known, vanished, mailer)
  {
    if more == [] {
      assert rows + more == rows;
    } else {
      var front := more[..|more| - 1];
      assert (rows + more)[..|rows + more| - 1] == rows + front;
      StoppedPassIsFinal(rows, front, nowMs, known, vanished, mailer);
    }
  }

  /** The users a pass removes are exactly those it no longer knows. */
  lemma {:induction false} KnownShrinksByDeleted(rows: seq<EventRecord>, nowMs: int, known: set<UserId>,
                                                 vanished: set<string>, mailer: Mailer)
    ensures var st := ReapOver(rows, nowMs, known, vanished, mailer);
            st.known == known - st.deletedUsers
  {
    if rows != [] {
      KnownShrinksByDeleted(rows[..|rows| - 1], nowMs, known, vanished, mailer);
    }
  }

  /** One more row of the same sequence is one more `ReapEvent`. */
  lemma ReapOverStep(rows: seq<EventRecord>, i: nat, nowMs: int, known: set<UserId>, vanished: set<string>, mailer: Mailer)
    requires i < |rows|
    ensures ReapOver(rows[..i + 1], nowMs, known, vanished, mailer)
              == ReapEvent(ReapOver(rows[..i], nowMs, known, vanished, mailer), rows[i], nowMs, vanished, mailer)
  {
    assert rows[..i + 1][..i] == rows[..i];
  }

  /** The deleted and warned lists only grow as the pass goes on. */
  lemma {:induction false} ReapOverGrows(rows: seq<EventRecord>, i: nat, j: nat, nowMs: int, known: set<UserId>,
                                         vanished: set<string>, mailer: Mailer)
    requires i <= j <= |rows|
    ensures var before := ReapOver(rows[..i], nowMs, known, vanished, mailer);
            var after := ReapOver(rows[..j], nowMs, known, vanished, mailer);
            before.deletedEvents <= after.deletedEvents && before.warned <= after.warned
    decreases j
  {
    if j > i {
      ReapOverGrows(rows, i, j - 1, nowMs, known, vanished, mailer);
      ReapOverStep(rows, j - 1, nowMs, known, vanished, mailer);
      var mid := ReapOver(rows[..j - 1], nowMs, known, vanished, mailer);
      var last := ReapOver(rows[..j], nowMs, known, vanished, mailer);
      assert mid.deletedEvents <= last.deletedEvents && mid.warned <= last.warned;
    }
  }

  /** An event is deleted only if, when the pass reached it, the pass was
      running, the event had the flag at 1 and an age above one week, its
      row was still there, and the notice to an organiser with a row went
      out without error. */
  lemma {:induction false} DeletedOnlyWhenWarnedAndNotified(rows: seq<EventRecord>, nowMs: int, known: set<UserId>,
                                                            vanished: set<string>, mailer: Mailer, id: string)
    requires id in ReapOver(rows, nowMs, known, vanished, mailer).deletedEvents
    ensures exists i :: 0 <= i < |rows| && rows[i].eventId == id
                        && Deletes(ReapOver(rows[..i], nowMs, known, vanished, mailer), rows[i], nowMs, vanished, mailer)
                        && rows[i].deletedWarningSent == 1 && nowMs - rows[i].updatedAt > DeleteAfterMs
  {
    var n := |rows| - 1;
    var front := rows[..n];
    ReapOverStep(rows, n, nowMs, known, vanished, mailer);
    ReapEventTransition(ReapOver(front, nowMs, known, vanished, mailer), rows[n], nowMs, vanished, mailer);
    assert rows[..n + 1] == rows;
    if id in ReapOver(front, nowMs, known, vanished, mailer).deletedEvents {
      DeletedOnlyWhenWarnedAndNotified(front, nowMs, known, vanished, mailer, id);
      var i :| 0 <= i < |front| && front[i].eventId == id
               && Deletes(ReapOver(front[..i], nowMs, known, vanished, mailer), front[i], nowMs, vanished, mailer)
               && front[i].deletedWarningSent == 1 && nowMs - front[i].updatedAt > DeleteAfterMs;
      assert front[..i] == rows[..i] && front[i] == rows[i];
    } else {
      assert rows[n].eventId == id;
    }
  }

  /** Conversely, an event whose deletion goes ahead when the pass reaches
      it is among the deleted events of the whole pass. */
  lemma DueEventDeleted(rows: seq<EventRecord>, i: nat, nowMs: int, known: set<UserId>, vanished: set<string>, mailer: Mailer)
    requires i < |rows|
    requires Deletes(ReapOver(rows[..i], nowMs, known, vanished, mailer), rows[i], nowMs, vanished, mailer)
    ensures rows[i].eventId in ReapOver(rows, nowMs, known, vanished, mailer).deletedEvents
  {
    ReapOverStep(rows, i, nowMs, known, vanished, mailer);
    ReapEventTransition(ReapOver(rows[..i], nowMs, known, vanished, mailer), rows[i], nowMs, vanished, mailer);
    ReapOverGrows(rows, i + 1, |rows|, nowMs, known, vanished, mailer);
    assert rows[..|rows|] == rows;
    var mid := ReapOver(rows[..i + 1], nowMs, known, vanished, mailer).deletedEvents;
    assert rows[i].eventId in mid by {
      assert mid[|mid| - 1] == rows[i].eventId;
    }
  }

  /** A warning flag is set only if, when the pass reached the event, the
      pass was running, the event was unwarned and older than three
      months, and an organiser with a row was mailed without error. */
  lemma {:induction false} WarnedOnlyWhenMailedOrOrphaned(rows: seq<EventRecord>, nowMs: int, known: set<UserId>,
                                                          vanished: set<string>, mailer: Mailer, id: string)
    requires id in ReapOver(rows, nowMs, known, vanished, mailer).warned
    ensures exists i :: 0 <= i < |rows| && rows[i].eventId == id
                        && Warns(ReapOver(rows[..i], nowMs, known, vanished, mailer), rows[i], nowMs, mailer)
                        && rows[i].deletedWarningSent == 0 && nowMs - rows[i].updatedAt > WarnAfterMs
  {
    var n := |rows| - 1;
    var front := rows[..n];
    ReapOverStep(rows, n, nowMs, known, vanished, mailer);
    ReapEventTransition(ReapOver(front, nowMs, known, vanished, mailer), rows[n], nowMs, vanished, mailer);
    assert rows[..n + 1] == rows;
    if id in ReapOver(front, nowMs, known, vanished, mailer).warned {
      WarnedOnlyWhenMailedOrOrphaned(front, nowMs, known, vanished, mailer, id);
      var i :| 0 <= i < |front| && front[i].eventId == id
               && Warns(ReapOver(front[..i], nowMs, known, vanished, mailer), front[i], nowMs, mailer)
               && front[i].deletedWarningSent == 0 && nowMs - front[i].updatedAt > WarnAfterMs;
      assert front[..i] == rows[..i] && front[i] == rows[i];
    } else {
      assert rows[n].eventId == id;
    }
  }

  /** Conversely, an event whose warning goes through when the pass
      reaches it is among the warned events of the whole pass. */
  lemma DueEventWarned(rows: seq<EventRecord>, i: nat, nowMs: int, known: set<UserId>, vanished: set<string>, mailer: Mailer)
    requires i < |rows|
    requires Warns(ReapOver(rows[..i], nowMs, known, vanished, mailer), rows[i], nowMs, mailer)
    ensures rows[i].eventId in ReapOver(rows, nowMs, known, vanished, mailer).warned
  {
    ReapOverStep(rows, i, nowMs, known, vanished, mailer);
    ReapEventTransition(ReapOver(rows[..i], nowMs, known, vanished, mailer), rows[i], nowMs, vanished, mailer);
    ReapOverGrows(rows, i + 1, |rows|, nowMs, known, vanished, mailer);
    assert rows[..|rows|] == rows;
    var mid := ReapOver(rows[..i + 1], nowMs, known, vanished, mailer).warned;
    assert rows[i].eventId in mid by {
      assert mid[|mid| - 1] == rows[i].eventId;
    }
  }

  /** The cascade of a deleted event removes its organiser and every
      attendee from the user table. */
  lemma CascadeRemovesEveryReferencedUser(st: ReapState, e: EventRecord, nowMs: int, vanished: set<string>, mailer: Mailer)
    requires e.eventId !in st.deletedEvents
    requires e.eventId in ReapEvent(st, e, nowMs, vanished, mailer).deletedEvents
    ensures var r := ReapEvent(st, e, nowMs, vanished, mailer);
            (Truthy(e.organiser) ==> e.organiser !in r.known)
            && forall u :: u in e.attendees.OrElse([]) ==> u !in r.known && u in r.deletedUsers
  {
  }
}
