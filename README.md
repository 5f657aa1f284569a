# Event planner core, modelled in Dafny

This project models the decision logic of an Express/MySQL event planner.
Every route handler in the planner loads one column of an `event_details`
or `user_details` row, changes it in JavaScript and writes it back. Here
each handler is a transition from the prior column value and the request to
an outcome and the value written back. The outcomes are success, BadRequest,
InvalidState (a 400 caused by stored state), Forbidden, NotFound, Conflict
and ServerError (a 500 raised by the handler's own logic). `Column<T>` tells
a missing row apart from a NULL column.

The daily background service is modelled as one pass over a sequence of
event rows:

- the reminder dispatcher, `sendReminderEmails`;
- the retention reaper, `DeleteOldEvents`.

Where the source works step by step, the model is imperative. Each such
loop becomes a `method` with a `while` loop, proved equal to a
specification function. These loops are:

- the `forEach`/`for` loops;
- `findIndex` followed by `splice`/`push`;
- the retry `while` in `migrate-event`.

The properties the source promises are then proved about those functions.

Modules, one per source file, plus shared vocabulary:

- `Common`: `Option`, `Outcome`, `Step`, `Column`, the mailer oracle and an order-preserving `Filter`/`RemoveAll`.
- `Markers`: the per-path "last visited" upsert, shared by `update-last-update` and `update-last-opened`.
- `Events`: `isUUID`, create-event defaults, confirm/cancel/reopen, the last-update upsert, and the migrate-event retry loop.
- `Reminders`: the reminder pass, covering:
  - selection;
  - the leaked `earliestDate`;
  - the location string;
  - the recipients;
  - the triggers;
  - "flag only if every send succeeded";
  - the pass ending at a read of the unassigned `earliestDate`.
- `Reaper`: the warn/delete decision, the users deleted with an event, and the whole pass.
- `Attendees`: fetch-attendees, request-access, reject-request, promote/demote and kick-user.
- `Users`: the retention reset, create-user, login, auto-sign-in, update-last-opened, update-user and leave-event.
- `Polls`: create-poll, cast-vote, delete-poll and remove-vote.
- `Todo`: add-to-do, move-to-done, move-to-do and delete-to-do.
- `Comments`: add-comment and delete-comment.
- `Links`: add-link and delete-link.
- `Calendar`: set-availability, update-chosen-date and fetch-availability.

Where the planner's apparent intent and its code disagree, the model
follows the code:

- The deletion threshold is measured from `updated_at`, not from the time of the warning. An event warned at 90 days is deleted on the next pass (`Reaper.NoGraceAfterWarning`).
- No status transition checks the prior status (`Events.TransitionsIgnoreStatus`).
- Reopen leaves `reminder_sent` and `daily_reminder_sent` as they were (`Events.ConfirmThenReopen`).
- Reads and writes are unguarded. No compare-and-swap is modelled.
- During login, a join request with the user's e-mail answers "pending" whatever that request's status is, even "rejected" (`Users.RejectedRequestStillPending`).
- `earliestDate` is an undeclared variable in the reminder pass. An event without chosen dates therefore reuses the previous event's earliest date, and can get a day-of reminder because of it (`Reminders.EarliestDateLeaks`).
- Until some event with chosen dates has been processed, `earliestDate` is unassigned and reading it throws. Inside the per-recipient `try` of the upcoming reminder this fails every send to a known user. At the day-of test, which is outside any `try`, it ends the whole pass (`Reminders.UnassignedEarliestStopsPass`).

## Model

| member | source | states |
|---|---|---|
| Markers.Upsert | src/routes/events.js:404-421 | An existing path keeps its position and gets only the new timestamp. A new path is appended. The length grows by at most one. No other marker changes, and path uniqueness is preserved. |
| Markers.UpsertRecordsTimestamp | src/routes/events.js:404-421 | After an upsert on a list with unique paths, the path has exactly one marker, carrying the new timestamp. |
| Markers.UpsertTwice | src/routes/events.js:404-421 | A second upsert of the same path overrides the first: the result equals a single upsert with the later timestamp. |
| Markers.UpsertInPlace | src/routes/users.js:504-518 | The `findIndex` then in-place assignment or `push` equals the upsert specification. |
| Events.FormattedIsUUID | src/routes/events.js:7 | Every dash-joined string of 8-4-4-4-12 hex groups, in either case, passes `isUUID`. |
| Events.UUIDIsFormatted | src/routes/events.js:7 | Every string that passes `isUUID` is such a dash-joined string of hex groups. |
| Events.DurationOrOne | src/routes/events.js:76 | `Number(duration) \|\| 1` is never 0 and keeps every non-zero number. |
| Events.NullIfEmpty | src/routes/events.js:70-73 | `value \|\| null`: NULL exactly for an empty field, the value otherwise. |
| Events.CreateEvent | src/routes/events.js:41-142 | Create-event validates in order: a supplied non-UUID id is BadRequest, then the four required fields. The inserted row has the given or generated id, title, dates, location and organiser, the description and reminder time with empty read as NULL, `Number(duration) \|\| 1`, the status as given (default "pending"), no chosen dates, attendees or cancellation reason, cleared flags and `updated_at` now. A missing organiser row answers 404 after the row is already inserted, and no other outcome is possible. |
| Events.Confirm | src/routes/events.js:207-229 | Confirm needs an id, a reminder date and a non-empty date array (else BadRequest). A missing event is NotFound, and every other request succeeds. Success sets status confirmed, the reminder time and the chosen dates, and changes no other column. |
| Events.Cancel | src/routes/events.js:276-297 | A missing id is BadRequest and a missing event NotFound; every other request succeeds. Success sets status canceled and a NULL reminder time. The reason is stored as given, as "" when absent, and as NULL when sent as `null`. The chosen dates and every other column stay as they were. |
| Events.Reopen | src/routes/events.js:349-372 | A missing id is BadRequest and a missing event NotFound; every other request succeeds. Success sets status pending and clears the reminder time and chosen dates, and nothing else. |
| Events.ConfirmThenReopen | src/routes/events.js:356-363 | Create, confirm, reopen: the event is pending with no reminder time or chosen dates, every column outside the lifecycle is as created, the cancellation reason is as created, and the reminder flags are as confirm left them. |
| Events.TransitionsIgnoreStatus | src/routes/events.js:207-372 | Two rows that differ only in status get the same outcome from confirm, cancel and reopen, and the same row afterwards. |
| Events.UpdateLastUpdate | src/routes/events.js:383-421 | Update-last-update requires the event id, path and timestamp. A missing event is NotFound, and every other request succeeds. A NULL column starts from the empty list. Success writes exactly the path upsert of the raw timestamp, so the marker is present, uniqueness is kept and the list grows by at most one. |
| Events.MigrateEvent | src/routes/events.js:473-509 | A missing id is BadRequest. Otherwise the retry loop finds a new id exactly when some candidate is free, and it is the first free candidate. With no free candidate the answer is ServerError, a case the source never reaches. With a new id, a missing event is NotFound, and every other request succeeds. On success the id set loses the old id and gains the new one, and nothing else changes. |
| Reminders.SelectForReminders | src/services/reminderEmails.js:18-21 | Exactly the confirmed rows with a reminder time are considered, each with a non-null reminder time. |
| Reminders.MinDay | src/services/reminderEmails.js:35-43 | The earliest date is one of the chosen dates and no later than any of them. |
| Reminders.NextEarliest | src/services/reminderEmails.js:35-43 | The leaked `earliestDate` is the minimum day of a non-empty chosen-dates list. With empty chosen dates the previous event's value is kept. |
| Reminders.LocationParts | src/services/reminderEmails.js:48-64 | The parts are the non-empty city, address, country and postcode, in that order. The list is empty exactly when all four are empty. |
| Reminders.LocationString | src/services/reminderEmails.js:48-64 | No location, or an all-empty one, gives "TBA". Otherwise the result is the parts joined with ", ". |
| Reminders.BuildLocationString | src/services/reminderEmails.js:48-64 | The `push`-and-join code equals the location-string specification. |
| Reminders.Recipients | src/services/reminderEmails.js:69-87 | The recipients are the attendees, with a truthy organiser unshifted only when absent. A duplicate-free attendee list gives duplicate-free recipients. |
| Reminders.Attempts | src/services/reminderEmails.js:94-138 | A send is attempted for exactly the recipients with a user row. Recipients without a row are skipped. |
| Reminders.SendAll | src/services/reminderEmails.js:94-138 | The per-recipient loop attempts one send per recipient with a user row and reports "all sent" exactly when none threw. A missing user row does not clear success. When the message itself cannot be built, nothing is sent and success holds exactly when no recipient has a user row. |
| Reminders.DueRemindersAttempted | src/services/reminderEmails.js:91-184 | A due trigger whose message can be built is attempted for every recipient with a user row. |
| Reminders.ProcessEvent | src/services/reminderEmails.js:33-191 | The event aborts the pass exactly when it has recipients and `earliestDate` was never assigned. Each flag is written exactly when its trigger is due and every send for it succeeded; with `earliestDate` unassigned the upcoming sends all throw, so its flag is written only when no recipient has a user row. Every delivery goes to a recipient of this event with a user row, for a due trigger. |
| Reminders.HandleEvent | src/services/reminderEmails.js:33-191 | The loop body, including the stop at the day-of test when `earliestDate` is unassigned, equals the per-event specification. |
| Reminders.StoppedPassIsFinal | src/services/reminderEmails.js:143 | Once an event has aborted the pass, later rows change nothing. |
| Reminders.SendReminderEmails | src/services/reminderEmails.js:14-196 | The whole pass, which ends at the first aborting event, equals the fold of the per-event effects over the selected rows, with the earliest date as loop state. |
| Reminders.ReminderFlagSound | src/services/reminderEmails.js:91-138 | A `reminder_sent` write in a pass comes from a row whose upcoming reminder was due. |
| Reminders.SentFlagStopsUpcoming | src/services/reminderEmails.js:91 | A row with `reminder_sent = 1` gets no upcoming reminder and no new flag write. |
| Reminders.BothTriggersSameDay | src/services/reminderEmails.js:91-191 | When the reminder date and the earliest chosen date are both today and every send succeeds, both flags are set in the same pass. |
| Reminders.EarliestDateLeaks | src/services/reminderEmails.js:35-43 | A row without chosen dates that follows a row whose earliest date is today gets its daily flag set from the leaked value. |
| Reminders.UnassignedEarliestStopsPass | src/services/reminderEmails.js:91-143 | In a fresh process, an event with recipients and no chosen dates aborts the pass: no reminder goes out, at most its `reminder_sent` is written (only when no recipient has a user row), and no later row is processed. |
| Reaper.Decide | src/services/reminderEmails.js:210-211 | Delete exactly when the age exceeds 7 days and the warning flag is 1. Warn exactly when the age exceeds 90 days and the flag is 0. Otherwise keep, so never both. |
| Reaper.NoGraceAfterWarning | src/services/reminderEmails.js:228 | Once an age warrants a warning, any later age with the flag set is a deletion: there is no 7-day grace after the warning. |
| Reaper.DeletionTargets | src/services/reminderEmails.js:245-259 | The users deleted with an event are exactly the truthy organiser plus every attendee id. |
| Reaper.ReapEvent | src/services/reminderEmails.js:226-342 | After a stop nothing changes. The pass stops exactly when a due deletion finds its row gone. Deleted users leave the known set. The deleted and warned lists grow by at most this event. |
| Reaper.Gone | src/services/reminderEmails.js:245-259 | The set of users a deletion removes is exactly the deletion targets. |
| Reaper.ReapEventTransition | src/services/reminderEmails.js:226-342 | The whole new state: the event is deleted, with its users removed, exactly when the pass runs, the decision is Delete, the row is still there and the notice to an organiser with a user row did not throw. The flag is set exactly when the pass runs, the decision is Warn and an organiser with a user row was mailed without error. The organiser with a user row is mailed exactly for a due warning or a due deletion whose row is still there. |
| Reaper.DeleteOldEvents | src/services/reminderEmails.js:199-347 | The loop, including the early `return` when a re-selected row has vanished, equals the fold of the per-event step. |
| Reaper.StoppedPassIsFinal | src/services/reminderEmails.js:232-240 | Once the pass has returned early, further rows change nothing. |
| Reaper.ReapOverStep | src/services/reminderEmails.js:213 | One more row of the scan is one more per-event step. |
| Reaper.ReapOverGrows | src/services/reminderEmails.js:213-342 | The deleted and warned lists only grow, as prefixes, during a pass. |
| Reaper.KnownShrinksByDeleted | src/services/reminderEmails.js:276-287 | The user rows left after a pass are the initial ones minus the deleted users. |
| Reaper.DeletedOnlyWhenWarnedAndNotified | src/services/reminderEmails.js:228-287 | Every deleted event comes from a row reached while the pass was running, with the warning flag set, older than the deletion threshold, found by the re-select, and whose notice to an organiser with a user row went out without error. |
| Reaper.DueEventDeleted | src/services/reminderEmails.js:228-287 | Conversely, an event whose deletion goes ahead when the pass reaches it ends up among the deleted events. |
| Reaper.WarnedOnlyWhenMailedOrOrphaned | src/services/reminderEmails.js:294-342 | Every warned event comes from a row reached while the pass was running, with the flag 0, older than the warning threshold, and whose organiser either has no user row or was mailed without error. |
| Reaper.DueEventWarned | src/services/reminderEmails.js:294-342 | Conversely, an event whose warning goes through when the pass reaches it ends up among the warned events. |
| Reaper.CascadeRemovesEveryReferencedUser | src/services/reminderEmails.js:245-287 | Deleting an event removes the organiser and every attendee from the known users. |
| Attendees.AddUnique | src/routes/attendees.js:73-85 | Adding an id to the set-backed list adds exactly that id and keeps it duplicate-free. |
| Attendees.AddAllTruthyProperties | src/routes/attendees.js:73-85 | Adding ids skips falsy ones, keeps the earlier ids first and introduces no duplicates. |
| Attendees.CombinedIds | src/routes/attendees.js:73-85 | The combined ids are duplicate-free, are exactly the truthy organiser and attendee ids, start with the organiser, and are empty exactly when no id is truthy. |
| Attendees.BuildCombinedIds | src/routes/attendees.js:73-85 | The `Set`-building loop equals the combined-id specification. |
| Attendees.FindUser | src/routes/attendees.js:107 | `find` gives none exactly when no row has the id. Otherwise it gives a row of the table with that id. |
| Attendees.FindUserFirst | src/routes/attendees.js:107 | `find` returns the row at the first index holding the id. |
| Attendees.FindUserCons | src/routes/attendees.js:107 | `find` on a list with a known first row: that row when it has the id, otherwise the rest. |
| Attendees.FindUserFiltered | src/routes/attendees.js:94-107 | Looking up the organiser among the rows the `IN (...)` query returns gives the first table row with that id. |
| Attendees.FetchAttendees | src/routes/attendees.js:5-116 | A missing id is BadRequest and a missing event NotFound; any other request succeeds. Empty combined ids answer an empty listing. Otherwise the organiser is the first table row with the organiser id (none exactly when the id is falsy or has no row), the attendees are exactly the fetched rows of other users in table order, and the requests are returned. |
| Attendees.RequestAccess | src/routes/attendees.js:121-163 | Request-access validates its four fields (BadRequest) and answers NotFound for a missing event. Every other request succeeds and appends exactly one "pending" request, with no de-duplication. |
| Attendees.RequestTwiceAppendsTwice | src/routes/attendees.js:156-163 | Two requests with the same e-mail leave two entries. |
| Attendees.RejectRequest | src/routes/attendees.js:179-217 | Missing fields are BadRequest. A missing event or no request with the e-mail is NotFound. Every other request succeeds: only the first request with the e-mail becomes "rejected", and every other entry is unchanged. |
| Attendees.RejectFirstMatch | src/routes/attendees.js:210-217 | The `findIndex` loop finds the first match and changes only that entry's status. |
| Attendees.SetRoleIfAttendee | src/routes/attendees.js:293-302 | Missing fields are BadRequest, a non-attendee is a 400 (InvalidState), and a missing event or a listed user without a user row is a 404. Every other request succeeds and sets exactly that user's role. |
| Attendees.Promote | src/routes/attendees.js:251-310 | Missing fields are BadRequest and a non-attendee a 400 (InvalidState). A promote succeeds exactly when the user is a listed attendee with a user row, and is NotFound exactly for a missing event or user row; no other outcome is possible. Success sets exactly that user's role to "admin" and keeps every other user's role. |
| Attendees.Demote | src/routes/attendees.js:317-376 | Missing fields are BadRequest and a non-attendee a 400 (InvalidState). A demote succeeds exactly when the user is a listed attendee with a user row, and is NotFound exactly for a missing event or user row; no other outcome is possible. Success sets exactly that user's role to "attendee" and keeps every other user's role. |
| Attendees.PromoteThenDemote | src/routes/attendees.js:293-302 | Promote then demote succeeds and leaves the user an attendee, with the other roles as they were. |
| Attendees.Kick | src/routes/attendees.js:383-448 | Missing fields are BadRequest and kicking a non-attendee is a 400. A missing event, or a listed user without a user row, is NotFound; every other request succeeds. For a listed user, every occurrence of the id leaves the list, the rest keep their order, and the list is written before the user row is deleted. |
| Users.UpdateEventLastUpdated | src/routes/users.js:10-70 | The reset always clears `deleted_warning_sent` and stamps `updated_at`, and changes nothing else. It sends the rescue notice exactly when the prior flag was 1 and the organiser has a user row. |
| Users.TouchedEventSurvives | src/routes/users.js:10-70 | After a reset, no later reaper decision deletes the event, and within three months of the reset the reaper keeps it. |
| Users.TouchTwice | src/routes/users.js:10-70 | Two resets equal one reset at the later time, and the second sends no rescue notice. |
| Users.MissingFields | src/routes/users.js:77-81 | Each of email, name, fingerprint and profileNum is reported exactly when it is missing, and nothing else is reported. A profileNum of 0 is accepted. |
| Users.MissingFieldsDistinct | src/routes/users.js:77-81 | No field is reported twice. |
| Users.RoleOrAttendee | src/routes/users.js:92-93 | An unknown role becomes "attendee". A valid role is kept. |
| Users.JoinAttendees | src/routes/users.js:154-159 | The new id is appended only if absent, so no duplicate is introduced. |
| Users.CreateUser | src/routes/users.js:74-189 | Create-user answers BadRequest exactly when a field is missing; otherwise the user row is inserted with the defaulted role. An unknown event is NotFound with the user already inserted. The attendee list is written exactly when an event id is given and the event exists, and then the event row with that list gets the retention reset. The join notice is sent exactly when, in addition to an existing event, the requested role is "attendee". |
| Users.FirstAuthorized | src/routes/users.js:269-313 | The answer names a row of the scan: as organiser only with the organiser id, as attendee only with a listed id other than the organiser. It is "not authorized" exactly when no row is either. |
| Users.FirstAuthorizedIsFirst | src/routes/users.js:269-313 | The decision comes from the first row that is the organiser or an attendee: as organiser when its id is the organiser's, as attendee otherwise. |
| Users.ScanUserRows | src/routes/users.js:269-313 | The `for` loop over user rows equals the first-authorized specification. |
| Users.Login | src/routes/users.js:191-362 | The decision order is: missing fields, then a missing event, then "pending" when any request has the e-mail, then the organiser or attendee match among the user rows with that e-mail. Login answers "not authorized" exactly when the fields are present, the event exists, no request has the e-mail and no row with the e-mail is the organiser or an attendee. |
| Users.WithEmail | src/routes/users.js:256-259 | The user rows the login query returns are exactly the rows with that e-mail. |
| Users.WithEmailAround | src/routes/users.js:256-259 | A row with the e-mail sits in the query result right after the earlier rows with that e-mail, in table order. |
| Users.LoginPicksFirstMatchingRow | src/routes/users.js:245-313 | With no request under the e-mail, login decides by the first table row with that e-mail that is the organiser or an attendee. |
| Users.RejectedRequestStillPending | src/routes/users.js:245-253 | A rejected request still makes login answer "pending". |
| Users.AttendeeMatches | src/routes/users.js:441-473 | The attendee rows whose fingerprint matches, exactly. |
| Users.AutoSignIn | src/routes/users.js:375-480 | An organiser fingerprint match wins. Otherwise exactly one matching attendee signs in, and two or more fail as duplicates. |
| Users.OrganiserFingerprintWins | src/routes/users.js:425-436 | A matching organiser fingerprint signs in as the organiser whatever the attendees are. |
| Users.UpdateLastOpened | src/routes/users.js:483-518 | Update-last-opened requires its three fields and answers NotFound on a missing user; every other request succeeds. Success writes exactly the path upsert of `new Date(timestamp)`, so that marker is present, uniqueness is kept and the list grows by at most one. |
| Users.UpdateUser | src/routes/users.js:569-631 | Update-user validates, answers NotFound for an unknown user or event, answers Conflict exactly when the e-mail belongs to the organiser (not self) or another attendee, and otherwise succeeds and writes the new fields. |
| Users.FindEmail | src/routes/users.js:608-631 | Some row with the e-mail, or none exactly when no row has it. |
| Users.LeaveEvent | src/routes/users.js:690-730 | Missing fields are BadRequest, a missing event NotFound, and leaving as a non-attendee a 400. Every other request succeeds: every occurrence of the id leaves the attendee list, and the user row is deleted. |
| Users.JoinThenLeave | src/routes/users.js:154-159 | Joining and then leaving restores the attendee list. |
| Polls.EmptyBallot | src/routes/polls.js:64-75 | Every listed option maps to an empty voter list, and there are no other options. |
| Polls.FillOptions | src/routes/polls.js:64-75 | The `forEach` that fills the options equals the empty-ballot specification. |
| Polls.CreatePoll | src/routes/polls.js:34-88 | Create-poll rejects missing fields and any priority outside level-1..3. It stores under the poll id exactly the poll with the given title, description, creator, creation time, priority and an empty ballot for the listed options, and leaves the other polls untouched. |
| Polls.WithdrawEverywhere | src/routes/polls.js:129-133 | The user is removed from every option, and the options stay the same. |
| Polls.Toggle | src/routes/polls.js:124-135 | A repeated vote removes the user from the selected option only. Otherwise the user leaves every option and is appended to the selected one. |
| Polls.SwitchVote | src/routes/polls.js:129-135 | The loop over the options equals the toggle specification. |
| Polls.CastVote | src/routes/polls.js:90-153 | Missing fields are BadRequest. A missing poll or option is NotFound and changes nothing. Every other vote succeeds and changes only that poll's options, by the toggle. |
| Polls.VoteLandsInExactlyOneOption | src/routes/polls.js:129-135 | After a new vote the user is in exactly one option, the selected one. |
| Polls.CastTwiceRestores | src/routes/polls.js:124-135 | Casting the same vote twice, when the user had not voted in the poll, restores the options. |
| Polls.DeletePoll | src/routes/polls.js:155-197 | Missing fields are BadRequest, a missing poll is NotFound and a non-creator Forbidden. Every other request succeeds and removes exactly that key. |
| Polls.CreateThenDelete | src/routes/polls.js:155-197 | Deleting a freshly created poll as its creator restores the table. |
| Polls.RemoveVote | src/routes/polls.js:199-237 | Missing fields are BadRequest and a missing poll or option NotFound. Removing a vote the user did not cast is a 400. Every other request succeeds, and the user leaves that option only. |
| Polls.CastThenRemove | src/routes/polls.js:199-237 | Removing a vote just cast, from no prior vote, restores the table. |
| Polls.UnvoteUndoesVote | src/routes/polls.js:232-237 | Removing the user from the selected option undoes a new vote. |
| Todo.AddTodo | src/routes/to-do.js:27-68 | Add-to-do appends one task to `to_do` and leaves `done` alone. An absent list starts as two empty lists, and the multiset of tasks grows by exactly the new task. |
| Todo.IndexOfTask | src/routes/to-do.js:83-91 | `findIndex`: the first task with the id, or -1 exactly when there is none. |
| Todo.MoveFirst | src/routes/to-do.js:83-91 | A task moves exactly when one has the id. The first matching task is spliced out and pushed onto the other list. Nothing moves when there is no match. |
| Todo.MoveFirstKeepsTasks | src/routes/to-do.js:83-91 | A move loses and invents no task: the two lists together keep their length and their multiset of tasks. |
| Todo.MoveTask | src/routes/to-do.js:83-91 | The `findIndex`/`splice`/`push` code equals the move specification. |
| Todo.MoveToDone | src/routes/to-do.js:71-103 | Move-to-done: missing fields are BadRequest, a NULL column a 500, and a missing event or an id missing from `to_do` NotFound. Every other request succeeds: the first task with the id is spliced out of `to_do`, the rest keep their order, the identical task is appended to `done`, and the total is unchanged. |
| Todo.MoveToDo | src/routes/to-do.js:105-137 | Move-to-do is the mirror image of move-to-done, with the same outcomes: the first task with the id is spliced out of `done` in order and appended to `to_do`. |
| Todo.MoveBackFacts | src/routes/to-do.js:105-137 | A move out of `done` keeps every task: the first task with the id is spliced out of `done` in order and appended to `to_do`, and each list changes length by one. |
| Todo.DoneAndBack | src/routes/to-do.js:117-125 | Moving a task to done and back restores `done` and returns the identical task to `to_do`. |
| Todo.MoveFirstAndBack | src/routes/to-do.js:83-91 | Moving the first task with an id to a list with no task of that id, and back, restores that list. The same task returns to the end of the first list, whose multiset is unchanged. |
| Todo.WithoutTask | src/routes/to-do.js:151-157 | The filter keeps exactly every task with another id, each as often as before. With no match it is the identity. |
| Todo.DeleteTodo | src/routes/to-do.js:139-157 | Missing fields are BadRequest, a missing event NotFound and a NULL column a 500; every other request succeeds, even when nothing matched, and then changes nothing. Success writes both lists filtered by the id: each keeps exactly its tasks with other ids, each as often as before, in order. |
| Comments.NewComment | src/routes/comments.js:50-56 | A falsy `reply_to` becomes null. Otherwise the reply target is kept. |
| Comments.AddComment | src/routes/comments.js:37-87 | Add-comment requires event id, user id and message. A missing event is NotFound. Otherwise exactly the new comment is appended. |
| Comments.WithoutIdsContents | src/routes/comments.js:113-114 | The filter keeps exactly the comments whose id is not in the set, each as often as before. |
| Comments.WithoutIdsAppend | src/routes/comments.js:113-114 | The filter keeps the survivors' order. |
| Comments.DeleteComments | src/routes/comments.js:89-114 | A missing event is NotFound, and every other request succeeds, even when no comment matched. Success writes the `filter` of the list: exactly the comments not named, each as often as before, in their old order. |
| Comments.RepliesAreOrphaned | src/routes/comments.js:113-114 | A reply to a deleted comment survives, pointing at no remaining comment. |
| Comments.AddThenDelete | src/routes/comments.js:37-114 | Deleting a just-added comment's id restores the list. |
| Links.AddLink | src/routes/links.js:32-78 | Add-link requires link, added_by and event_id. It appends exactly one entry and keeps the existing entries. A missing event still answers 200. |
| Links.WithoutUrlContents | src/routes/links.js:102-107 | The filter keeps exactly the entries for other URLs, and it shortens the list exactly when some entry matched. |
| Links.WithoutUrlAppend | src/routes/links.js:102 | The filter keeps the survivors' order. |
| Links.DeleteLink | src/routes/links.js:80-107 | Missing fields are BadRequest. A missing event, or no entry for the URL, is NotFound with the list unchanged. Every other request succeeds and writes the `filter` of the list: every entry for the URL is removed, and the others keep their count and order. |
| Links.AddThenDelete | src/routes/links.js:32-107 | Deleting a just-added URL restores the list. |
| Links.DeleteTwice | src/routes/links.js:102-107 | A second delete of the same URL is NotFound. |
| Calendar.ApplyUpdate | src/routes/calender.js:198-211 | A null status deletes the date. A valid status sets it. Any other status is skipped. |
| Calendar.ApplyUpdates | src/routes/calender.js:198-211 | The `forEach` mutating the map equals the in-order fold of the updates. |
| Calendar.Decided | src/routes/calender.js:198-211 | The reference definition: a date's decided status is a valid status or its prior value. |
| Calendar.ApplyAllIsDecided | src/routes/calender.js:198-211 | The fold agrees on every date with the reference definition: the last null-or-valid update for a date decides. |
| Calendar.UnmentionedDateKept | src/routes/calender.js:198-211 | A date that no update names keeps its prior value, or stays absent. |
| Calendar.LaterUpdateWins | src/routes/calender.js:198-211 | A later valid or null update for a date overrides every earlier one. |
| Calendar.StatusesStayValid | src/routes/calender.js:198-211 | Only valid statuses are ever stored. |
| Calendar.SetAvailability | src/routes/calender.js:155-230 | A missing user id or a non-array update list is BadRequest, and a missing user NotFound. A NULL column starts from the empty map. |
| Calendar.Normalise | src/routes/calender.js:247 | The argument becomes an array, and a null date becomes the string "null". |
| Calendar.Toggle | src/routes/calender.js:272-280 | A present date leaves with all its occurrences. An absent one is appended. Other dates are unaffected. |
| Calendar.ToggleTwice | src/routes/calender.js:272-280 | Toggling one date twice restores the chosen set, and every count when the date occurred at most once. An absent date restores the very list. |
| Calendar.ToggleKeepsAtMostOnce | src/routes/calender.js:272-280 | Toggling introduces no duplicate date. |
| Calendar.ToggleAllParity | src/routes/calender.js:272-280 | A date is chosen afterwards exactly when it was toggled an odd number of times away from its prior state. |
| Calendar.ToggleDates | src/routes/calender.js:272-280 | The reassigning and pushing loop equals the in-order fold of toggles. |
| Calendar.UpdateChosenDate | src/routes/calender.js:232-300 | A missing event id or an undefined date is BadRequest, and a missing event NotFound. A NULL column starts empty. |
| Calendar.MemberIds | src/routes/calender.js:72 | `[organiser, ...attendees].filter(Boolean)`: exactly the truthy organiser and attendee ids. |
| Calendar.LastOrganiserRow | src/routes/calender.js:101-102 | The organiser slot holds the organiser's last row, and is empty exactly when no row is the organiser's. |
| Calendar.OtherRows | src/routes/calender.js:103-105 | Exactly the rows of other users are pushed. |
| Calendar.SplitRows | src/routes/calender.js:92-106 | The `forEach` over the rows equals the organiser/attendee split. |
| Calendar.EventRows | src/routes/calender.js:80-84 | The `IN (...)` query returns exactly the table rows whose id is a member id of the event. |
| Calendar.FetchAvailability | src/routes/calender.js:44-113 | A missing id is BadRequest. A missing event is NotFound, and so is an empty id list; every other request succeeds. On success the organiser slot holds the organiser's last fetched row, and `attendees` holds every fetched row of another user, in table order and with repeats kept. |

## Left out

- Database access, JSON parsing and serialisation of columns, and SQL errors: each handler is modelled between the load and the write. A failing query's 500 is not modelled, and neither are `affectedRows === 0` branches after a successful select, which are unreachable without concurrency.
- Concurrency: reads and writes are sequential, and no locking is invented.
- The cron schedule: one pass of each background job is modelled, not the timer.
- The e-mail service is an oracle `(notice, event, recipient) -> bool`. Templates and HTML are not modelled.
- Reminders.SendReminderEmails: an abort is modelled as the end of the pass. The rejected async callback is unhandled in the source, and whether that also ends the Node process depends on the runtime's settings, which are not modelled.
- Users.UpdateLastOpened: `new Date(timestamp)` and its JSON form are the parameter `asDate`. Which strings are valid dates is not modelled.
- Dates: `moment` and `Date` are abstracted as `dayOf: string -> int` for days and as integer milliseconds for ages. Local-versus-UTC differences and unparseable dates are not modelled.
- JWT signing, token hashing, uuid generation: fresh ids and clocks are parameters.
- Users.Login: login also stores the new fingerprint on the matched user row and resets the event's retention fields (twice in the attendee path). Only the decision is modelled. Auto-sign-in only reads, so its decision is all it does.
- Confirm and cancel also e-mail every member. The fan-out is not modelled.
- Reaper.DeleteOldEvents: `now` is one value for the whole pass, where the source reads the clock per event. The delete branch's re-select is modelled only as present or vanished, using the snapshot values.
- Events.MigrateEvent: the unbounded retry `while` is driven by a finite sequence of generated candidates. Running out of candidates answers ServerError, a case the source never reaches.
- Events.CreateEvent: fractional durations and non-numeric strings are modelled as an optional integer. The "Trip Created" e-mail to the organiser is sent without waiting for it and is not modelled. A `status` sent as JSON `null` is stored as NULL in the source; the model's status is a string.
- Users.UpdateUser: an undefined and a null `profile_pic` are not distinguished.
- Users.CreateUser: `name.split(" ")` throws only for a name that is not a string. Request fields are strings here, so that 500 is not modelled. The "Event Joined" e-mail is sent before the user row is inserted; the model records only whether it was sent.
- Attendee columns that hold a truthy non-array value are not modelled. Such a column is either NULL or a list.
- Calendar.UpdateChosenDate: non-string chosen dates converted by `String(...)` are taken to be strings already, and a stored column that is not an array is not modelled.
- Calendar.SetAvailability: an unparseable stored availability (the handler's 500) is not modelled, and an empty string column is read as NULL.
- Comments.AddComment and Links.AddLink: the fresh uuid and creation time are parameters.
- The read-only handlers (fetch-event, fetch-event-status, fetch-calendar, fetch-links, fetch-polls, fetch-to-do, fetch-comments, fetch-last-update, fetch-last-opened, fetch-user-availability, fetch-username), and update-event (in `src/routes/events.js` and in `src/routes/settings.js`), clear-availability, location, set-is-coming and update-requests, are plain single-row reads or writes with no logic beyond required fields and a 404 for a missing row.
- `src/services/confirmation.js` is not mounted by the server and is not part of this model.
