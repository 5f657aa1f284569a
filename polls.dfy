/** The `polls` column of an event: a map from poll id to poll, each poll
    holding a map from option text to the ids of the users who voted for
    it. Covers `create-poll`, the `cast-vote` toggle, `delete-poll` and
    `remove-vote`. */
module Polls {
  import opened Common

  type Options = map<string, seq<UserId>>

  datatype Poll = Poll(title: string, description: string, createdBy: UserId, createdAt: string,
                       priority: string, options: Options)

  type PollTable = map<string, Poll>

  const ValidPriorities: seq<string> := ["level-1", "level-2", "level-3"]

  // ---------------------------------------------------------------------
  // create-poll

  /** Every listed option with no voters; a repeated option is one key. */
  function EmptyBallot(options: seq<string>): (b: Options)
    ensures b.Keys == set o | o in options
    ensures forall o :: o in b ==> b[o] == []
  {
    map o | o in options :: []
  }

  /** The `options.forEach(option => poll.options[option] = [])` loop. */
  method FillOptions(options: seq<string>) returns (b: Options)
    ensures b == EmptyBallot(options)
  {
    b := map[];
    var i := 0;
    while i < |options|
      invariant 0 <= i <= |options|
      invariant b == EmptyBallot(options[..i])
    {
      assert options[..i + 1] == options[..i] + [options[i]];
      b := b[options[i] := []];
      i := i + 1;
    }
    assert options[..i] == options;
  }

  datatype NewPoll = NewPoll(eventId: string, pollId: string, title: string, description: string,
                             options: Option<seq<string>>, userId: UserId, priority: string)

  /** `create-poll`. `options` is `None` when the field is missing or not
      an array. A missing row or a NULL column starts from an empty table;
      on a missing row the write matches nothing. An existing poll with
      the same id is replaced. */
  function CreatePoll(polls: Column<PollTable>, req: NewPoll, createdAt: string): (r: Step<Column<PollTable>>)
    ensures r.outcome == BadRequest <==>
              !Truthy(req.eventId) || !Truthy(req.pollId) || !Truthy(req.title) || !Truthy(req.description)
              || req.options.None? || !Truthy(req.userId) || req.priority !in ValidPriorities
    ensures r.outcome != BadRequest ==> r.outcome == Ok
    ensures r.outcome != Ok || polls.NoRow? ==> r.next == polls
    ensures r.outcome == Ok && !polls.NoRow? ==>
              && r.next.Value?
              && req.pollId in r.next.v
              && r.next.v[req.pollId]
                   == Poll(req.title, req.description, req.userId, createdAt, req.priority, EmptyBallot(req.options.value))
              && r.next.v[req.pollId].createdBy == req.userId
              && r.next.v[req.pollId].priority in ValidPriorities
              && r.next.v[req.pollId].options.Keys == set o | o in req.options.value
              && (forall o :: o in r.next.v[req.pollId].options ==> r.next.v[req.pollId].options[o] == [])
              && r.next.v.Keys == polls.OrElse(map[]).Keys + {req.pollId}
              && forall id :: id in polls.OrElse(map[]) && id != req.pollId ==> r.next.v[id] == polls.OrElse(map[])[id]
  {
    if !Truthy(req.eventId) || !Truthy(req.pollId) || !Truthy(req.title) || !Truthy(req.description)
       || req.options.None? || !Truthy(req.userId) || req.priority !in ValidPriorities then
      Step(BadRequest, polls)
    else if polls.NoRow? then Step(Ok, polls)
    else
      var poll := Poll(req.title, req.description, req.userId, createdAt, req.priority, EmptyBallot(req.options.value));
      Step(Ok, Value(polls.OrElse(map[])[req.pollId := poll]))
  }

  // ---------------------------------------------------------------------
  // cast-vote

  /** `options[o].filter(voter => voter !== user)` for every option. */
  function WithdrawEverywhere(options: Options, userId: UserId): (w: Options)
    ensures w.Keys == options.Keys
    ensures forall o :: o in w ==> w[o] == RemoveAll(options[o], userId)
  {
    map o | o in options :: RemoveAll(options[o], userId)
  }

  /** The toggle: a voter already on the selected option is removed from
      it; anyone else is removed from every option and appended to the
      selected one. */
  function Toggle(options: Options, userId: UserId, selected: string): (t: Options)
    requires selected in options
    ensures t.Keys == options.Keys
    ensures userId in options[selected] ==>
              t[selected] == RemoveAll(options[selected], userId)
              && forall o :: o in options && o != selected ==> t[o] == options[o]
    ensures userId !in options[selected] ==>
              t[selected] == options[selected] + [userId]
              && forall o :: o in options && o != selected ==> t[o] == RemoveAll(options[o], userId)
  {
    if userId in options[selected] then options[selected := RemoveAll(options[selected], userId)]
    else
      var w := WithdrawEverywhere(options, userId);
      w[selected := w[selected] + [userId]]
  }

  /** The switch branch's `Object.keys(poll.options).forEach(...)` loop,
      followed by the push. Each key is rewritten independently, so the
      order of the keys does not matter. */
  method SwitchVote(options: Options, userId: UserId, selected: string) returns (t: Options)
    requires selected in options && userId !in options[selected]
    ensures t == Toggle(options, userId, selected)
  {
    t := options;
    var todo := options.Keys;
    while todo != {}
      invariant todo <= options.Keys
      invariant t.Keys == options.Keys
      invariant forall o :: o in options && o !in todo ==> t[o] == RemoveAll(options[o], userId)
      invariant forall o :: o in todo ==> t[o] == options[o]
      decreases todo
    {
      var o :| o in todo;
      t := t[o := RemoveAll(t[o], userId)];
      todo := todo - {o};
    }
    SameMaps(t, WithdrawEverywhere(options, userId));
    t := t[selected := t[selected] + [userId]];
  }

  /** Two maps with the same keys and the same value at every key are
      equal. */
  lemma SameMaps<K, V>(a: map<K, V>, b: map<K, V>)
    requires a.Keys == b.Keys && forall k :: k in a ==> a[k] == b[k]
    ensures a == b
  {
  }

  datatype Vote = Vote(eventId: string, pollId: string, userId: UserId, selected: string)

  /** `cast-vote`. A missing row or a NULL column, an unknown poll or an
      unknown option answer `NotFound` and write nothing. */
  function CastVote(polls: Column<PollTable>, v: Vote): (r: Step<Column<PollTable>>)
    ensures r.outcome == BadRequest <==> !Truthy(v.eventId) || !Truthy(v.pollId) || !Truthy(v.userId) || !Truthy(v.selected)
    ensures r.outcome == NotFound <==>
              r.outcome != BadRequest
              && (!polls.Value? || v.pollId !in polls.v || v.selected !in polls.v[v.pollId].options)
    ensures r.outcome in {Ok, BadRequest, NotFound}
    ensures r.outcome != Ok ==> r.next == polls
    ensures r.outcome == Ok ==>
              && polls.Value? && r.next.Value?
              && r.next.v.Keys == polls.v.Keys
              && (forall id :: id in polls.v && id != v.pollId ==> r.next.v[id] == polls.v[id])
              && r.next.v[v.pollId] == polls.v[v.pollId].(options := Toggle(polls.v[v.pollId].options, v.userId, v.selected))
  {
    if !Truthy(v.eventId) || !Truthy(v.pollId) || !Truthy(v.userId) || !Truthy(v.selected) then Step(BadRequest, polls)
    else if !polls.Value? || v.pollId !in polls.v || v.selected !in polls.v[v.pollId].options then Step(NotFound, polls)
    else
      var poll := polls.v[v.pollId];
      Step(Ok, Value(polls.v[v.pollId := poll.(options := Toggle(poll.options, v.userId, v.selected))]))
  }

  /** After a vote that was not an unvote, the user is a voter of the
      selected option and of no other option. */
  lemma VoteLandsInExactlyOneOption(options: Options, userId: UserId, selected: string)
    requires selected in options && userId !in options[selected]
    ensures var t := Toggle(options, userId, selected);
            forall o :: o in t ==> (userId in t[o] <==> o == selected)
  {
  }

  /** Casting the same vote twice restores the options when the user had
      not voted in the poll before. */
  lemma CastTwiceRestores(options: Options, userId: UserId, selected: string)
    requires selected in options
    requires forall o :: o in options ==> userId !in options[o]
    ensures Toggle(Toggle(options, userId, selected), userId, selected) == options
  {
    var once := Toggle(options, userId, selected);
    RemoveAllAppend(options[selected], [userId], userId);
    assert RemoveAll([userId], userId) == [];
    assert once[selected] == options[selected] + [userId];
    var twice := Toggle(once, userId, selected);
    assert twice[selected] == options[selected];
    forall o | o in options && o != selected
      ensures twice[o] == options[o]
    {
      assert twice[o] == once[o];
    }
    SameMaps(twice, options);
  }

  // ---------------------------------------------------------------------
  // delete-poll and remove-vote

  /** `delete-poll`: only the creator may delete; success removes exactly
      that key. */
  function DeletePoll(polls: Column<PollTable>, eventId: string, pollId: string, userId: UserId): (r: Step<Column<PollTable>>)
    ensures r.outcome == BadRequest <==> !Truthy(eventId) || !Truthy(pollId) || !Truthy(userId)
    ensures r.outcome == NotFound <==> r.outcome != BadRequest && (!polls.Value? || pollId !in polls.v)
    ensures r.outcome == Forbidden <==>
              r.outcome != BadRequest && polls.Value? && pollId in polls.v && polls.v[pollId].createdBy != userId
    ensures r.outcome in {Ok, BadRequest, NotFound, Forbidden}
    ensures r.outcome != Ok ==> r.next == polls
    ensures r.outcome == Ok ==>
              polls.Value? && r.next == Value(polls.v - {pollId}) && pollId in polls.v && polls.v[pollId].createdBy == userId
  {
    if !Truthy(eventId) || !Truthy(pollId) || !Truthy(userId) then Step(BadRequest, polls)
    else if !polls.Value? || pollId !in polls.v then Step(NotFound, polls)
    else if polls.v[pollId].createdBy != userId then Step(Forbidden, polls)
    else Step(Ok, Value(polls.v - {pollId}))
  }

  /** Creating a poll under a fresh id and having its creator delete it
      gives back the table it started from. */
  lemma CreateThenDelete(table: PollTable, req: NewPoll, createdAt: string)
    requires CreatePoll(Value(table), req, createdAt).outcome == Ok
    requires req.pollId !in table
    ensures DeletePoll(CreatePoll(Value(table), req, createdAt).next, req.eventId, req.pollId, req.userId) == Step(Ok, Value(table))
  {
    var poll := CreatePoll(Value(table), req, createdAt).next.v;
    assert poll - {req.pollId} == table;
  }

  /** `remove-vote`: the user must be a voter of the option; only that
      option changes. */
  function RemoveVote(polls: Column<PollTable>, v: Vote): (r: Step<Column<PollTable>>)
    ensures r.outcome == BadRequest <==> !Truthy(v.eventId) || !Truthy(v.pollId) || !Truthy(v.userId) || !Truthy(v.selected)
    ensures r.outcome == NotFound <==>
              r.outcome != BadRequest
              && (!polls.Value? || v.pollId !in polls.v || v.selected !in polls.v[v.pollId].options)
    ensures r.outcome == InvalidState <==>
              r.outcome != BadRequest && r.outcome != NotFound && v.userId !in polls.v[v.pollId].options[v.selected]
    ensures r.outcome in {Ok, BadRequest, NotFound, InvalidState}
    ensures r.outcome != Ok ==> r.next == polls
    ensures r.outcome == Ok ==>
              var opts := polls.v[v.pollId].options;
              && r.next.Value? && r.next.v.Keys == polls.v.Keys
              && (forall id :: id in polls.v && id != v.pollId ==> r.next.v[id] == polls.v[id])
              && r.next.v[v.pollId].options.Keys == opts.Keys
              && r.next.v[v.pollId].options[v.selected] == RemoveAll(opts[v.selected], v.userId)
              && (forall o :: o in opts && o != v.selected ==> r.next.v[v.pollId].options[o] == opts[o])
  {
    if !Truthy(v.eventId) || !Truthy(v.pollId) || !Truthy(v.userId) || !Truthy(v.selected) then Step(BadRequest, polls)
    else if !polls.Value? || v.pollId !in polls.v || v.selected !in polls.v[v.pollId].options then Step(NotFound, polls)
    else
      var poll := polls.v[v.pollId];
      if v.userId !in poll.options[v.selected] then Step(InvalidState, polls)
      else
        var opts := poll.options[v.selected := RemoveAll(poll.options[v.selected], v.userId)];
        Step(Ok, Value(polls.v[v.pollId := poll.(options := opts)]))
  }

  /** `remove-vote` undoes a first vote: casting and removing the same
      vote restores the table. */
  lemma CastThenRemove(table: PollTable, v: Vote)
    requires CastVote(Value(table), v).outcome == Ok
    requires forall o :: o in table[v.pollId].options ==> v.userId !in table[v.pollId].options[o]
    ensures RemoveVote(CastVote(Value(table), v).next, v) == Step(Ok, Value(table))
  {
    var poll := table[v.pollId];
    var t := Toggle(poll.options, v.userId, v.selected);
    assert CastVote(Value(table), v) == Step(Ok, Value(table[v.pollId := poll.(options := t)]));
    assert v.userId in t[v.selected];
    RemoveVoteAt(table, v, t);
    UnvoteUndoesVote(poll.options, v.userId, v.selected);
    assert table[v.pollId := poll] == table by {
      SameMaps(table[v.pollId := poll], table);
    }
  }

  /** `remove-vote` on a table whose poll holds `opts` with the user among
      the voters of the selected option. */
  lemma RemoveVoteAt(table: PollTable, v: Vote, opts: Options)
    requires Truthy(v.eventId) && Truthy(v.pollId) && Truthy(v.userId) && Truthy(v.selected)
    requires v.pollId in table && v.selected in opts && v.userId in opts[v.selected]
    ensures var poll := table[v.pollId];
            RemoveVote(Value(table[v.pollId := poll.(options := opts)]), v)
              == Step(Ok, Value(table[v.pollId := poll.(options := opts[v.selected := RemoveAll(opts[v.selected], v.userId)])]))
  {
    var poll := table[v.pollId];
    var cast := table[v.pollId := poll.(options := opts)];
    var after := poll.(options := opts[v.selected := RemoveAll(opts[v.selected], v.userId)]);
    SameMaps(cast[v.pollId := after], table[v.pollId := after]);
  }

  /** Removing the voter from the selected option after a first vote gives
      back the options before the vote. */
  lemma UnvoteUndoesVote(options: Options, userId: UserId, selected: string)
    requires selected in options
    requires forall o :: o in options ==> userId !in options[o]
    ensures var t := Toggle(options, userId, selected);
            t[selected := RemoveAll(t[selected], userId)] == options
  {
    var t := Toggle(options, userId, selected);
    CastTwiceRestores(options, userId, selected);
    assert userId in t[selected];
  }
}
