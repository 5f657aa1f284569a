/** The `to_do` column of an event: a pair of task lists, pending and
    done. Covers `add-to-do`, `move-to-done`, `move-to-do` and
    `delete-to-do`. */
module Todo {
  import opened Common

  datatype Task = Task(taskId: string, creatorId: UserId, text: string, createdAt: string)

  datatype TodoList = TodoList(toDo: seq<Task>, done: seq<Task>)

  /** All tasks of a list pair, pending and done together. */
  function AllTasks(l: TodoList): multiset<Task> {
    multiset(l.toDo) + multiset(l.done)
  }

  // ---------------------------------------------------------------------
  // add-to-do

  /** `add-to-do`, with the fresh task id and the creation date as
      parameters. A missing row or a NULL column starts from two empty
      lists; on a missing row the write matches nothing and the handler
      still answers 201. */
  function AddTodo(col: Column<TodoList>, eventId: string, creatorId: UserId, text: string,
                   freshId: string, today: string): (r: Step<Column<TodoList>>)
    ensures r.outcome == BadRequest <==> !Truthy(eventId) || !Truthy(creatorId) || !Truthy(text)
    ensures r.outcome != BadRequest ==> r.outcome == Ok
    ensures r.outcome != Ok || col.NoRow? ==> r.next == col
    ensures r.outcome == Ok && !col.NoRow? ==>
              var before := col.OrElse(TodoList([], []));
              && r.next.Value?
              && r.next.v.toDo == before.toDo + [Task(freshId, creatorId, text, today)]
              && r.next.v.done == before.done
              && AllTasks(r.next.v) == AllTasks(before) + multiset{Task(freshId, creatorId, text, today)}
  {
    if !Truthy(eventId) || !Truthy(creatorId) || !Truthy(text) then Step(BadRequest, col)
    else if col.NoRow? then Step(Ok, col)
    else
      var before := col.OrElse(TodoList([], []));
      Step(Ok, Value(before.(toDo := before.toDo + [Task(freshId, creatorId, text, today)])))
  }

  // ---------------------------------------------------------------------
  // Moving a task between the lists

  /** `list.findIndex(task => task.task_id === id)`. */
  function IndexOfTask(s: seq<Task>, id: string): (i: int)
    ensures -1 <= i < |s|
    ensures i == -1 <==> forall k :: 0 <= k < |s| ==> s[k].taskId != id
    ensures 0 <= i ==> s[i].taskId == id && forall k :: 0 <= k < i ==> s[k].taskId != id
  {
    if s == [] then -1
    else if s[0].taskId == id then 0
    else
      var j := IndexOfTask(s[1..], id);
      if j == -1 then -1 else j + 1
  }

  datatype Moved = Moved(found: bool, from: seq<Task>, to: seq<Task>)

  /** `splice(i, 1)` the first task with the id out of `from` and `push`
      it onto `to`. */
  function MoveFirst(from: seq<Task>, to: seq<Task>, id: string): (m: Moved)
    ensures m.found <==> exists t :: t in from && t.taskId == id
    ensures !m.found ==> m.from == from && m.to == to
    ensures m.found ==>
              var i := IndexOfTask(from, id);
              && 0 <= i
              && m.from == from[..i] + from[i + 1..]
              && m.to == to + [from[i]]
  {
    var i := IndexOfTask(from, id);
    if i == -1 then
      assert forall t :: t in from ==> t.taskId != id by {
        forall t | t in from ensures t.taskId != id {
          var k :| 0 <= k < |from| && from[k] == t;
        }
      }
      Moved(false, from, to)
    else
      assert from[i] in from;
      Moved(true, from[..i] + from[i + 1..], to + [from[i]])
  }

  /** A move loses and invents no task: the two lists hold between them
      the same tasks as before. */
  lemma MoveFirstKeepsTasks(from: seq<Task>, to: seq<Task>, id: string)
    ensures var m := MoveFirst(from, to, id);
            && |m.from| + |m.to| == |from| + |to|
            && multiset(m.from) + multiset(m.to) == multiset(from) + multiset(to)
  {
    var i := IndexOfTask(from, id);
    if i != -1 {
      assert from == from[..i] + [from[i]] + from[i + 1..];
    }
  }

  /** The handlers' `findIndex`, `splice` and `push`. */
  method MoveTask(from: seq<Task>, to: seq<Task>, id: string) returns (m: Moved)
    ensures m == MoveFirst(from, to, id)
  {
    var i := 0;
    while i < |from| && from[i].taskId != id
      invariant 0 <= i <= |from|
      invariant forall k :: 0 <= k < i ==> from[k].taskId != id
    {
      i := i + 1;
    }
    if i == |from| {
      return Moved(false, from, to);
    }
    var task := from[i];
    m := Moved(true, from[..i] + from[i + 1..], to + [task]);
  }

  /** `move-to-done`. A NULL column makes the handler throw on
      `toDoList.to_do`, which answers 500. */
  function MoveToDone(col: Column<TodoList>, eventId: string, taskId: string): (r: Step<Column<TodoList>>)
    ensures r.outcome == BadRequest <==> !Truthy(eventId) || !Truthy(taskId)
    ensures r.outcome == ServerError <==> Truthy(eventId) && Truthy(taskId) && col.Null?
    ensures r.outcome == NotFound <==>
              Truthy(eventId) && Truthy(taskId)
              && (col.NoRow? || (col.Value? && forall t :: t in col.v.toDo ==> t.taskId != taskId))
    ensures r.outcome in {Ok, BadRequest, ServerError, NotFound}
    ensures r.outcome != Ok ==> r.next == col
    ensures r.outcome == Ok ==>
              && col.Value? && r.next.Value?
              && AllTasks(r.next.v) == AllTasks(col.v)
              && |r.next.v.toDo| + 1 == |col.v.toDo| && |r.next.v.done| == |col.v.done| + 1
              && r.next.v.done[..|col.v.done|] == col.v.done
              && r.next.v.done[|col.v.done|] == col.v.toDo[IndexOfTask(col.v.toDo, taskId)]
    ensures r.outcome == Ok ==>
              col.Value? && r.next.Value? &&
              var i := IndexOfTask(col.v.toDo, taskId);
              0 <= i && r.next.v.toDo == col.v.toDo[..i] + col.v.toDo[i + 1..]
  {
    if !Truthy(eventId) || !Truthy(taskId) then Step(BadRequest, col)
    else if col.NoRow? then Step(NotFound, col)
    else if col.Null? then Step(ServerError, col)
    else
      var m := MoveFirst(col.v.toDo, col.v.done, taskId);
      MoveFirstKeepsTasks(col.v.toDo, col.v.done, taskId);
      if !m.found then Step(NotFound, col)
      else
        var i := IndexOfTask(col.v.toDo, taskId);
        assert m.from == col.v.toDo[..i] + col.v.toDo[i + 1..];
        Step(Ok, Value(TodoList(m.from, m.to)))
  }

  /** What a successful `move-to-do` writes, stated once for its proof. */
  lemma MoveBackFacts(l: TodoList, taskId: string)
    requires exists t :: t in l.done && t.taskId == taskId
    ensures var m := MoveFirst(l.done, l.toDo, taskId);
            var n := TodoList(m.to, m.from);
            var i := IndexOfTask(l.done, taskId);
            && 0 <= i
            && AllTasks(n) == AllTasks(l)
            && |n.done| + 1 == |l.done| && |n.toDo| == |l.toDo| + 1
            && n.toDo[..|l.toDo|] == l.toDo
            && n.toDo[|l.toDo|] == l.done[i]
            && n.done == l.done[..i] + l.done[i + 1..]
  {
    var m := MoveFirst(l.done, l.toDo, taskId);
    MoveFirstKeepsTasks(l.done, l.toDo, taskId);
    assert multiset(m.to) + multiset(m.from) == multiset(m.from) + multiset(m.to);
  }

  /** `move-to-do`: the mirror image of `move-to-done`. */
  function MoveToDo(col: Column<TodoList>, eventId: string, taskId: string): (r: Step<Column<TodoList>>)
    ensures r.outcome == BadRequest <==> !Truthy(eventId) || !Truthy(taskId)
    ensures r.outcome == ServerError <==> Truthy(eventId) && Truthy(taskId) && col.Null?
    ensures r.outcome == NotFound <==>
              Truthy(eventId) && Truthy(taskId)
              && (col.NoRow? || (col.Value? && forall t :: t in col.v.done ==> t.taskId != taskId))
    ensures r.outcome in {Ok, BadRequest, ServerError, NotFound}
    ensures r.outcome != Ok ==> r.next == col
    ensures r.outcome == Ok ==>
              && col.Value? && r.next.Value?
              && AllTasks(r.next.v) == AllTasks(col.v)
              && |r.next.v.done| + 1 == |col.v.done| && |r.next.v.toDo| == |col.v.toDo| + 1
              && r.next.v.toDo[..|col.v.toDo|] == col.v.toDo
              && r.next.v.toDo[|col.v.toDo|] == col.v.done[IndexOfTask(col.v.done, taskId)]
    ensures r.outcome == Ok ==>
              col.Value? && r.next.Value? &&
              var i := IndexOfTask(col.v.done, taskId);
              0 <= i && r.next.v.done == col.v.done[..i] + col.v.done[i + 1..]
  {
    if !Truthy(eventId) || !Truthy(taskId) then Step(BadRequest, col)
    else if col.NoRow? then Step(NotFound, col)
    else if col.Null? then Step(ServerError, col)
    else
      var m := MoveFirst(col.v.done, col.v.toDo, taskId);
      if !m.found then Step(NotFound, col)
      else
        MoveBackFacts(col.v, taskId);
        Step(Ok, Value(TodoList(m.to, m.from)))
  }

  /** Moving a task to done and back leaves the done list as it was (when
      it held no task with that id) and puts the very same task, with its
      fields unchanged, at the end of the pending list. */
  lemma DoneAndBack(l: TodoList, eventId: string, taskId: string)
    requires MoveToDone(Value(l), eventId, taskId).outcome == Ok
    requires forall t :: t in l.done ==> t.taskId != taskId
    ensures var back := MoveToDo(MoveToDone(Value(l), eventId, taskId).next, eventId, taskId);
            && back.outcome == Ok
            && back.next.v.done == l.done
            && back.next.v.toDo[|back.next.v.toDo| - 1] == l.toDo[IndexOfTask(l.toDo, taskId)]
            && multiset(back.next.v.toDo) == multiset(l.toDo)
  {
    var there := MoveFirst(l.toDo, l.done, taskId);
    MoveFirstAndBack(l.toDo, l.done, taskId);
    assert MoveToDone(Value(l), eventId, taskId).next == Value(TodoList(there.from, there.to));
  }

  /** Moving the first task with an id from one list to the other and back
      restores the other list and returns the same task to the end of the
      first. */
  lemma MoveFirstAndBack(from: seq<Task>, to: seq<Task>, id: string)
    requires exists t :: t in from && t.taskId == id
    requires forall t :: t in to ==> t.taskId != id
    ensures var there := MoveFirst(from, to, id);
            var back := MoveFirst(there.to, there.from, id);
            && back.found && back.from == to
            && back.to[|back.to| - 1] == from[IndexOfTask(from, id)]
            && multiset(back.to) == multiset(from)
  {
    var i := IndexOfTask(from, id);
    var rest, task := from[..i] + from[i + 1..], from[i];
    MoveOutFound(from, to, id);
    MoveBackFromEnd(to, rest, task, id);
    SpliceThenPush(from, i);
    assert (rest + [task])[|rest + [task]| - 1] == task;
  }

  /** When some task has the id, the move takes the first one. */
  lemma MoveOutFound(from: seq<Task>, to: seq<Task>, id: string)
    requires exists t :: t in from && t.taskId == id
    ensures var i := IndexOfTask(from, id);
            && 0 <= i
            && MoveFirst(from, to, id) == Moved(true, from[..i] + from[i + 1..], to + [from[i]])
  {
  }

  /** Splicing an element out and pushing it back keeps every count. */
  lemma SpliceThenPush(s: seq<Task>, i: nat)
    requires i < |s|
    ensures multiset(s[..i] + s[i + 1..] + [s[i]]) == multiset(s)
  {
    assert s == s[..i] + [s[i]] + s[i + 1..];
  }

  /** A task pushed onto a list with no other task of its id is the one
      the next move with that id takes, and taking it leaves the list as
      it was. */
  lemma MoveBackFromEnd(s: seq<Task>, other: seq<Task>, task: Task, id: string)
    requires forall t :: t in s ==> t.taskId != id
    requires task.taskId == id
    ensures MoveFirst(s + [task], other, id) == Moved(true, s, other + [task])
  {
    IndexOfTaskAfter(s, task, id);
    assert (s + [task])[..|s|] == s;
    assert (s + [task])[|s| + 1..] == [];
  }

  lemma {:induction false} IndexOfTaskAfter(s: seq<Task>, t: Task, id: string)
    requires forall x :: x in s ==> x.taskId != id
    requires t.taskId == id
    ensures IndexOfTask(s + [t], id) == |s|
  {
    if s != [] {
      assert (s + [t])[1..] == s[1..] + [t];
      IndexOfTaskAfter(s[1..], t, id);
    }
  }

  // ---------------------------------------------------------------------
  // delete-to-do

  /** `list.filter(task => task.task_id !== id)`. */
  function WithoutTask(s: seq<Task>, id: string): (r: seq<Task>)
    ensures forall t :: t in r <==> t in s && t.taskId != id
    ensures forall t :: multiset(r)[t] == if t.taskId != id then multiset(s)[t] else 0
    ensures (forall t :: t in s ==> t.taskId != id) ==> r == s
  {
    var r := Filter(s, (t: Task) => t.taskId != id);
    assert (forall t :: t in s ==> t.taskId != id) ==> r == s by {
      if forall t :: t in s ==> t.taskId != id {
        FilterKeepsAll(s, (t: Task) => t.taskId != id);
      }
    }
    r
  }

  /** `delete-to-do`: every task with the id leaves both lists; it
      succeeds even when nothing matched. */
  function DeleteTodo(col: Column<TodoList>, eventId: string, taskId: string): (r: Step<Column<TodoList>>)
    ensures r.outcome == BadRequest <==> !Truthy(eventId) || !Truthy(taskId)
    ensures r.outcome == NotFound <==> Truthy(eventId) && Truthy(taskId) && col.NoRow?
    ensures r.outcome == ServerError <==> Truthy(eventId) && Truthy(taskId) && col.Null?
    ensures r.outcome in {Ok, BadRequest, NotFound, ServerError}
    ensures r.outcome != Ok ==> r.next == col
    ensures r.outcome == Ok ==>
              && col.Value? && r.next.Value?
              && (forall t :: t in r.next.v.toDo <==> t in col.v.toDo && t.taskId != taskId)
              && (forall t :: t in r.next.v.done <==> t in col.v.done && t.taskId != taskId)
              && ((forall t :: t in col.v.toDo || t in col.v.done ==> t.taskId != taskId) ==> r.next == col)
              && (forall t :: multiset(r.next.v.toDo)[t] == if t.taskId != taskId then multiset(col.v.toDo)[t] else 0)
              && (forall t :: multiset(r.next.v.done)[t] == if t.taskId != taskId then multiset(col.v.done)[t] else 0)
              && r.next == Value(TodoList(WithoutTask(col.v.toDo, taskId), WithoutTask(col.v.done, taskId)))
  {
    if !Truthy(eventId) || !Truthy(taskId) then Step(BadRequest, col)
    else if col.NoRow? then Step(NotFound, col)
    else if col.Null? then Step(ServerError, col)
    else Step(Ok, Value(TodoList(WithoutTask(col.v.toDo, taskId), WithoutTask(col.v.done, taskId))))
  }
}
