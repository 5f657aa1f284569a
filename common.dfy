/** Shared vocabulary of the event planner model: optional values, handler
    outcomes, the three shapes a loaded JSON column can take, and the
    order-preserving filter that every `Array.prototype.filter` in the
    handlers denotes. */
module Common {

  type UserId = string

  datatype Option<T> = None | Some(value: T)
  {
    /** `x || fallback` for a nullable column or request field. */
    function OrElse(fallback: T): T {
      if Some? then value else fallback
    }
  }

  /** What a route handler answers. Each non-`Ok` value stands for one
      family of 4xx/5xx branches in the handlers. */
  datatype Outcome =
    | Ok            // 200 or 201
    | BadRequest    // 400: a required request field is missing or malformed
    | InvalidState  // 400: well-formed, but the stored collection does not allow it
    | Forbidden     // 403
    | NotFound      // 404
    | Conflict      // 409
    | ServerError   // 500 reached by the handler's own logic (not a store failure)

  /** A handler as a transition: the outcome and the value written back
      (equal to the prior value when nothing is written). */
  datatype Step<T> = Step(outcome: Outcome, next: T)

  /** The result of `SELECT column FROM ... WHERE key = ?`: no row at all,
      a row whose column is NULL, or a row holding a value. */
  datatype Column<T> = NoRow | Null | Value(v: T)
  {
    /** `rows[0].column || fallback` once a row is known to exist. */
    function OrElse(fallback: T): T {
      if Value? then v else fallback
    }
  }

  /** The kinds of e-mail the background passes and the retention reset
      send. */
  datatype Notice =
    | UpcomingReminder    // "Reminder: <title> is coming up!"
    | DayOfReminder       // "Reminder: <title> is Today!"
    | DeletionWarning     // "Reminder: <title> is going to be Deleted!"
    | DeletionNotice      // "Event Deleted"
    | RescueNotice        // "Event Will Not Be Deleted"

  /** The e-mail collaborator as an oracle: whether sending the given
      notice for the given event to the given user returns without
      throwing. */
  type Mailer = (Notice, string, UserId) -> bool

  /** One send attempted by a background pass. */
  datatype Delivery = Delivery(notice: Notice, eventId: string, recipient: UserId)

  /** A `user_details` row. */
  datatype User = User(userId: UserId, email: string, username: string, fingerprint: string, role: string, profilePic: int)

  /** JavaScript truthiness of a string field: only the empty string (which
      also stands for `undefined` and `null` request fields) is falsy. */
  predicate Truthy(s: string) {
    s != ""
  }

  /** `s.filter(keep)`: the elements that satisfy `keep`, in their order. */
  function Filter<T(!new)>(s: seq<T>, keep: T -> bool): (r: seq<T>)
    ensures |r| <= |s|
    ensures forall x :: x in r <==> x in s && keep(x)
    ensures forall x :: multiset(r)[x] == if keep(x) then multiset(s)[x] else 0
  {
    if s == [] then []
    else
      assert s == [s[0]] + s[1..];
      (if keep(s[0]) then [s[0]] else []) + Filter(s[1..], keep)
  }

  /** Filtering distributes over concatenation: the survivors keep their
      relative order. */
  lemma {:induction false} FilterAppend<T(!new)>(a: seq<T>, b: seq<T>, keep: T -> bool)
    ensures Filter(a + b, keep) == Filter(a, keep) + Filter(b, keep)
  {
    if a == [] {
      assert a + b == b;
    } else {
      ConsConcat(a, b);
      FilterAppend(a[1..], b, keep);
      ConcatAssoc(if keep(a[0]) then [a[0]] else [], Filter(a[1..], keep), Filter(b, keep));
    }
  }

  /** A filter that every element passes changes nothing. */
  lemma {:induction false} FilterKeepsAll<T(!new)>(s: seq<T>, keep: T -> bool)
    requires forall x :: x in s ==> keep(x)
    ensures Filter(s, keep) == s
  {
    if s != [] {
      FilterKeepsAll(s[1..], keep);
    }
  }

  /** Two filters in a row are one filter by both tests. */
  lemma {:induction false} FilterTwice<T(!new)>(s: seq<T>, first: T -> bool, second: T -> bool, both: T -> bool)
    requires forall x :: both(x) == (first(x) && second(x))
    ensures Filter(Filter(s, first), second) == Filter(s, both)
  {
    if s != [] {
      var head := if first(s[0]) then [s[0]] else [];
      FilterTwice(s[1..], first, second, both);
      FilterAppend(head, Filter(s[1..], first), second);
      if first(s[0]) {
        assert head[1..] == [];
      }
    }
  }

  /** `s.filter(y => y !== x)`: every occurrence of `x` removed, the rest
      in order. */
  function RemoveAll<T(==,!new)>(s: seq<T>, x: T): (r: seq<T>)
    ensures |r| <= |s|
    ensures x !in r
    ensures forall y :: y in r <==> y in s && y != x
    ensures multiset(r) == multiset(s)[x := 0]
    ensures x !in s ==> r == s
  {
    if s == [] then []
    else
      assert s == [s[0]] + s[1..];
      (if s[0] == x then [] else [s[0]]) + RemoveAll(s[1..], x)
  }

  /** Removal distributes over concatenation. */
  lemma {:induction false} RemoveAllAppend<T(!new)>(a: seq<T>, b: seq<T>, x: T)
    ensures RemoveAll(a + b, x) == RemoveAll(a, x) + RemoveAll(b, x)
  {
    if a == [] {
      assert a + b == b;
    } else {
      ConsConcat(a, b);
      RemoveAllAppend(a[1..], b, x);
      ConcatAssoc(if a[0] == x then [] else [a[0]], RemoveAll(a[1..], x), RemoveAll(b, x));
    }
  }

  /** The head and tail of a concatenation with a non-empty front. */
  lemma ConsConcat<T>(a: seq<T>, b: seq<T>)
    requires a != []
    ensures (a + b)[0] == a[0] && (a + b)[1..] == a[1..] + b
  {
    assert (a + b)[1..] == a[1..] + b;
  }

  /** Concatenation is associative. */
  lemma ConcatAssoc<T>(a: seq<T>, b: seq<T>, c: seq<T>)
    ensures a + (b + c) == (a + b) + c
  {
  }

  /** True when no element occurs twice. */
  predicate NoDuplicates<T(==)>(s: seq<T>) {
    forall i, j :: 0 <= i < j < |s| ==> s[i] != s[j]
  }

  /** Two duplicate-free sequences with nothing in common join into one. */
  lemma NoDuplicatesAppend<T>(a: seq<T>, b: seq<T>)
    requires NoDuplicates(a) && NoDuplicates(b)
    requires forall x :: x in a ==> x !in b
    ensures NoDuplicates(a + b)
  {
    forall i, j | 0 <= i < j < |a + b| ensures (a + b)[i] != (a + b)[j] {
      if j >= |a| && i < |a| {
        assert (a + b)[i] in a && (a + b)[j] in b;
      }
    }
  }
}
