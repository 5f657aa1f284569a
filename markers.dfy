/** Per-path "last visited" markers: the `last_updated` column of an event
    and the `last_opened` column of a user are both lists of
    `{path, timestamp}` entries maintained by the same upsert. */
module Markers {

  datatype Marker = Marker(path: string, timestamp: string)

  /** No two markers share a path. */
  predicate PathsUnique(ms: seq<Marker>) {
    forall i, j :: 0 <= i < j < |ms| ==> ms[i].path != ms[j].path
  }

  /** `ms.findIndex(entry => entry.path === path)`: the first index whose
      marker has `path`, or -1 when there is none. */
  function IndexOfPath(ms: seq<Marker>, path: string): (i: int)
    ensures -1 <= i < |ms|
    ensures i == -1 ==> forall k :: 0 <= k < |ms| ==> ms[k].path != path
    ensures 0 <= i ==> ms[i].path == path && forall k :: 0 <= k < i ==> ms[k].path != path
  {
    if ms == [] then -1
    else if ms[0].path == path then 0
    else
      var j := IndexOfPath(ms[1..], path);
      if j == -1 then -1 else j + 1
  }

  /** The upsert: an existing path gets the new timestamp in place, an
      unknown path is appended as one new entry. */
  function Upsert(ms: seq<Marker>, path: string, timestamp: string): (r: seq<Marker>)
    ensures |ms| <= |r| <= |ms| + 1
    ensures IndexOfPath(ms, path) == -1 ==> r == ms + [Marker(path, timestamp)]
    ensures 0 <= IndexOfPath(ms, path) ==>
              |r| == |ms|
              && r[IndexOfPath(ms, path)] == Marker(path, timestamp)
              && forall k :: 0 <= k < |ms| && k != IndexOfPath(ms, path) ==> r[k] == ms[k]
    ensures forall k :: 0 <= k < |ms| ==> r[k].path == ms[k].path
    ensures PathsUnique(ms) ==> PathsUnique(r)
  {
    var i := IndexOfPath(ms, path);
    if i == -1 then ms + [Marker(path, timestamp)]
    else ms[i := ms[i].(timestamp := timestamp)]
  }

  /** After an upsert the path has exactly the new timestamp, whichever
      branch was taken, provided paths were unique before. */
  lemma UpsertRecordsTimestamp(ms: seq<Marker>, path: string, timestamp: string)
    requires PathsUnique(ms)
    ensures var r := Upsert(ms, path, timestamp);
            forall k :: 0 <= k < |r| && r[k].path == path ==> r[k].timestamp == timestamp
  {
  }

  /** Upserting the same path twice keeps only the second timestamp and
      grows the list at most once. */
  lemma UpsertTwice(ms: seq<Marker>, path: string, t1: string, t2: string)
    ensures Upsert(Upsert(ms, path, t1), path, t2) == Upsert(ms, path, t2)
  {
    var once := Upsert(ms, path, t1);
    var i := IndexOfPath(ms, path);
    if i == -1 {
      assert IndexOfPath(once, path) == |ms| by {
        IndexOfPathAppend(ms, Marker(path, t1));
      }
    } else {
      assert IndexOfPath(once, path) == i by {
        IndexOfPathSamePaths(ms, once, path);
      }
    }
  }

  lemma {:induction false} IndexOfPathAppend(ms: seq<Marker>, m: Marker)
    requires IndexOfPath(ms, m.path) == -1
    ensures IndexOfPath(ms + [m], m.path) == |ms|
  {
    if ms != [] {
      assert (ms + [m])[1..] == ms[1..] + [m];
      IndexOfPathAppend(ms[1..], m);
    }
  }

  lemma {:induction false} IndexOfPathSamePaths(a: seq<Marker>, b: seq<Marker>, path: string)
    requires |a| == |b|
    requires forall k :: 0 <= k < |a| ==> a[k].path == b[k].path
    ensures IndexOfPath(a, path) == IndexOfPath(b, path)
  {
    if a != [] {
      IndexOfPathSamePaths(a[1..], b[1..], path);
    }
  }

  /** The handlers' loop: `findIndex`, then either the in-place timestamp
      assignment or a `push`. */
  method UpsertInPlace(ms: seq<Marker>, path: string, timestamp: string) returns (r: seq<Marker>)
    ensures r == Upsert(ms, path, timestamp)
  {
    var i := 0;
    while i < |ms| && ms[i].path != path
      invariant 0 <= i <= |ms|
      invariant forall k :: 0 <= k < i ==> ms[k].path != path
    {
      i := i + 1;
    }
    if i < |ms| {
      r := ms[i := ms[i].(timestamp := timestamp)];
    } else {
      r := ms + [Marker(path, timestamp)];
    }
  }
}
