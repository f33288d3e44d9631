/** The two tables the core reads and writes, the database object the route
    handlers mutate, and the `ORDER BY start_time` used by the slot queries. */
module Store {
  import opened Outcomes
  import opened EventModel
  import opened SwapRequestModel

  /** A row as the handlers return it: primary key and columns. */
  datatype Row = Row(id: int, event: Event)
  datatype RequestRow = RequestRow(id: int, request: SwapRequest)

  /** The whole persisted state: `events`, `swap_requests`, and the next value of
      each table's primary-key sequence. */
  datatype Tables = Tables(
    slots: map<int, Event>,
    requests: map<int, SwapRequest>,
    nextEventId: int,
    nextRequestId: int)

  /** The state after one handler call, with what the call answered. */
  datatype Step<+T> = Step(after: Tables, result: Result<T>)

  /** An empty database: both sequences start at 1. */
  const Empty: Tables := Tables(map[], map[], 1, 1)

  /** Every key was handed out by its table's sequence, so the next value is fresh. */
  predicate KeysAllocated(t: Tables) {
    && 1 <= t.nextEventId
    && 1 <= t.nextRequestId
    && (forall k :: k in t.slots ==> 1 <= k < t.nextEventId)
    && (forall k :: k in t.requests ==> 1 <= k < t.nextRequestId)
  }

  /** The slot with this id exists and belongs to the caller: the combined
      filter `Event.id == id, Event.user_id == caller`. */
  predicate OwnedBy(t: Tables, caller: UserId, id: int) {
    id in t.slots && t.slots[id].owner == caller
  }

  // ----- ORDER BY start_time -----

  predicate SortedByStart(rows: seq<Row>) {
    forall i, j :: 0 <= i < j < |rows| ==> rows[i].event.start <= rows[j].event.start
  }

  predicate DistinctIds(rows: seq<Row>) {
    forall i, j :: 0 <= i < j < |rows| ==> rows[i].id != rows[j].id
  }

  /** `rows` lists the rows of `m`, each exactly once. */
  predicate Enumerates(rows: seq<Row>, m: map<int, Event>) {
    && DistinctIds(rows)
    && (forall i :: 0 <= i < |rows| ==> rows[i].id in m && m[rows[i].id] == rows[i].event)
    && (forall k :: k in m ==> exists i :: 0 <= i < |rows| && rows[i].id == k)
  }

  /** Earlier start first; equal starts are ordered by key (the database leaves
      ties unspecified, the model fixes one order). */
  predicate Precedes(m: map<int, Event>, a: int, b: int)
    requires a in m && b in m
  {
    m[a].start < m[b].start || (m[a].start == m[b].start && a <= b)
  }

  predicate IsFirst(m: map<int, Event>, k: int) {
    k in m && forall j :: j in m ==> Precedes(m, k, j)
  }

  /** A table that is not empty has a key. */
  lemma HasKey(m: map<int, Event>)
    requires m != map[]
    ensures exists k :: k in m
  {
    if forall k :: k !in m {
      assert false;
    }
  }

  /** A set that is not empty has an element. */
  lemma HasElement(s: set<int>)
    requires s != {}
    ensures exists x :: x in s
  {
    if forall x :: x !in s {
      assert false;
    }
  }

  lemma FirstExists(m: map<int, Event>)
    requires m != map[]
    ensures exists k :: IsFirst(m, k)
  {
    HasKey(m);
    var x :| x in m;
    FirstExistsWith(m, x);
  }

  /** Every nonempty table has a first row (induction on the table's size). */
  lemma {:induction false} FirstExistsWith(m: map<int, Event>, x: int)
    requires x in m
    ensures exists k :: IsFirst(m, k)
    decreases |m|
  {
    var rest := m - {x};
    if rest == map[] {
      assert m.Keys == rest.Keys + {x};
      assert IsFirst(m, x);
    } else {
      assert |rest| < |m| by { assert rest.Keys == m.Keys - {x}; }
      HasKey(rest);
      var z :| z in rest;
      FirstExistsWith(rest, z);
      var y :| IsFirst(rest, y);
      forall j | j in m ensures j == x || (j in rest && rest[j] == m[j]) {
        if j != x { assert j in rest; }
      }
      if Precedes(m, x, y) {
        forall j | j in m ensures Precedes(m, x, j) {
          if j != x { assert Precedes(rest, y, j); }
        }
        assert IsFirst(m, x);
      } else {
        forall j | j in m ensures Precedes(m, y, j) {
          if j != x { assert Precedes(rest, y, j); }
        }
        assert IsFirst(m, y);
      }
    }
  }

  /** The rows of a listing of `m - {k}` are rows of `m` other than `k`. */
  lemma TailRows(m: map<int, Event>, k: int, tail: seq<Row>)
    requires Enumerates(tail, m - {k})
    ensures forall i :: 0 <= i < |tail| ==>
      tail[i].id in m && tail[i].id != k && m[tail[i].id] == tail[i].event
  {
    forall i | 0 <= i < |tail|
      ensures tail[i].id in m && tail[i].id != k && m[tail[i].id] == tail[i].event
    {
      assert tail[i].id in m - {k};
    }
  }

  /** Putting the first row in front of an ordered listing of the others keeps
      the order and the distinct ids. */
  lemma PrependSorted(m: map<int, Event>, k: int, tail: seq<Row>)
    requires IsFirst(m, k)
    requires SortedByStart(tail) && DistinctIds(tail)
    requires forall i :: 0 <= i < |tail| ==>
      tail[i].id in m && tail[i].id != k && m[tail[i].id] == tail[i].event
    ensures SortedByStart([Row(k, m[k])] + tail) && DistinctIds([Row(k, m[k])] + tail)
  {
    var rows := [Row(k, m[k])] + tail;
    forall i, j | 0 <= i < j < |rows|
      ensures rows[i].event.start <= rows[j].event.start && rows[i].id != rows[j].id
    {
      if i == 0 {
        assert rows[j] == tail[j - 1];
        assert Precedes(m, k, tail[j - 1].id);
      } else {
        assert rows[i] == tail[i - 1] && rows[j] == tail[j - 1];
      }
    }
  }

  /** Putting the first row in front of a listing of the others lists them all. */
  lemma PrependComplete(m: map<int, Event>, k: int, tail: seq<Row>)
    requires k in m
    requires forall j :: j in m - {k} ==> exists i :: 0 <= i < |tail| && tail[i].id == j
    ensures forall j :: j in m ==> exists i :: 0 <= i < |[Row(k, m[k])] + tail| && ([Row(k, m[k])] + tail)[i].id == j
  {
    var rows := [Row(k, m[k])] + tail;
    forall j | j in m ensures exists i :: 0 <= i < |rows| && rows[i].id == j {
      if j == k {
        assert rows[0].id == j;
      } else {
        assert j in m - {k};
        var i :| 0 <= i < |tail| && tail[i].id == j;
        assert rows[i + 1].id == j;
      }
    }
  }

  /** Putting the first row in front of an ordered listing of the others gives
      an ordered listing of all. */
  lemma PrependFirst(m: map<int, Event>, k: int, tail: seq<Row>)
    requires IsFirst(m, k)
    requires SortedByStart(tail) && Enumerates(tail, m - {k})
    ensures SortedByStart([Row(k, m[k])] + tail)
    ensures Enumerates([Row(k, m[k])] + tail, m)
  {
    var rows := [Row(k, m[k])] + tail;
    TailRows(m, k, tail);
    PrependSorted(m, k, tail);
    PrependComplete(m, k, tail);
    forall i | 0 <= i < |rows|
      ensures rows[i].id in m && m[rows[i].id] == rows[i].event
    {
      if i > 0 { assert rows[i] == tail[i - 1]; }
    }
  }

  /** The rows of `m` in ascending start order. */
  function OrderByStart(m: map<int, Event>): (rows: seq<Row>)
    ensures |rows| == |m|
    ensures SortedByStart(rows)
    ensures Enumerates(rows, m)
    decreases |m|
  {
    if m == map[] then []
    else
      FirstExists(m);
      var k :| IsFirst(m, k);
      var rest := m - {k};
      assert rest.Keys == m.Keys - {k};
      var tail := OrderByStart(rest);
      PrependFirst(m, k, tail);
      [Row(k, m[k])] + tail
  }

  // ----- The database object -----

  /** The session's view of both tables. Route handlers receive it as a
      parameter and mutate its fields in place. */
  class Database {
    var slots: map<int, Event>
    var requests: map<int, SwapRequest>
    var nextEventId: int
    var nextRequestId: int

    function State(): Tables
      reads this
    {
      Tables(slots, requests, nextEventId, nextRequestId)
    }

    ghost predicate Valid()
      reads this
    {
      KeysAllocated(State())
    }

    constructor ()
      ensures Valid() && State() == Empty
    {
      slots := map[];
      requests := map[];
      nextEventId := 1;
      nextRequestId := 1;
    }
  }
}
