/** Half-open ranges of event ids and the WHERE expression built from them
    (internal/db/event_store.go). */
module EventStore {
  import opened Options

  datatype EventKind = Create | Update | Delete | Unknown(code: int)

  // An event row: the id is the primary key, `value` is meaningless for a Delete.
  datatype Event<+T> = Event(id: int, kind: EventKind, objectID: int, value: T)

  // [begin, end), without an upper limit when end is 0.
  datatype EventRange = EventRange(begin: int, end: int) {
    predicate Contains(id: int) {
      id >= begin && (end == 0 || id < end)
    }

    predicate IsEmpty() {
      begin == end
    }
  }

  predicate Covered(ranges: seq<EventRange>, id: int) {
    exists i :: 0 <= i < |ranges| && ranges[i].Contains(id)
  }

  // The boolean expressions the query builder is asked for, over the id column.
  datatype BoolExpr =
    | GreaterEqual(bound: int)
    | Less(bound: int)
    | Equal(bound: int)
    | And(left: BoolExpr, right: BoolExpr)
    | Or(left: BoolExpr, right: BoolExpr)
  {
    predicate Eval(id: int) {
      match this
      case GreaterEqual(b) => id >= b
      case Less(b) => id < b
      case Equal(b) => id == b
      case And(l, r) => l.Eval(id) && r.Eval(id)
      case Or(l, r) => l.Eval(id) || r.Eval(id)
    }
  }

  // A missing WHERE clause selects every row.
  predicate Selects(where: Option<BoolExpr>, id: int) {
    where.None? || where.value.Eval(id)
  }

  function GetWhere(r: EventRange): (where: BoolExpr)
    ensures forall id :: where.Eval(id) <==> r.Contains(id)
  {
    if r.end == 0 then GreaterEqual(r.begin)
    else if r.begin + 1 == r.end then Equal(r.begin)
    else And(GreaterEqual(r.begin), Less(r.end))
  }

  /** The expression denotes exactly the union of the ranges; with no range at all there is no
      expression, and such a query selects every event. */
  method GetEventsWhere(ranges: seq<EventRange>) returns (where: Option<BoolExpr>)
    ensures where.None? <==> ranges == []
    ensures ranges != [] ==> forall id :: Selects(where, id) <==> Covered(ranges, id)
  {
    if |ranges| == 0 {
      return None;
    }
    var expr := GetWhere(ranges[0]);
    for i := 1 to |ranges|
      invariant forall id :: expr.Eval(id) <==> Covered(ranges[..i], id)
    {
      assert ranges[..i + 1] == ranges[..i] + [ranges[i]];
      var next := GetWhere(ranges[i]);
      ghost var before := expr;
      expr := Or(expr, next);
      forall id
        ensures expr.Eval(id) <==> Covered(ranges[..i + 1], id)
      {
        CoveredConcat(ranges[..i], [ranges[i]], id);
        assert [ranges[i]][0] == ranges[i];
      }
    }
    assert ranges[..|ranges|] == ranges;
    where := Some(expr);
  }

  lemma CoveredConcat(a: seq<EventRange>, b: seq<EventRange>, id: int)
    ensures Covered(a + b, id) <==> Covered(a, id) || Covered(b, id)
  {
    if Covered(a, id) {
      var i :| 0 <= i < |a| && a[i].Contains(id);
      assert (a + b)[i].Contains(id);
    }
    if Covered(b, id) {
      var i :| 0 <= i < |b| && b[i].Contains(id);
      assert (a + b)[|a| + i].Contains(id);
    }
  }

  predicate Ascending<T>(rows: seq<Event<T>>) {
    forall i, j :: 0 <= i < j < |rows| ==> rows[i].id < rows[j].id
  }

  ghost function Ids<T>(rows: seq<Event<T>>): (ids: set<int>)
    ensures forall id :: id in ids <==> exists i :: 0 <= i < |rows| && rows[i].id == id
  {
    set i | 0 <= i < |rows| :: rows[i].id
  }

  /** The visible events, keyed by id. */
  type Log<T> = map<int, Event<T>>

  /** What LoadEvents returns: the visible events in the ranges, ordered by id ascending. */
  ghost predicate IsLoad<T>(rows: seq<Event<T>>, log: Log<T>, ranges: seq<EventRange>) {
    && Ascending(rows)
    && (forall i :: 0 <= i < |rows| ==> rows[i].id in log && log[rows[i].id] == rows[i])
    && (forall id :: id in Ids(rows) <==> id in log && Covered(ranges, id))
  }
}
