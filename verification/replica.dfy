/** A database, its event log and one cached copy of a table, as a transition system
    (internal/models/cached_store.go). Commits happen between any two steps of the replica. */
module Replica {
  import opened Options
  import opened EventStore
  import opened Consumer = EventConsumer
  import opened EventDelivery
  import opened Index = BTreeIndex
  import opened Replay
  import opened Store = CachedStore

  // ---- The database ----

  /** Committed events in commit order. Their ids need not ascend: an id is taken inside a transaction.
      Those of one object do, and every object lives once. */
  ghost predicate WellFormed<T(!new)>(base: map<int, T>, trace: seq<Event<T>>) {
    && (forall i :: 0 <= i < |trace| ==> trace[i].id >= 1)
    && Distinct(trace)
    && forall o :: Ascending(Of(trace, o)) && Life(Lookup(base, o), Of(trace, o))
  }

  function LogOf<T>(trace: seq<Event<T>>): Log<T> {
    if trace == [] then map[] else LogOf(trace[..|trace| - 1])[trace[|trace| - 1].id := trace[|trace| - 1]]
  }

  lemma {:induction false} LogOfMembers<T>(trace: seq<Event<T>>)
    requires Distinct(trace)
    ensures forall e :: e in trace ==> e.id in LogOf(trace) && LogOf(trace)[e.id] == e
    ensures forall id :: id in LogOf(trace) ==> LogOf(trace)[id] in trace && LogOf(trace)[id].id == id
  {
    if trace != [] {
      var front, last := trace[..|trace| - 1], trace[|trace| - 1];
      FrontDiffers(trace);
      hide Distinct;
      LogOfMembers(front);
      assert trace == front + [last];
    }
  }

  lemma FrontDiffers<T>(trace: seq<Event<T>>)
    requires Distinct(trace) && trace != []
    ensures Distinct(trace[..|trace| - 1])
    ensures forall e :: e in trace[..|trace| - 1] ==> e.id != trace[|trace| - 1].id
  {
    forall e | e in trace[..|trace| - 1]
      ensures e.id != trace[|trace| - 1].id
    {
      var i :| 0 <= i < |trace| - 1 && trace[i] == e;
    }
  }

  ghost predicate IsLastEventID<T>(last: Option<int>, trace: seq<Event<T>>) {
    match last
    case None => trace == []
    case Some(id) => id in Ids(trace) && forall i :: 0 <= i < |trace| ==> trace[i].id <= id
  }

  // ---- The replica ----

  datatype Phase = Off | Positioned(beginID: int) | CaughtUp | Live

  datatype State<K(==), T> = State(
    trace: seq<Event<T>>,       // the log
    phase: Phase,
    ranges: seq<EventRange>,    // the consumer
    mirror: Mirror<K, T>,       // the object map and an index
    // What happened so far, for the statements below.
    floor: int,                 // ids below it are no longer waited for
    consumed: set<int>,         // ids the consumer has handled
    fixedAt: nat,               // length of the log when the backlog was skipped
    snapAt: nat,                // length of the log when the snapshot was taken
    delivered: seq<Event<T>>)   // events replayed

  datatype Step<T> =
    | Publish(batch: seq<Event<T>>)
    | FixPosition(last: Option<int>)
    | SkipBacklog(backlog: seq<Event<T>>)
    | TakeSnapshot
    | Sync(rows: seq<Event<T>>, fault: Fault)
    | FailInit

  /** The object map and the index right after a snapshot. */
  ghost function Snapshot<K(!new), T>(key: T -> Option<K>, table: map<int, T>): Mirror<K, T> {
    Mirror(table, set id, k | id in table && k in KeyOf(key, Some(table[id])) :: Entry(k, id))
  }

  ghost predicate Next<K(!new), T(!new)>(
      base: map<int, T>, key: T -> Option<K>, s: State<K, T>, step: Step<T>, s': State<K, T>)
  {
    match step
    case Publish(batch) =>
      s' == s.(trace := s.trace + batch) && WellFormed(base, s'.trace)
    case FixPosition(last) =>
      IsLastEventID(last, s.trace) && s' == s.(phase := Positioned(StartID(last)))
    case SkipBacklog(rows) =>
      && s.phase.Positioned?
      && var start := [EventRange(s.phase.beginID, 0)];
      && IsLoad(rows, LogOf(s.trace), start)
      && var d := Consume(start, rows, NoFault);
      && d.count <= |rows| && |d.ranges| > 0
      && s' == s.(phase := CaughtUp, ranges := d.ranges, floor := NextFloor(s.phase.beginID, start, d),
                  consumed := Ids(rows[..d.count]), fixedAt := |s.trace|, delivered := [])
    case TakeSnapshot =>
      && s.phase.CaughtUp?
      && s' == s.(phase := Live, snapAt := |s.trace|, mirror := Snapshot(key, Table(base, s.trace)))
    case Sync(rows, fault) =>
      && s.phase.Live?
      && IsLoad(rows, LogOf(s.trace), s.ranges)
      && var d := Consume(s.ranges, rows, CallbackFault(rows, fault));
      && d.count <= |rows| && |d.ranges| > 0
      && s' == s.(ranges := d.ranges, floor := NextFloor(s.floor, s.ranges, d),
                  consumed := s.consumed + Ids(rows[..d.count]), delivered := s.delivered + rows[..d.count],
                  mirror := ApplyAll(s.mirror, key, rows[..d.count]))
    case FailInit => s' == s.(phase := Off)
  }

  ghost predicate Initial<K, T(!new)>(base: map<int, T>, s: State<K, T>) {
    s.phase.Off? && WellFormed(base, s.trace)
  }

  // ---- What every step keeps ----

  ghost predicate Tracking<K, T>(s: State<K, T>) {
    && Conserved(s.ranges, s.floor, s.consumed)
    && s.fixedAt <= |s.trace|
    && (forall e :: e in s.trace[..s.fixedAt] ==> !Covered(s.ranges, e.id))
    && (forall e :: e in s.delivered ==> e in s.trace[s.fixedAt..])
    && (forall id :: id in s.consumed ==> id in Ids(s.trace[..s.fixedAt]) || id in Ids(s.delivered))
    && (forall e :: e in s.delivered ==> e.id in s.consumed)
  }

  // What is replayed of one object is replayed in order: nothing older is waited for any more.
  ghost predicate InOrder<K, T>(s: State<K, T>) {
    && (forall o :: Ascending(Of(s.delivered, o)))
    && (forall f, e :: f in s.delivered && e in s.trace && e.objectID == f.objectID && e.id < f.id ==>
          !Covered(s.ranges, e.id))
  }

  ghost predicate Inv<K(!new), T(!new)>(base: map<int, T>, key: T -> Option<K>, s: State<K, T>) {
    && WellFormed(base, s.trace)
    && (s.phase.Positioned? ==> s.phase.beginID >= 1)
    && (s.phase.CaughtUp? || s.phase.Live? ==> Tracking(s) && InOrder(s))
    && (s.phase.CaughtUp? ==> s.delivered == [])
    && (s.phase.Live? ==>
          && s.fixedAt <= s.snapAt <= |s.trace|
          && s.mirror == ApplyAll(Snapshot(key, Table(base, s.trace[..s.snapAt])), key, s.delivered))
  }

  // A later event of an object has a larger id.
  lemma LaterIsLarger<T(!new)>(base: map<int, T>, a: seq<Event<T>>, b: seq<Event<T>>, e: Event<T>, f: Event<T>)
    requires WellFormed(base, a + b) && e in a && f in b && e.objectID == f.objectID
    ensures e.id < f.id
  {
    var o := e.objectID;
    OfConcat(a, b, o);
    OfMember(a, o, e);
    OfMember(b, o, f);
    var i :| 0 <= i < |Of(a, o)| && Of(a, o)[i] == e;
    var j :| 0 <= j < |Of(b, o)| && Of(b, o)[j] == f;
    assert Of(a + b, o)[i] == e && Of(a + b, o)[|Of(a, o)| + j] == f;
  }

  lemma PublishKeeps<K(!new), T(!new)>(
      base: map<int, T>, key: T -> Option<K>, s: State<K, T>, batch: seq<Event<T>>, s': State<K, T>)
    requires Inv(base, key, s) && Next(base, key, s, Publish(batch), s')
    ensures Inv(base, key, s')
  {
    if s.phase.CaughtUp? || s.phase.Live? {
      assert s'.trace[..s.fixedAt] == s.trace[..s.fixedAt];
      assert s'.trace[s.fixedAt..] == s.trace[s.fixedAt..] + batch;
      forall f, e | f in s.delivered && e in s'.trace && e.objectID == f.objectID && e.id < f.id
        ensures !Covered(s.ranges, e.id)
      {
        assert f in s.trace;
        if e !in s.trace {
          LaterIsLarger(base, s.trace, batch, f, e);
        }
      }
      if s.phase.Live? {
        assert s'.trace[..s.snapAt] == s.trace[..s.snapAt];
      }
    }
  }

  lemma SkipKeeps<K(!new), T(!new)>(
      base: map<int, T>, key: T -> Option<K>, s: State<K, T>, rows: seq<Event<T>>, s': State<K, T>)
    requires Inv(base, key, s) && Next(base, key, s, SkipBacklog(rows), s')
    ensures Inv(base, key, s')
  {
    var start := [EventRange(s.phase.beginID, 0)];
    assert forall x :: Covered(start, x) <==> start[0].Contains(x);
    assert Conserved(start, s.phase.beginID, {});
    ConsumeConserves(start, rows, NoFault, s.phase.beginID, {});
    DrainedByOneCall(start, rows, LogOf(s.trace), s.phase.beginID, {});
    LogOfMembers(s.trace);
    assert rows[..|rows|] == rows && {} + Ids(rows) == Ids(rows);
    assert s.trace[..|s.trace|] == s.trace;
    forall id | id in Ids(rows)
      ensures id in Ids(s.trace)
    {
      var i :| 0 <= i < |rows| && rows[i].id == id;
      assert LogOf(s.trace)[rows[i].id] in s.trace;
    }
  }

  lemma SyncKeeps<K(!new), T(!new)>(
      base: map<int, T>, key: T -> Option<K>, s: State<K, T>, rows: seq<Event<T>>, fault: Fault, s': State<K, T>)
    requires Inv(base, key, s) && Next(base, key, s, Sync(rows, fault), s')
    ensures Inv(base, key, s')
  {
    var f := CallbackFault(rows, fault);
    var d := Consume(s.ranges, rows, f);
    var handled := rows[..d.count];
    ConsumeConserves(s.ranges, rows, f, s.floor, s.consumed);
    Shrinks(s, s');
    RowsAreNew(s, rows);
    IdsConcat(s.delivered, handled);
    assert forall e :: e in handled ==> e in rows;
    assert Tracking(s') by {
      assert forall e :: e in handled ==> e.id in Ids(handled);
    }
    SyncInOrder(base, s, rows, d.count, s');
    ApplyAllConcat(Snapshot(key, Table(base, s.trace[..s.snapAt])), key, s.delivered, handled);
  }

  // Nothing becomes pending again.
  lemma Shrinks<K, T>(s: State<K, T>, s': State<K, T>)
    requires Conserved(s.ranges, s.floor, s.consumed) && Conserved(s'.ranges, s'.floor, s'.consumed)
    requires s.floor <= s'.floor && s.consumed <= s'.consumed
    ensures forall x :: Covered(s'.ranges, x) ==> Covered(s.ranges, x)
  {
  }

  lemma RowIsNew<K, T>(s: State<K, T>, rows: seq<Event<T>>, e: Event<T>)
    requires Tracking(s) && Distinct(s.trace) && IsLoad(rows, LogOf(s.trace), s.ranges) && e in rows
    ensures e in s.trace[s.fixedAt..] && e in s.trace && Covered(s.ranges, e.id)
  {
    LogOfMembers(s.trace);
    var i :| 0 <= i < |rows| && rows[i] == e;
    assert e.id in Ids(rows);
    assert s.trace == s.trace[..s.fixedAt] + s.trace[s.fixedAt..];
  }

  lemma RowsAreNew<K, T>(s: State<K, T>, rows: seq<Event<T>>)
    requires Tracking(s) && Distinct(s.trace) && IsLoad(rows, LogOf(s.trace), s.ranges)
    ensures forall e :: e in rows ==> e in s.trace[s.fixedAt..] && Covered(s.ranges, e.id)
  {
    forall e | e in rows {
      RowIsNew(s, rows, e);
    }
  }

  lemma SyncInOrder<K, T(!new)>(base: map<int, T>, s: State<K, T>, rows: seq<Event<T>>, count: nat, s': State<K, T>)
    requires WellFormed(base, s.trace) && Tracking(s) && InOrder(s)
    requires IsLoad(rows, LogOf(s.trace), s.ranges) && count <= |rows|
    requires s'.trace == s.trace && s'.delivered == s.delivered + rows[..count]
    requires Conserved(s'.ranges, s'.floor, s'.consumed) && s'.consumed == s.consumed + Ids(rows[..count])
    requires forall x :: Covered(s'.ranges, x) ==> Covered(s.ranges, x)
    ensures InOrder(s')
  {
    forall f, e | f in s'.delivered && e in s.trace && e.objectID == f.objectID && e.id < f.id
      ensures !Covered(s'.ranges, e.id)
    {
      OlderNotPending(base, s, rows, count, s', f, e);
    }
    forall o
      ensures Ascending(Of(s'.delivered, o))
    {
      DeliveredAscending(base, s, rows, count, o);
    }
  }

  lemma OlderNotPending<K, T(!new)>(
      base: map<int, T>, s: State<K, T>, rows: seq<Event<T>>, count: nat, s': State<K, T>, f: Event<T>, e: Event<T>)
    requires WellFormed(base, s.trace) && Tracking(s) && InOrder(s)
    requires IsLoad(rows, LogOf(s.trace), s.ranges) && count <= |rows|
    requires s'.trace == s.trace && s'.delivered == s.delivered + rows[..count]
    requires Conserved(s'.ranges, s'.floor, s'.consumed) && s'.consumed == s.consumed + Ids(rows[..count])
    requires forall x :: Covered(s'.ranges, x) ==> Covered(s.ranges, x)
    requires f in s'.delivered && e in s.trace && e.objectID == f.objectID && e.id < f.id
    ensures !Covered(s'.ranges, e.id)
  {
    hide Separated, Life, Tracking, Of, LogOf, IsLoad, Ascending, Ids;
    if f !in s.delivered && Covered(s.ranges, e.id) {
      PendingIsLoaded(s.trace, s.ranges, rows, e);
      OlderIsLoaded(s.trace, s.ranges, rows, count, f, e.id);
    }
  }

  lemma PendingIsLoaded<T>(trace: seq<Event<T>>, rs: seq<EventRange>, rows: seq<Event<T>>, e: Event<T>)
    requires Distinct(trace) && IsLoad(rows, LogOf(trace), rs) && e in trace && Covered(rs, e.id)
    ensures e.id in Ids(rows)
  {
    LogOfMembers(trace);
  }

  lemma OlderIsLoaded<T>(
      trace: seq<Event<T>>, rs: seq<EventRange>, rows: seq<Event<T>>, count: nat, f: Event<T>, id: int)
    requires IsLoad(rows, LogOf(trace), rs) && count <= |rows| && f in rows[..count]
    requires id in Ids(rows) && id < f.id
    ensures id in Ids(rows[..count])
  {
    var i :| 0 <= i < |rows| && rows[i].id == id;
    var j :| 0 <= j < |rows[..count]| && rows[..count][j] == f;
    assert i < j;
    assert rows[..count][i].id in Ids(rows[..count]);
  }

  // An event waited for is newer than everything already replayed of its object.
  lemma DeliveredAscending<K, T(!new)>(base: map<int, T>, s: State<K, T>, rows: seq<Event<T>>, count: nat, o: int)
    requires WellFormed(base, s.trace) && Tracking(s) && InOrder(s)
    requires IsLoad(rows, LogOf(s.trace), s.ranges) && count <= |rows|
    ensures Ascending(Of(s.delivered + rows[..count], o))
  {
    var handled := rows[..count];
    OfConcat(s.delivered, handled, o);
    OfAscending(handled, o);
    forall x, y | x in Of(s.delivered, o) && y in Of(handled, o)
      ensures x.id < y.id
    {
      OfMember(s.delivered, o, x);
      OfMember(handled, o, y);
      RowIsNew(s, rows, y);
      PendingIsNewer(s, x, y);
    }
    AscendingConcat(Of(s.delivered, o), Of(handled, o));
  }

  lemma PendingIsNewer<K, T>(s: State<K, T>, x: Event<T>, y: Event<T>)
    requires Tracking(s) && InOrder(s)
    requires x in s.delivered && y in s.trace && x.objectID == y.objectID && Covered(s.ranges, y.id)
    ensures x.id < y.id
  {
    assert x.id in s.consumed;
  }

  lemma AscendingConcat<T>(a: seq<Event<T>>, b: seq<Event<T>>)
    requires Ascending(a) && Ascending(b)
    requires forall x, y :: x in a && y in b ==> x.id < y.id
    ensures Ascending(a + b)
  {
    var all := a + b;
    forall i, j | 0 <= i < j < |all|
      ensures all[i].id < all[j].id
    {
      if i < |a| <= j {
        assert all[i] in a && all[j] in b;
      }
    }
  }

  lemma {:induction false} OfAscending<T>(es: seq<Event<T>>, o: int)
    requires Ascending(es)
    ensures Ascending(Of(es, o))
  {
    if es != [] {
      var front := es[..|es| - 1];
      OfAscending(front, o);
      forall i | 0 <= i < |Of(front, o)|
        ensures Of(front, o)[i].id < es[|es| - 1].id
      {
        var e := Of(front, o)[i];
        OfMember(front, o, e);
        assert e in Of(front, o);
        var k :| 0 <= k < |front| && front[k] == e;
        assert es[k].id < es[|es| - 1].id;
      }
    }
  }

  lemma SnapshotKeeps<K(!new), T(!new)>(
      base: map<int, T>, key: T -> Option<K>, s: State<K, T>, s': State<K, T>)
    requires Inv(base, key, s) && Next(base, key, s, TakeSnapshot, s')
    ensures Inv(base, key, s')
  {
    assert s.trace[..|s.trace|] == s.trace;
  }

  lemma StepKeeps<K(!new), T(!new)>(
      base: map<int, T>, key: T -> Option<K>, s: State<K, T>, step: Step<T>, s': State<K, T>)
    requires Inv(base, key, s) && Next(base, key, s, step, s')
    ensures Inv(base, key, s')
  {
    match step
    case Publish(batch) => PublishKeeps(base, key, s, batch, s');
    case FixPosition(last) =>
    case SkipBacklog(rows) => SkipKeeps(base, key, s, rows, s');
    case TakeSnapshot => SnapshotKeeps(base, key, s, s');
    case Sync(rows, fault) => SyncKeeps(base, key, s, rows, fault, s');
    case FailInit =>
  }
}
