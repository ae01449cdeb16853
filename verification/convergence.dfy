/** Where a cached store stands after a successful Sync, over every run of the system. */
module Convergence {
  import opened Options
  import opened SortedMap
  import opened EventStore
  import opened Consumer = EventConsumer
  import opened EventDelivery
  import opened Index = BTreeIndex
  import opened Replay
  import opened Store = CachedStore
  import opened Replica

  ghost predicate IsRun<K(!new), T(!new)>(
      base: map<int, T>, key: T -> Option<K>, run: seq<State<K, T>>, steps: seq<Step<T>>)
  {
    && |run| == |steps| + 1
    && Initial(base, run[0])
    && forall i :: 0 <= i < |steps| ==> Next(base, key, run[i], steps[i], run[i + 1])
  }

  lemma {:induction false} RunKeeps<K(!new), T(!new)>(
      base: map<int, T>, key: T -> Option<K>, run: seq<State<K, T>>, steps: seq<Step<T>>, i: nat)
    requires IsRun(base, key, run, steps) && i < |run|
    ensures Inv(base, key, run[i])
  {
    if i > 0 {
      RunKeeps(base, key, run, steps, i - 1);
      StepKeeps(base, key, run[i - 1], steps[i - 1], run[i]);
    }
  }

  /** The event became visible after the backlog was skipped, at an id the consumer no longer waits
      for: below the start id, or in a gap that fell out of the window. */
  ghost predicate Missed<K, T>(s: State<K, T>, e: Event<T>) {
    s.fixedAt <= |s.trace| && e in s.trace[s.fixedAt..] && e !in s.delivered && e.id < s.floor
  }

  ghost predicate NothingMissedOf<K, T(!new)>(s: State<K, T>, o: int) {
    forall e :: Missed(s, e) ==> e.objectID != o
  }

  // Nothing visible is pending.
  ghost predicate Drained<K, T>(s: State<K, T>) {
    forall e :: e in s.trace ==> !Covered(s.ranges, e.id)
  }

  lemma KnownKinds<T(!new)>(base: map<int, T>, trace: seq<Event<T>>, e: Event<T>)
    requires WellFormed(base, trace) && e in trace
    ensures !e.kind.Unknown?
  {
    OfMember(trace, e.objectID, e);
    var i :| 0 <= i < |Of(trace, e.objectID)| && Of(trace, e.objectID)[i] == e;
    assert Life(Lookup(base, e.objectID), Of(trace, e.objectID));
  }

  lemma SyncDrains<K(!new), T(!new)>(
      base: map<int, T>, key: T -> Option<K>, s: State<K, T>, rows: seq<Event<T>>, s': State<K, T>)
    requires Inv(base, key, s) && Next(base, key, s, Sync(rows, NoFault), s')
    ensures Drained(s')
  {
    LogOfMembers(s.trace);
    var n := FirstUnknown(rows);
    if n < |rows| {
      RowIsNew(s, rows, rows[n]);
      KnownKinds(base, s.trace, rows[n]);
    }
    DrainedByOneCall(s.ranges, rows, LogOf(s.trace), s.floor, s.consumed);
    forall e | e in s'.trace
      ensures !Covered(s'.ranges, e.id)
    {
      assert e.id in LogOf(s.trace);
    }
  }

  // Once drained, what was replayed of an object is all that became visible of it since.
  lemma ReplayedAll<K(!new), T(!new)>(base: map<int, T>, key: T -> Option<K>, s: State<K, T>, o: int)
    requires Inv(base, key, s) && s.phase.Live? && Drained(s) && NothingMissedOf(s, o)
    ensures Of(s.delivered, o) == Of(s.trace[s.fixedAt..], o)
  {
    var late := s.trace[s.fixedAt..];
    TailAscending(base, s.trace, s.fixedAt, o);
    forall e
      ensures e in Of(s.delivered, o) <==> e in Of(late, o)
    {
      OfMember(s.delivered, o, e);
      OfMember(late, o, e);
      if e in late && e.objectID == o {
        LateIsReplayed(base, key, s, e);
      }
    }
    SameEvents(Of(s.delivered, o), Of(late, o));
  }

  lemma LateIsReplayed<K(!new), T(!new)>(base: map<int, T>, key: T -> Option<K>, s: State<K, T>, e: Event<T>)
    requires Inv(base, key, s) && s.phase.Live? && Drained(s) && e in s.trace[s.fixedAt..] && !Missed(s, e)
    ensures e in s.delivered
  {
    assert s.trace == s.trace[..s.fixedAt] + s.trace[s.fixedAt..];
    if e !in s.delivered {
      Reflects(s, e);
    }
  }

  lemma IdsAreDistinct<T>(trace: seq<Event<T>>, n: nat, e: Event<T>)
    requires Distinct(trace) && n <= |trace| && e in trace[n..]
    ensures e.id !in Ids(trace[..n])
  {
    var j :| n <= j < |trace| && trace[j] == e;
  }

  lemma SameIdSameEvent<T>(trace: seq<Event<T>>, e: Event<T>, f: Event<T>)
    requires Distinct(trace) && e in trace && f in trace && e.id == f.id
    ensures e == f
  {
  }

  lemma TailAscending<T(!new)>(base: map<int, T>, trace: seq<Event<T>>, n: nat, o: int)
    requires WellFormed(base, trace) && n <= |trace|
    ensures Ascending(Of(trace[n..], o))
    ensures Of(trace, o) == Of(trace[..n], o) + Of(trace[n..], o)
  {
    assert trace == trace[..n] + trace[n..];
    OfConcat(trace[..n], trace[n..], o);
    var a, b := Of(trace[..n], o), Of(trace[n..], o);
    assert Ascending(a + b);
    assert forall i :: 0 <= i < |b| ==> b[i] == (a + b)[|a| + i];
  }

  lemma SameEvents<T(!new)>(a: seq<Event<T>>, b: seq<Event<T>>)
    requires Ascending(a) && Ascending(b)
    requires forall e :: e in a <==> e in b
    ensures a == b
  {
    forall i | 0 <= i < |a|
      ensures a[i] in b
    {
      var x := a[i];
      assert x in a;
    }
    forall i | 0 <= i < |b|
      ensures b[i] in a
    {
      var x := b[i];
      assert x in b;
    }
    SameSorted((x: Event<T>, y: Event<T>) => x.id < y.id, a, b);
  }

  lemma SnapshotView<K(!new), T>(key: T -> Option<K>, table: map<int, T>, o: int)
    ensures ViewOf(Snapshot(key, table), o) == View(Lookup(table, o), KeyOf(key, Lookup(table, o)))
  {
    var v := ViewOf(Snapshot(key, table), o);
    forall k
      ensures k in v.keys <==> k in KeyOf(key, Lookup(table, o))
    {
      assert k in v.keys <==> Entry(k, o) in Snapshot(key, table).entries;
    }
  }

  // The replica, seen per object: the snapshot's row with the replayed events on top.
  lemma MirrorView<K(!new), T(!new)>(base: map<int, T>, key: T -> Option<K>, s: State<K, T>, o: int)
    requires Inv(base, key, s) && s.phase.Live?
    ensures s.fixedAt <= s.snapAt <= |s.trace| && Life(Lookup(base, o), Of(s.trace, o))
    ensures var snap := ValueAfter(Lookup(base, o), Of(s.trace[..s.snapAt], o));
            ViewOf(s.mirror, o) == ViewFold(View(snap, KeyOf(key, snap)), key, Of(s.delivered, o))
    ensures Lookup(s.mirror.objects, o) ==
              ValueAfter(ValueAfter(Lookup(base, o), Of(s.trace[..s.snapAt], o)), Of(s.delivered, o))
  {
    hide Tracking, InOrder, Distinct, Life;
    var seen := Table(base, s.trace[..s.snapAt]);
    FoldProjects(Snapshot(key, seen), key, s.delivered, o);
    SnapshotView(key, seen, o);
    TableProjects(base, s.trace[..s.snapAt], o);
    FoldValue(ViewOf(Snapshot(key, seen), o), key, Of(s.delivered, o));
  }

  // The events of one object, cut where the position was fixed and where the snapshot was taken.
  lemma Cut<T>(trace: seq<Event<T>>, m: nat, n: nat, o: int)
    requires m <= n <= |trace|
    ensures var a, b, c := Of(trace[..m], o), Of(trace[m..n], o), Of(trace[n..], o);
            && Of(trace, o) == a + b + c && Of(trace[..n], o) == a + b && Of(trace[m..], o) == b + c
  {
    assert trace[..n] == trace[..m] + trace[m..n];
    assert trace[m..] == trace[m..n] + trace[n..];
    assert trace == trace[..n] + trace[n..];
    OfConcat(trace[..m], trace[m..n], o);
    OfConcat(trace[m..n], trace[n..], o);
    OfConcat(trace[..n], trace[n..], o);
  }

  /** A drained replica shows of every object none of whose events was missed exactly the row of the
      table, and the index lists it under exactly its key: however far the snapshot was ahead of the
      consumer's position, and however the commits interleaved. */
  lemma Converged<K(!new), T(!new)>(base: map<int, T>, key: T -> Option<K>, s: State<K, T>, o: int)
    requires Inv(base, key, s) && s.phase.Live? && Drained(s) && NothingMissedOf(s, o)
    ensures var row := Lookup(Table(base, s.trace), o);
            ViewOf(s.mirror, o) == View(row, KeyOf(key, row))
  {
    hide Inv, Drained, NothingMissedOf, Life;
    ReplayedAll(base, key, s, o);
    MirrorView(base, key, s, o);
    Cut(s.trace, s.fixedAt, s.snapAt, o);
    TableProjects(base, s.trace, o);
    ReplayOverNewerSnapshot(Lookup(base, o), key, Of(s.trace[..s.fixedAt], o),
                            Of(s.trace[s.fixedAt..s.snapAt], o), Of(s.trace[s.snapAt..], o));
  }

  // No event of o became visible late, so none was replayed.
  lemma NothingReplayed<K(!new), T(!new)>(base: map<int, T>, key: T -> Option<K>, s: State<K, T>, o: int)
    requires Inv(base, key, s) && s.phase.Live? && Of(s.trace[s.fixedAt..], o) == []
    ensures Of(s.delivered, o) == []
  {
    hide InOrder, WellFormed, Conserved;
    if Of(s.delivered, o) != [] {
      var e := Of(s.delivered, o)[0];
      assert e in Of(s.delivered, o);
      OfMember(s.delivered, o, e);
      OfMember(s.trace[s.fixedAt..], o, e);
    }
  }

  /** For the value alone it is enough that the object's last event was not missed. */
  lemma ConvergedValue<K(!new), T(!new)>(base: map<int, T>, key: T -> Option<K>, s: State<K, T>, o: int)
    requires Inv(base, key, s) && s.phase.Live? && Drained(s)
    requires Of(s.trace, o) != [] ==> !Missed(s, Of(s.trace, o)[|Of(s.trace, o)| - 1])
    ensures Lookup(s.mirror.objects, o) == Lookup(Table(base, s.trace), o)
  {
    hide Inv, Drained, Missed, Life;
    MirrorView(base, key, s, o);
    Cut(s.trace, s.fixedAt, s.snapAt, o);
    TableProjects(base, s.trace, o);
    if Of(s.trace[s.fixedAt..], o) == [] {
      NothingReplayed(base, key, s, o);
      assert Of(s.trace, o) == Of(s.trace[..s.snapAt], o);
    } else {
      LastIsReplayed(base, key, s, o);
      var done := Of(s.delivered, o);
      assert !done[|done| - 1].kind.Unknown?;
    }
  }

  lemma LastIsReplayed<K(!new), T(!new)>(base: map<int, T>, key: T -> Option<K>, s: State<K, T>, o: int)
    requires Inv(base, key, s) && s.phase.Live? && Drained(s)
    requires s.fixedAt <= |s.trace| && Of(s.trace[s.fixedAt..], o) != []
    requires Of(s.trace, o) != [] && !Missed(s, Of(s.trace, o)[|Of(s.trace, o)| - 1])
    ensures var done := Of(s.delivered, o);
            && done != [] && done[|done| - 1] == Of(s.trace, o)[|Of(s.trace, o)| - 1]
            && !done[|done| - 1].kind.Unknown?
  {
    hide Inv, Drained, Missed, WellFormed;
    DeliveredIsVisible(base, key, s);
    var all, late, done := Of(s.trace, o), Of(s.trace[s.fixedAt..], o), Of(s.delivered, o);
    TailAscending(base, s.trace, s.fixedAt, o);
    var last := all[|all| - 1];
    assert last == late[|late| - 1] && last in late;
    OfMember(s.trace[s.fixedAt..], o, last);
    LateIsReplayed(base, key, s, last);
    OfMember(s.trace, o, last);
    KnownKinds(base, s.trace, last);
    LastOfBoth(s.trace, s.delivered, o, last);
  }

  lemma DeliveredIsVisible<K(!new), T(!new)>(base: map<int, T>, key: T -> Option<K>, s: State<K, T>)
    requires Inv(base, key, s) && s.phase.Live?
    ensures WellFormed(base, s.trace) && s.fixedAt <= |s.trace|
    ensures forall e :: e in s.delivered ==> e in s.trace
    ensures forall o :: Ascending(Of(s.delivered, o)) && Ascending(Of(s.trace, o))
  {
  }

  // Replayed events are a part of the log, so if the last of the log is among them it is their last.
  lemma LastOfBoth<T>(trace: seq<Event<T>>, delivered: seq<Event<T>>, o: int, last: Event<T>)
    requires Ascending(Of(trace, o)) && Ascending(Of(delivered, o))
    requires forall e :: e in delivered ==> e in trace
    requires Of(trace, o) != [] && last == Of(trace, o)[|Of(trace, o)| - 1] && last in delivered
    ensures Of(delivered, o) != [] && Of(delivered, o)[|Of(delivered, o)| - 1] == last
  {
    var all, done := Of(trace, o), Of(delivered, o);
    assert last in all;
    OfMember(trace, o, last);
    OfMember(delivered, o, last);
    var i :| 0 <= i < |done| && done[i] == last;
    var end := done[|done| - 1];
    assert end in done;
    OfMember(delivered, o, end);
    OfMember(trace, o, end);
    var j :| 0 <= j < |all| && all[j] == end;
    assert done[i].id <= end.id && all[j].id <= last.id;
    assert j == |all| - 1;
  }

  /** Whatever failed so far, and even for events that were missed, the replica shows of every object a
      row the table held at some moment. */
  lemma ShowsCommittedRow<K(!new), T(!new)>(base: map<int, T>, key: T -> Option<K>, s: State<K, T>, o: int)
    requires Inv(base, key, s) && s.phase.Live?
    ensures exists n :: 0 <= n <= |s.trace| && Lookup(s.mirror.objects, o) == Lookup(Table(base, s.trace[..n]), o)
  {
    hide Inv, WellFormed;
    MirrorView(base, key, s, o);
    DeliveredIsVisible(base, key, s);
    var done := Of(s.delivered, o);
    if done == [] {
      TableProjects(base, s.trace[..s.snapAt], o);
      assert Lookup(s.mirror.objects, o) == Lookup(Table(base, s.trace[..s.snapAt]), o);
    } else {
      var f := done[|done| - 1];
      assert f in done;
      OfMember(s.delivered, o, f);
      KnownKinds(base, s.trace, f);
      var j :| 0 <= j < |s.trace| && s.trace[j] == f;
      assert s.trace[..j + 1][..j] == s.trace[..j];
      assert Lookup(s.mirror.objects, o) == Lookup(Table(base, s.trace[..j + 1]), o);
    }
  }

  /** If nothing at all was missed, map and index are the table's. */
  lemma ConvergedEverywhere<K(!new), T(!new)>(base: map<int, T>, key: T -> Option<K>, s: State<K, T>)
    requires Inv(base, key, s) && s.phase.Live? && Drained(s)
    requires forall e :: !Missed(s, e)
    ensures s.mirror.objects == Table(base, s.trace) && Agrees(s.mirror.entries, key, s.mirror.objects)
  {
    var table := Table(base, s.trace);
    forall o
      ensures Lookup(s.mirror.objects, o) == Lookup(table, o)
      ensures ViewOf(s.mirror, o).keys == KeyOf(key, Lookup(table, o))
    {
      Converged(base, key, s, o);
    }
    forall o
      ensures o in s.mirror.objects <==> o in table
      ensures o in table ==> s.mirror.objects[o] == table[o]
    {
      assert Lookup(s.mirror.objects, o) == Lookup(table, o);
    }
    forall e: Entry<K>
      ensures e in s.mirror.entries <==> e.id in s.mirror.objects && key(s.mirror.objects[e.id]) == Some(e.key)
    {
      assert e in s.mirror.entries <==> e.key in ViewOf(s.mirror, e.id).keys by {
        assert e == Entry(e.key, e.id);
      }
      assert ViewOf(s.mirror, e.id).keys == KeyOf(key, Lookup(table, e.id));
    }
  }

  // ---- What one Sync does, told from the state before it ----

  /** The object's row in the copy is that of the table. */
  ghost predicate InDate<K, T>(base: map<int, T>, s: State<K, T>, o: int) {
    Lookup(s.mirror.objects, o) == Lookup(Table(base, s.trace), o)
  }

  /** The consumer waits for the object's last event. */
  ghost predicate LastTracked<K, T>(s: State<K, T>, o: int) {
    var events := Of(s.trace, o);
    events != [] && Covered(s.ranges, events[|events| - 1].id)
  }

  /** The event was skipped as backlog, has been replayed or is waited for. */
  ghost predicate Reaches<K, T>(s: State<K, T>, e: Event<T>) {
    s.fixedAt <= |s.trace| && (e in s.trace[..s.fixedAt] || e in s.delivered || Covered(s.ranges, e.id))
  }

  /** A Sync with no fault replays exactly the visible events the consumer waits for. */
  lemma SyncDelivers<K(!new), T(!new)>(
      base: map<int, T>, key: T -> Option<K>, s: State<K, T>, rows: seq<Event<T>>, s': State<K, T>, e: Event<T>)
    requires Inv(base, key, s) && Next(base, key, s, Sync(rows, NoFault), s')
    requires e in s.trace && e !in s.delivered
    ensures e in s'.delivered <==> Covered(s.ranges, e.id)
  {
    hide Life, Table, Consume, Of, InOrder, CallbackFault;
    SyncHandlesAll(base, key, s, rows, s');
    if Covered(s.ranges, e.id) {
      PendingIsLoaded(s.trace, s.ranges, rows, e);
      var i :| 0 <= i < |rows| && rows[i].id == e.id;
      RowIsNew(s, rows, rows[i]);
      SameIdSameEvent(s.trace, rows[i], e);
    } else if e in s'.delivered {
      RowIsNew(s, rows, e);
    }
  }

  lemma SyncHandlesAll<K(!new), T(!new)>(
      base: map<int, T>, key: T -> Option<K>, s: State<K, T>, rows: seq<Event<T>>, s': State<K, T>)
    requires Inv(base, key, s) && Next(base, key, s, Sync(rows, NoFault), s')
    ensures s'.delivered == s.delivered + rows && s.floor <= s'.floor && s'.mirror == ApplyAll(s.mirror, key, rows)
    ensures s'.trace == s.trace && s.phase.Live? && s'.phase.Live? && s'.fixedAt == s.fixedAt
  {
    ConsumeConserves(s.ranges, rows, CallbackFault(rows, NoFault), s.floor, s.consumed);
    var n := FirstUnknown(rows);
    if n < |rows| {
      RowIsNew(s, rows, rows[n]);
      KnownKinds(base, s.trace, rows[n]);
    }
    DrainedByOneCall(s.ranges, rows, LogOf(s.trace), s.floor, s.consumed);
    assert rows[..|rows|] == rows;
  }

  // If the last event of o is not waited for, no other one is.
  lemma OnlyTogetherTracked<K(!new), T(!new)>(
      base: map<int, T>, key: T -> Option<K>, s: State<K, T>, o: int, e: Event<T>)
    requires Inv(base, key, s) && s.phase.Live? && !LastTracked(s, o)
    requires s.fixedAt <= |s.trace| && e in s.trace[s.fixedAt..] && e.objectID == o
    ensures !Covered(s.ranges, e.id)
  {
    hide Life, Table, Ascending, Snapshot, ApplyAll, Of, Distinct;
    var early, late := s.trace[..s.fixedAt], s.trace[s.fixedAt..];
    assert s.trace == early + late;
    var last := LastOf(base, s.trace, o, e);
    if Covered(s.ranges, e.id) {
      if last in early {
        LaterIsLarger(base, early, late, last, e);
      } else {
        Reflects(s, last);
      }
    }
  }

  lemma LastOf<T(!new)>(base: map<int, T>, trace: seq<Event<T>>, o: int, e: Event<T>) returns (last: Event<T>)
    requires WellFormed(base, trace) && e in trace && e.objectID == o
    ensures Of(trace, o) != [] && last == Of(trace, o)[|Of(trace, o)| - 1]
    ensures last in trace && last.objectID == o && e.id <= last.id && (e.id == last.id ==> e == last)
  {
    var events := Of(trace, o);
    OfMember(trace, o, e);
    var i :| 0 <= i < |events| && events[i] == e;
    last := events[|events| - 1];
    assert Ascending(events) && last in events;
    OfMember(trace, o, last);
  }

  // An id that is past the floor and not waited for has been handled.
  lemma Reflects<K, T>(s: State<K, T>, e: Event<T>)
    requires Tracking(s) && Distinct(s.trace) && s.fixedAt <= |s.trace| && e in s.trace[s.fixedAt..]
    requires s.floor <= e.id && !Covered(s.ranges, e.id)
    ensures e in s.delivered
  {
    var early, late := s.trace[..s.fixedAt], s.trace[s.fixedAt..];
    assert s.trace == early + late;
    assert e.id in s.consumed;
    IdsAreDistinct(s.trace, s.fixedAt, e);
    var i :| 0 <= i < |s.delivered| && s.delivered[i].id == e.id;
    assert s.delivered[i] in s.delivered;
    SameIdSameEvent(s.trace, s.delivered[i], e);
  }

  // Then a Sync, whatever goes wrong in it, does not touch o.
  lemma UntrackedStays<K(!new), T(!new)>(
      base: map<int, T>, key: T -> Option<K>, s: State<K, T>, rows: seq<Event<T>>, fault: Consumer.Fault,
      s': State<K, T>, o: int)
    requires Inv(base, key, s) && Next(base, key, s, Sync(rows, fault), s') && !LastTracked(s, o)
    ensures ViewOf(s'.mirror, o) == ViewOf(s.mirror, o)
  {
    hide Inv, LastTracked, Consume, CallbackFault, Table;
    var d := Consume(s.ranges, rows, CallbackFault(rows, fault));
    var handled := Of(rows[..d.count], o);
    if handled != [] {
      var e := handled[0];
      assert e in handled;
      OfMember(rows[..d.count], o, e);
      TrackedRow(base, key, s, rows, e);
      OnlyTogetherTracked(base, key, s, o, e);
      assert false;
    }
    FoldProjects(s.mirror, key, rows[..d.count], o);
  }

  lemma TrackedRow<K(!new), T(!new)>(
      base: map<int, T>, key: T -> Option<K>, s: State<K, T>, rows: seq<Event<T>>, e: Event<T>)
    requires Inv(base, key, s) && s.phase.Live? && IsLoad(rows, LogOf(s.trace), s.ranges) && e in rows
    ensures s.fixedAt <= |s.trace| && e in s.trace[s.fixedAt..] && Covered(s.ranges, e.id)
  {
    RowIsNew(s, rows, e);
  }

  // Once its last event has been replayed, an object is in date.
  lemma LastDelivered<K(!new), T(!new)>(
      base: map<int, T>, key: T -> Option<K>, s: State<K, T>, rows: seq<Event<T>>, s': State<K, T>, o: int)
    requires Inv(base, key, s) && Next(base, key, s, Sync(rows, NoFault), s') && LastTracked(s, o)
    ensures InDate(base, s', o)
  {
    hide Inv, Consume, CallbackFault, Table, WellFormed, Drained, Covered;
    SyncHandlesAll(base, key, s, rows, s');
    StepKeeps(base, key, s, Sync(rows, NoFault), s');
    SyncDrains(base, key, s, rows, s');
    var events := Of(s.trace, o);
    var last := events[|events| - 1];
    assert last in events;
    OfMember(s.trace, o, last);
    if last !in s.delivered {
      SyncDelivers(base, key, s, rows, s', last);
    }
    ConvergedValue(base, key, s', o);
  }

  /** A Sync with no fault brings an object's row in date exactly if the consumer waits for the object's
      last event; otherwise the row stays what it was. */
  lemma SyncConverges<K(!new), T(!new)>(
      base: map<int, T>, key: T -> Option<K>, s: State<K, T>, rows: seq<Event<T>>, s': State<K, T>, o: int)
    requires Inv(base, key, s) && Next(base, key, s, Sync(rows, NoFault), s')
    ensures InDate(base, s', o) <==> InDate(base, s, o) || LastTracked(s, o)
    ensures !LastTracked(s, o) ==> ViewOf(s'.mirror, o) == ViewOf(s.mirror, o)
  {
    if LastTracked(s, o) {
      LastDelivered(base, key, s, rows, s', o);
    } else {
      UntrackedStays(base, key, s, rows, NoFault, s', o);
      assert ViewOf(s'.mirror, o).val == Lookup(s'.mirror.objects, o);
    }
  }

  // What reaches the copy by then was not missed, and the other way round.
  lemma MissedIsUnreached<K(!new), T(!new)>(
      base: map<int, T>, key: T -> Option<K>, s: State<K, T>, rows: seq<Event<T>>, s': State<K, T>, e: Event<T>)
    requires Inv(base, key, s) && Next(base, key, s, Sync(rows, NoFault), s') && e in s.trace
    ensures Missed(s', e) <==> !Reaches(s, e)
  {
    hide Inv, Next, Covered, Consume, CallbackFault;
    SyncHandlesAll(base, key, s, rows, s');
    LateAndEarly(base, key, s, e);
    if e !in s.delivered {
      SyncDelivers(base, key, s, rows, s', e);
    }
  }

  // A visible event is backlog or late, not both; a late one past the floor is waited for or replayed.
  lemma LateAndEarly<K(!new), T(!new)>(base: map<int, T>, key: T -> Option<K>, s: State<K, T>, e: Event<T>)
    requires Inv(base, key, s) && s.phase.Live? && e in s.trace
    ensures s.fixedAt <= |s.trace| && (e in s.trace[s.fixedAt..] <==> e !in s.trace[..s.fixedAt])
    ensures e in s.trace[s.fixedAt..] && e !in s.delivered && !Covered(s.ranges, e.id) ==> e.id < s.floor
    ensures Covered(s.ranges, e.id) ==> s.floor <= e.id && e in s.trace[s.fixedAt..]
    ensures e in s.delivered ==> e in s.trace[s.fixedAt..]
  {
    hide Life, Table, Snapshot, ApplyAll, Of;
    var early, late := s.trace[..s.fixedAt], s.trace[s.fixedAt..];
    assert s.trace == early + late;
    if e in late {
      IdsAreDistinct(s.trace, s.fixedAt, e);
      assert forall i :: 0 <= i < |early| ==> early[i].id in Ids(early);
      if e.id >= s.floor && !Covered(s.ranges, e.id) {
        Reflects(s, e);
      }
    }
  }

  /** If every event of an object was skipped as backlog, replayed or waited for, a Sync with no fault
      leaves exactly the table's row and exactly its index entry. */
  lemma SyncConvergesIndex<K(!new), T(!new)>(
      base: map<int, T>, key: T -> Option<K>, s: State<K, T>, rows: seq<Event<T>>, s': State<K, T>, o: int)
    requires Inv(base, key, s) && Next(base, key, s, Sync(rows, NoFault), s')
    requires forall e :: e in Of(s.trace, o) ==> Reaches(s, e)
    ensures var row := Lookup(Table(base, s'.trace), o); ViewOf(s'.mirror, o) == View(row, KeyOf(key, row))
  {
    hide Inv, Next, Reaches, Of, Table, Drained;
    SyncHandlesAll(base, key, s, rows, s');
    StepKeeps(base, key, s, Sync(rows, NoFault), s');
    SyncDrains(base, key, s, rows, s');
    forall e | Missed(s', e)
      ensures e.objectID != o
    {
      assert s'.trace == s'.trace[..s'.fixedAt] + s'.trace[s'.fixedAt..];
      assert e in s.trace;
      MissedIsUnreached(base, key, s, rows, s', e);
      OfMember(s.trace, o, e);
    }
    Converged(base, key, s', o);
  }

  // The life of an object goes on in any part of its events.
  lemma PartOfLife<T(!new)>(base: map<int, T>, trace: seq<Event<T>>, o: int, es: seq<Event<T>>)
    requires WellFormed(base, trace) && Ascending(es) && forall i :: 0 <= i < |es| ==> es[i] in Of(trace, o)
    ensures forall i :: 0 <= i < |es| ==> !es[i].kind.Unknown?
    ensures forall i :: 0 <= i < |es| && es[i].kind.Create? ==> i == 0
    ensures forall i :: 0 <= i < |es| && es[i].kind.Delete? ==> i == |es| - 1
  {
    var all := Of(trace, o);
    assert Ascending(all) && Life(Lookup(base, o), all);
    hide WellFormed, Of;
    forall i | 0 <= i < |es|
      ensures !es[i].kind.Unknown? && (es[i].kind.Create? ==> i == 0) && (es[i].kind.Delete? ==> i == |es| - 1)
    {
      var j :| 0 <= j < |all| && all[j] == es[i];
      var k :| 0 <= k < |all| && all[k] == es[0];
      var l :| 0 <= l < |all| && all[l] == es[|es| - 1];
    }
  }

  /** The exact condition for the index. With nothing tracked of the object its entries stay. Otherwise it
      ends up listed under exactly its key if and only if every key that the first tracked event does not
      take away is the key of one of the values the tracked events bring. */
  lemma SyncIndexExactly<K(!new), T(!new)>(
      base: map<int, T>, key: T -> Option<K>, s: State<K, T>, rows: seq<Event<T>>, s': State<K, T>, o: int)
    requires Inv(base, key, s) && Next(base, key, s, Sync(rows, NoFault), s')
    ensures var es, was := Of(rows, o), ViewOf(s.mirror, o);
            if es == [] then ViewOf(s'.mirror, o) == was
            else Exact(ViewOf(s'.mirror, o), key) <==> LeftBy(was, key, es[0]) <= KeysOf(key, es)
  {
    hide Inv, Exact, LeftBy, KeysOf, Consume, CallbackFault, Table;
    var es := Of(rows, o);
    SyncHandlesAll(base, key, s, rows, s');
    FoldProjects(s.mirror, key, rows, o);
    forall i | 0 <= i < |es|
      ensures es[i] in Of(s.trace, o)
    {
      assert es[i] in es;
      OfMember(rows, o, es[i]);
      TrackedRow(base, key, s, rows, es[i]);
      assert s.trace == s.trace[..s.fixedAt] + s.trace[s.fixedAt..];
      OfMember(s.trace, o, es[i]);
    }
    OfAscending(rows, o);
    if es != [] {
      LogIsWellFormed(base, key, s);
      PartOfLife(base, s.trace, o, es);
      ExactAfterReplay(ViewOf(s.mirror, o), key, es);
    }
  }

  lemma LogIsWellFormed<K(!new), T(!new)>(base: map<int, T>, key: T -> Option<K>, s: State<K, T>)
    requires Inv(base, key, s)
    ensures WellFormed(base, s.trace)
  {
  }

  /** If this holds of every visible event, map and index are the table's. */
  lemma SyncConvergesEverywhere<K(!new), T(!new)>(
      base: map<int, T>, key: T -> Option<K>, s: State<K, T>, rows: seq<Event<T>>, s': State<K, T>)
    requires Inv(base, key, s) && Next(base, key, s, Sync(rows, NoFault), s')
    requires forall e :: e in s.trace ==> Reaches(s, e)
    ensures s'.phase.Live? && s'.mirror.objects == Table(base, s'.trace)
    ensures Agrees(s'.mirror.entries, key, s'.mirror.objects)
  {
    hide Inv, Next, Reaches, Of, Table, Drained, Agrees;
    SyncHandlesAll(base, key, s, rows, s');
    StepKeeps(base, key, s, Sync(rows, NoFault), s');
    SyncDrains(base, key, s, rows, s');
    forall e
      ensures !Missed(s', e)
    {
      if Missed(s', e) {
        assert s'.trace == s'.trace[..s'.fixedAt] + s'.trace[s'.fixedAt..];
        MissedIsUnreached(base, key, s, rows, s', e);
      }
    }
    ConvergedEverywhere(base, key, s');
  }

  /** The statement over runs: every Sync with no fault brings in date exactly the rows whose last event
      the consumer waits for, and the index entries of every object none of whose events is lost. */
  lemma AfterEverySync<K(!new), T(!new)>(
      base: map<int, T>, key: T -> Option<K>, run: seq<State<K, T>>, steps: seq<Step<T>>, i: nat, o: int)
    requires IsRun(base, key, run, steps) && i < |steps| && steps[i].Sync? && steps[i].fault.NoFault?
    ensures InDate(base, run[i + 1], o) <==> InDate(base, run[i], o) || LastTracked(run[i], o)
    ensures var row := Lookup(Table(base, run[i + 1].trace), o);
            (forall e :: e in Of(run[i].trace, o) ==> Reaches(run[i], e)) ==>
              ViewOf(run[i + 1].mirror, o) == View(row, KeyOf(key, row))
  {
    RunKeeps(base, key, run, steps, i);
    assert Next(base, key, run[i], Sync(steps[i].rows, NoFault), run[i + 1]);
    hide Inv, Next, Of, Table, Reaches, LastTracked, InDate, IsRun;
    SyncConverges(base, key, run[i], steps[i].rows, run[i + 1], o);
    if forall e :: e in Of(run[i].trace, o) ==> Reaches(run[i], e) {
      SyncConvergesIndex(base, key, run[i], steps[i].rows, run[i + 1], o);
    }
  }
}
