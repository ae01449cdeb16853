/** The cached copy of one table (internal/models/cached_store.go). The queries are parameters: what
    LastEventID, LoadEvents and LoadObjects returned. */
module CachedStore {
  import opened Options
  import opened EventStore
  import opened Consumer = EventConsumer
  import opened Index = BTreeIndex
  import opened Replay

  // How far below the newest event the consumer starts.
  const START_WINDOW := 25000

  function StartID(lastEventID: Option<int>): (id: int)
    ensures id >= 1
    ensures lastEventID.None? ==> id == 1
    ensures lastEventID.Some? ==> (id == 1 <==> lastEventID.value <= 25001)
    ensures id > 1 ==> id + 25000 == lastEventID.value
  {
    match lastEventID
    case None => 1
    case Some(last) => if last > START_WINDOW then last - START_WINDOW else 1
  }

  // The position of the first event whose kind the callback does not know.
  function FirstUnknown<T>(rows: seq<Event<T>>): (n: nat)
    ensures n <= |rows|
    ensures forall i :: 0 <= i < n ==> !rows[i].kind.Unknown?
    ensures n < |rows| ==> rows[n].kind.Unknown?
  {
    if rows == [] || rows[0].kind.Unknown? then 0 else 1 + FirstUnknown(rows[1..])
  }

  /** The fault of a call whose callback also rejects events of unknown kind. */
  function CallbackFault<T>(rows: seq<Event<T>>, fault: Fault): (f: Fault)
    ensures f == fault || f == CallbackFails(FirstUnknown(rows))
  {
    var n := FirstUnknown(rows);
    if n == |rows| then fault
    else match fault
      case NoFault => CallbackFails(n)
      case LoadFails => fault
      case CallbackFails(at) => if at < n then fault else CallbackFails(n)
      case ReadFails(at) => if at <= n then fault else CallbackFails(n)
  }

  // At row i the callback fails if it is told to or does not know the kind.
  lemma CallbackStep<T>(rows: seq<Event<T>>, fault: Fault, i: nat)
    requires i <= FirstUnknown(rows) && !fault.LoadFails? && (fault.CallbackFails? ==> i <= fault.at)
    ensures var f := CallbackFault(rows, fault);
            if i == |rows| || (fault.ReadFails? && fault.at <= i) then f == fault || (f.CallbackFails? && f.at >= i && fault.CallbackFails?)
            else
              && !f.LoadFails? && !(f.ReadFails? && f.at <= i)
              && (f == CallbackFails(i) <==> fault == CallbackFails(i) || rows[i].kind.Unknown?)
  {
  }

  datatype Row<T> = Row(id: int, value: T)

  /** A full read of a table ordered by id. */
  ghost predicate IsScan<T>(rows: seq<Row<T>>, table: map<int, T>) {
    && (forall i, j :: 0 <= i < j < |rows| ==> rows[i].id < rows[j].id)
    && (forall i :: 0 <= i < |rows| ==> rows[i].id in table && table[rows[i].id] == rows[i].value)
    && (forall id :: id in table ==> exists i :: 0 <= i < |rows| && rows[i].id == id)
  }

  function Loaded<T>(rows: seq<Row<T>>): map<int, T> {
    if rows == [] then map[] else Loaded(rows[..|rows| - 1])[rows[|rows| - 1].id := rows[|rows| - 1].value]
  }

  lemma {:induction false} LoadedIds<T>(rows: seq<Row<T>>)
    ensures forall id :: id in Loaded(rows) <==> exists i :: 0 <= i < |rows| && rows[i].id == id
  {
    if rows != [] {
      var front := rows[..|rows| - 1];
      LoadedIds(front);
      forall id | id in Loaded(rows)
        ensures exists i :: 0 <= i < |rows| && rows[i].id == id
      {
        if id != rows[|rows| - 1].id {
          assert id in Loaded(front);
          var i :| 0 <= i < |front| && front[i].id == id;
          assert rows[i].id == id;
        }
      }
      forall i | 0 <= i < |rows|
        ensures rows[i].id in Loaded(rows)
      {
        assert i < |front| ==> front[i].id in Loaded(front);
      }
    }
  }

  lemma {:induction false} LoadedValues<T>(rows: seq<Row<T>>)
    requires forall i, j :: 0 <= i < j < |rows| ==> rows[i].id < rows[j].id
    ensures forall i :: 0 <= i < |rows| ==> rows[i].id in Loaded(rows) && Loaded(rows)[rows[i].id] == rows[i].value
  {
    if rows != [] {
      LoadedValues(rows[..|rows| - 1]);
    }
  }

  lemma ScanIsTable<T>(rows: seq<Row<T>>, table: map<int, T>)
    requires IsScan(rows, table)
    ensures Loaded(rows) == table
  {
    LoadedIds(rows);
    LoadedValues(rows);
    forall id
      ensures id in Loaded(rows) <==> id in table
      ensures id in table ==> Loaded(rows)[id] == table[id]
    {
      if id in Loaded(rows) || id in table {
        var i :| 0 <= i < |rows| && rows[i].id == id;
      }
    }
  }

  lemma CreateAgrees<K(!new), T>(m: Mirror<K, T>, key: T -> Option<K>, id: int, value: T)
    requires Agrees(m.entries, key, m.objects) && id !in m.objects
    ensures var n := OnCreate(m, key, id, value); Agrees(n.entries, key, n.objects)
  {
  }

  class CachedStore<K(==, !new), T> {
    const indexes: seq<Index.BTreeIndex<K, T>>
    var objects: map<int, T>
    var consumer: EventConsumer

    ghost predicate Indexed()
      reads this, indexes
    {
      && (forall i :: 0 <= i < |indexes| ==> indexes[i].Valid())
      && (forall i, j :: 0 <= i < j < |indexes| ==> indexes[i] != indexes[j])
    }

    ghost predicate Valid()
      reads this, indexes, consumer
    {
      Indexed() && consumer.Valid()
    }

    /** The object map together with one of the indexes. */
    ghost function MirrorOf(i: nat): Mirror<K, T>
      requires i < |indexes|
      reads this, indexes
    {
      Mirror(objects, Entries(indexes[i]))
    }

    constructor (indexes: seq<Index.BTreeIndex<K, T>>)
      requires forall i :: 0 <= i < |indexes| ==> indexes[i].Valid()
      requires forall i, j :: 0 <= i < j < |indexes| ==> indexes[i] != indexes[j]
      ensures Valid() && this.indexes == indexes && objects == map[] && fresh(consumer)
    {
      this.indexes := indexes;
      objects := map[];
      consumer := new EventConsumer(1);
    }

    method Reset()
      requires Indexed()
      modifies this`objects, indexes
      ensures Indexed()
      ensures objects == map[]
      ensures forall i :: 0 <= i < |indexes| ==> MirrorOf(i) == Mirror(map[], {})
    {
      for k := 0 to |indexes|
        invariant forall i :: 0 <= i < |indexes| ==> indexes[i].Valid()
        invariant forall i :: 0 <= i < k ==> indexes[i].m == []
      {
        indexes[k].Reset();
      }
      objects := map[];
    }

    method OnCreateObject(id: int, value: T)
      requires Indexed()
      modifies this`objects, indexes
      ensures Indexed()
      ensures objects == old(objects)[id := value]
      ensures forall i :: 0 <= i < |indexes| ==> MirrorOf(i) == OnCreate(old(MirrorOf(i)), indexes[i].key, id, value)
    {
      objects := objects[id := value];
      for k := 0 to |indexes|
        invariant objects == old(objects)[id := value]
        invariant forall i :: 0 <= i < |indexes| ==> indexes[i].Valid()
        invariant forall i :: 0 <= i < k ==>
          Entries(indexes[i]) == old(Entries(indexes[i])) + EntryOf(indexes[i].key, id, value)
        invariant forall i :: k <= i < |indexes| ==> indexes[i].m == old(indexes[i].m)
      {
        indexes[k].Register(id, value);
      }
    }

    method OnDeleteObject(id: int)
      requires Indexed()
      modifies this`objects, indexes
      ensures Indexed()
      ensures objects == old(objects) - {id}
      ensures forall i :: 0 <= i < |indexes| ==> MirrorOf(i) == OnDelete(old(MirrorOf(i)), indexes[i].key, id)
    {
      if id in objects {
        var value := objects[id];
        for k := 0 to |indexes|
          invariant objects == old(objects)
          invariant forall i :: 0 <= i < |indexes| ==> indexes[i].Valid()
          invariant forall i :: 0 <= i < k ==>
            Entries(indexes[i]) == old(Entries(indexes[i])) - EntryOf(indexes[i].key, id, value)
          invariant forall i :: k <= i < |indexes| ==> indexes[i].m == old(indexes[i].m)
        {
          indexes[k].Deregister(id, value);
        }
        objects := objects - {id};
      }
    }

    method OnUpdateObject(id: int, value: T)
      requires Indexed()
      modifies this`objects, indexes
      ensures Indexed()
      ensures objects == old(objects)[id := value]
      ensures forall i :: 0 <= i < |indexes| ==> MirrorOf(i) == OnUpdate(old(MirrorOf(i)), indexes[i].key, id, value)
    {
      OnDeleteObject(id);
      OnCreateObject(id, value);
    }

    /** Applies one event to the map and to every index; an unknown kind is an error and changes
        nothing. */
    method ConsumeEvent(e: Event<T>) returns (ok: bool)
      requires Indexed()
      modifies this`objects, indexes
      ensures Indexed()
      ensures ok <==> !e.kind.Unknown?
      ensures objects ==
                match e.kind
                case Create => old(objects)[e.objectID := e.value]
                case Update => old(objects)[e.objectID := e.value]
                case Delete => old(objects) - {e.objectID}
                case Unknown(_) => old(objects)
      ensures forall i :: 0 <= i < |indexes| ==> MirrorOf(i) == Apply(old(MirrorOf(i)), indexes[i].key, e)
    {
      ok := true;
      match e.kind
      case Create => OnCreateObject(e.objectID, e.value);
      case Delete => OnDeleteObject(e.objectID);
      case Update => OnUpdateObject(e.objectID, e.value);
      case Unknown(_) => ok := false;
    }

    /** Fixes the consumer's position and skips what is visible already. */
    method InitEvents(lastEventID: Option<int>, rows: seq<Event<T>>, fault: Fault) returns (outcome: Outcome)
      requires Valid() && Ascending(rows)
      modifies this`consumer
      ensures Valid() && fresh(consumer)
      ensures var d := Consume([EventRange(StartID(lastEventID), 0)], rows, fault);
              outcome == d.outcome && consumer.ranges == d.ranges
    {
      consumer := new EventConsumer(StartID(lastEventID));
      var skipped;
      skipped, outcome := consumer.ConsumeEvents(rows, fault);
    }

    /** Loads the snapshot: the rows of the table in order of id. */
    method InitObjects(rows: seq<Row<T>>, ghost table: map<int, T>)
      requires Valid() && IsScan(rows, table)
      modifies this`objects, indexes
      ensures Valid() && objects == table
      ensures forall i :: 0 <= i < |indexes| ==> Agrees(Entries(indexes[i]), indexes[i].key, objects)
    {
      Reset();
      forall i | 0 <= i < |indexes|
        ensures Agrees(Entries(indexes[i]), indexes[i].key, objects)
      {
        assert MirrorOf(i) == Mirror(map[], {});
      }
      for n := 0 to |rows|
        invariant Valid() && objects == Loaded(rows[..n])
        invariant forall i :: 0 <= i < |indexes| ==> Agrees(Entries(indexes[i]), indexes[i].key, objects)
      {
        assert rows[..n + 1][..n] == rows[..n];
        LoadedIds(rows[..n]);
        assert rows[n].id !in objects;
        label before:
        OnCreateObject(rows[n].id, rows[n].value);
        forall i | 0 <= i < |indexes|
          ensures Agrees(Entries(indexes[i]), indexes[i].key, objects)
        {
          CreateAgrees(old@before(MirrorOf(i)), indexes[i].key, rows[n].id, rows[n].value);
        }
      }
      assert rows[..|rows|] == rows;
      ScanIsTable(rows, table);
    }

    /** Replays what LoadEvents returned for the tracked ranges: ConsumeEvents with consumeEvent for its
        callback. */
    method Sync(rows: seq<Event<T>>, fault: Fault) returns (outcome: Outcome)
      requires Valid() && Ascending(rows)
      modifies this, indexes, consumer
      ensures Valid() && consumer == old(consumer)
      ensures var d := Consume(old(consumer.ranges), rows, CallbackFault(rows, fault));
              && outcome == d.outcome && consumer.ranges == d.ranges && d.count <= |rows|
              && objects == Table(old(objects), rows[..d.count])
              && forall i :: 0 <= i < |indexes| ==>
                   MirrorOf(i) == ApplyAll(old(MirrorOf(i)), indexes[i].key, rows[..d.count])
    {
      hide Index.BTreeIndex.Valid, Entries, Consume, Deliver;
      ghost var f := CallbackFault(rows, fault);
      ghost var was := consumer.ranges;
      if fault.LoadFails? {
        outcome := LoadError;
        consumer.Finish(rows, 0, f, outcome, was);
        assert rows[..0] == [];
      } else {
        var count;
        outcome, count := HandleRows(rows, fault);
        consumer.Finish(rows, count, f, outcome, was);
      }
    }

    /** The loop of ConsumeEvents: an event is taken out of the ranges after the callback has accepted it. */
    method HandleRows(rows: seq<Event<T>>, fault: Fault) returns (outcome: Outcome, count: nat)
      requires Valid() && Ascending(rows) && !fault.LoadFails?
      modifies this`objects, indexes, consumer`ranges
      ensures Indexed() && count <= |rows|
      ensures Deliver(old(consumer.ranges), rows, 0, CallbackFault(rows, fault)) ==
              Delivery(consumer.ranges, count, outcome)
      ensures objects == Table(old(objects), rows[..count])
      ensures forall i :: 0 <= i < |indexes| ==>
                MirrorOf(i) == ApplyAll(old(MirrorOf(i)), indexes[i].key, rows[..count])
    {
      hide Index.BTreeIndex.Valid, Separated, AtRow, Found, Entries, CallbackFault, Deliver;
      FirstRow(consumer.ranges, rows);
      ghost var f := CallbackFault(rows, fault);
      ghost var was := consumer.ranges;
      var it := 0;
      count := 0;
      while count < |rows| && !(fault.ReadFails? && fault.at <= count)
        invariant 0 <= count <= FirstUnknown(rows) && AtRow(consumer.ranges, it, rows, count)
        invariant fault.CallbackFails? ==> count <= fault.at
        invariant Indexed()
        invariant Deliver(was, rows, 0, f) == Deliver(consumer.ranges, rows, count, f)
        invariant objects == Table(old(objects), rows[..count])
        invariant forall k :: 0 <= k < |indexes| ==>
          MirrorOf(k) == ApplyAll(old(MirrorOf(k)), indexes[k].key, rows[..count])
      {
        var eventID := rows[count].id;
        CallbackStep(rows, fault, count);
        DeliverStep(consumer.ranges, rows, count, f);
        it := consumer.Seek(it, eventID, rows, count);
        if it == |consumer.ranges| {
          return InvalidID, count;
        }
        if fault == CallbackFails(count) {
          return CallbackError, count;
        }
        var ok := ConsumeEvent(rows[count]);
        if !ok {
          return CallbackError, count;
        }
        consumer.Take(it, eventID, rows, count);
        assert rows[..count + 1][..count] == rows[..count];
        count := count + 1;
      }
      outcome := if fault.ReadFails? then ReadError else Done;
      CallbackStep(rows, fault, count);
      DeliverStep(consumer.ranges, rows, count, f);
    }
  }
}
