/** The two exceptions of the convergence of a cached store are real: an event that becomes visible at an
    id the consumer no longer waits for is lost until the store is initialised again
    (internal/models/cached_store.go, internal/db/event_consumer.go). */
module LostEvents {
  import opened Options
  import opened EventStore
  import opened Consumer = EventConsumer
  import opened EventDelivery
  import opened Replay
  import opened Replica
  import opened Convergence

  /** No later commit and no later Sync brings it back. */
  lemma MissedForGood<K(!new), T(!new)>(
      base: map<int, T>, key: T -> Option<K>, s: State<K, T>, step: Step<T>, s': State<K, T>, e: Event<T>)
    requires Inv(base, key, s) && s.phase.Live? && Next(base, key, s, step, s')
    requires (step.Publish? || step.Sync?) && Missed(s, e)
    ensures s'.phase.Live? && Missed(s', e)
  {
    hide WellFormed, InOrder;
    if step.Publish? {
      assert s'.trace[s.fixedAt..] == s.trace[s.fixedAt..] + step.batch;
    } else {
      SyncMovesOn(base, key, s, step.rows, step.fault, s', e);
    }
  }

  lemma SyncMovesOn<K(!new), T(!new)>(
      base: map<int, T>, key: T -> Option<K>, s: State<K, T>, rows: seq<Event<T>>, fault: Consumer.Fault,
      s': State<K, T>, e: Event<T>)
    requires Inv(base, key, s) && Next(base, key, s, Sync(rows, fault), s') && e.id < s.floor
    ensures s.floor <= s'.floor && (e in s'.delivered ==> e in s.delivered)
  {
    hide WellFormed, InOrder, Ascending;
    assert !Covered(s.ranges, e.id);
  }

  /** Of a batch that becomes visible, the next Sync with no fault replays exactly the events from the
      floor on. */
  lemma PublishedIsReplayed<K(!new), T(!new)>(
      base: map<int, T>, key: T -> Option<K>, s: State<K, T>, batch: seq<Event<T>>, s1: State<K, T>,
      rows: seq<Event<T>>, s2: State<K, T>, e: Event<T>)
    requires Inv(base, key, s) && s.phase.Live? && e in batch
    requires Next(base, key, s, Publish(batch), s1) && Next(base, key, s1, Sync(rows, NoFault), s2)
    ensures Covered(s1.ranges, e.id) <==> s.floor <= e.id
    ensures e in s2.delivered <==> s.floor <= e.id
  {
    hide WellFormed, InOrder, Of, Consume, Table;
    StepKeeps(base, key, s, Publish(batch), s1);
    BatchIsNew(base, key, s, batch, s1, e);
    SyncDelivers(base, key, s1, rows, s2, e);
  }

  // What was handled or replayed was visible.
  lemma HandledWasVisible<K(!new), T(!new)>(base: map<int, T>, key: T -> Option<K>, s: State<K, T>)
    requires Inv(base, key, s) && s.phase.Live?
    ensures s.fixedAt <= |s.trace| && Conserved(s.ranges, s.floor, s.consumed)
    ensures forall e :: e in s.delivered ==> e in s.trace
    ensures forall id :: id in s.consumed ==> id in Ids(s.trace)
  {
    hide WellFormed, InOrder, Table, Snapshot, ApplyAll, Conserved;
    assert s.trace == s.trace[..s.fixedAt] + s.trace[s.fixedAt..];
    forall id | id in s.consumed
      ensures id in Ids(s.trace)
    {
      if id in Ids(s.trace[..s.fixedAt]) {
        var i :| 0 <= i < s.fixedAt && s.trace[..s.fixedAt][i].id == id;
        assert s.trace[i].id == id;
      } else {
        var j :| 0 <= j < |s.delivered| && s.delivered[j].id == id;
        assert s.delivered[j] in s.delivered;
      }
    }
  }

  // A published event was not visible before, so the consumer has not handled its id.
  lemma BatchIsNew<K(!new), T(!new)>(
      base: map<int, T>, key: T -> Option<K>, s: State<K, T>, batch: seq<Event<T>>, s1: State<K, T>, e: Event<T>)
    requires Inv(base, key, s) && s.phase.Live? && e in batch && Next(base, key, s, Publish(batch), s1)
    ensures s1 == s.(trace := s.trace + batch)
    ensures e in s1.trace && e !in s.trace && e !in s.delivered
    ensures Covered(s.ranges, e.id) <==> s.floor <= e.id
  {
    hide Inv, Life, Of, Ascending;
    HandledWasVisible(base, key, s);
    assert (s.trace + batch)[|s.trace|..] == batch;
    IdsAreDistinct(s1.trace, |s.trace|, e);
    assert s1.trace[..|s.trace|] == s.trace;
    assert forall i :: 0 <= i < |s.trace| ==> s.trace[i].id in Ids(s.trace);
  }

  /** A new object is in the copy after the next Sync with no fault exactly if its event became visible
      at an id the consumer waited for, that is, from the floor on. */
  lemma CreateReachesCopy<K(!new), T(!new)>(
      base: map<int, T>, key: T -> Option<K>, s: State<K, T>, batch: seq<Event<T>>, e: Event<T>, s1: State<K, T>,
      rows: seq<Event<T>>, s2: State<K, T>)
    requires Inv(base, key, s) && s.phase.Live?
    requires e.kind.Create? && Of(s.trace, e.objectID) == [] && Of(batch, e.objectID) == [e]
    requires Next(base, key, s, Publish(batch), s1) && Next(base, key, s1, Sync(rows, NoFault), s2)
    ensures Lookup(Table(base, s2.trace), e.objectID) == Some(e.value)
    ensures Lookup(s2.mirror.objects, e.objectID) == if s.floor <= e.id then Some(e.value) else None
    ensures InDate(base, s2, e.objectID) <==> Covered(s1.ranges, e.id)
    ensures Covered(s1.ranges, e.id) <==> s.floor <= e.id
    ensures e.id < s.floor ==> Missed(s2, e)
  {
    hide Inv, WellFormed, Next, Of, Table, Missed, Covered, Reaches;
    var o := e.objectID;
    OfMember(batch, o, e);
    StepKeeps(base, key, s, Publish(batch), s1);
    PublishedIsReplayed(base, key, s, batch, s1, rows, s2, e);
    BatchIsNew(base, key, s, batch, s1, e);
    OneEventOnly(s.trace, batch, e);
    NewObject(base, key, s1, s, e);
    SyncHandlesAll(base, key, s1, rows, s2);
    SyncConverges(base, key, s1, rows, s2, o);
    assert LastTracked(s1, o) <==> Covered(s1.ranges, e.id);
    assert ViewOf(s2.mirror, o).val == Lookup(s2.mirror.objects, o);
    assert ViewOf(s1.mirror, o).val == Lookup(s1.mirror.objects, o);
    if e.id < s.floor {
      assert !Reaches(s1, e) by {
        NotBacklog(base, key, s, s1, e);
      }
      MissedIsUnreached(base, key, s1, rows, s2, e);
    }
  }

  lemma NotBacklog<K(!new), T(!new)>(
      base: map<int, T>, key: T -> Option<K>, s: State<K, T>, s1: State<K, T>, e: Event<T>)
    requires Inv(base, key, s) && s.phase.Live? && e !in s.trace && e !in s.delivered
    requires |s.trace| <= |s1.trace| && s1.trace[..|s.trace|] == s.trace && s1.fixedAt == s.fixedAt
    requires s1.delivered == s.delivered && !Covered(s1.ranges, e.id)
    ensures !Reaches(s1, e)
  {
    assert s1.trace[..s1.fixedAt] == s.trace[..s.fixedAt];
    assert s.trace == s.trace[..s.fixedAt] + s.trace[s.fixedAt..];
  }

  lemma OneEventOnly<T>(trace: seq<Event<T>>, batch: seq<Event<T>>, e: Event<T>)
    requires Of(trace, e.objectID) == [] && Of(batch, e.objectID) == [e]
    ensures Of(trace + batch, e.objectID) == [e]
  {
    OfConcat(trace, batch, e.objectID);
  }

  // An object none of whose events was visible when the snapshot was taken or since.
  lemma NewObject<K(!new), T(!new)>(
      base: map<int, T>, key: T -> Option<K>, s1: State<K, T>, s: State<K, T>, e: Event<T>)
    requires Inv(base, key, s) && Inv(base, key, s1) && s.phase.Live? && s1 == s.(trace := s1.trace)
    requires Of(s.trace, e.objectID) == [] && Of(s1.trace, e.objectID) == [e] && e.kind.Create?
    ensures Lookup(Table(base, s1.trace), e.objectID) == Some(e.value)
    ensures Lookup(s1.mirror.objects, e.objectID) == None
  {
    hide WellFormed, Tracking, InOrder, Table;
    var o := e.objectID;
    NothingOf(base, key, s, o);
    MirrorView(base, key, s, o);
    MirrorView(base, key, s1, o);
    assert Of(s1.trace, o)[0].kind.Create?;
    OfOne(e);
    TableProjects(base, s1.trace, o);
  }

  lemma NothingOf<K(!new), T(!new)>(base: map<int, T>, key: T -> Option<K>, s: State<K, T>, o: int)
    requires Inv(base, key, s) && s.phase.Live? && Of(s.trace, o) == []
    ensures s.snapAt <= |s.trace| && Of(s.trace[..s.snapAt], o) == [] && Of(s.delivered, o) == []
  {
    hide Of, WellFormed, InOrder, Conserved, Table;
    assert s.trace == s.trace[..s.snapAt] + s.trace[s.snapAt..];
    OfConcat(s.trace[..s.snapAt], s.trace[s.snapAt..], o);
    assert s.trace == s.trace[..s.fixedAt] + s.trace[s.fixedAt..];
    if Of(s.delivered, o) != [] {
      var f := Of(s.delivered, o)[0];
      assert f in Of(s.delivered, o);
      OfMember(s.delivered, o, f);
      OfMember(s.trace, o, f);
    }
  }

  lemma OfOne<T>(e: Event<T>)
    ensures Of([e], e.objectID) == [e]
    ensures forall val: Option<T> :: ValueAfter(val, []) == val
  {
    assert [e][..0] == [];
  }
}
