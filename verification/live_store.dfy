/** The code of the cached store as steps of the replica: each call below is one step, between any commits
    (internal/models/cached_store.go). A store has several indexes; the statements are about any one. */
module LiveStore {
  import opened Options
  import opened EventStore
  import opened Consumer = EventConsumer
  import opened EventDelivery
  import opened Index = BTreeIndex
  import opened Replay
  import opened Store = CachedStore
  import opened Replica
  import opened Convergence

  /** The store, with one of its indexes, is what the state says. */
  ghost predicate Shows<K(!new), T>(store: Store.CachedStore<K, T>, i: nat, s: State<K, T>)
    reads store, store.indexes, store.consumer
  {
    && i < |store.indexes|
    && (s.phase.CaughtUp? || s.phase.Live? ==> s.ranges == store.consumer.ranges)
    && (s.phase.Live? ==> s.mirror == store.MirrorOf(i))
  }

  /** Agreement with a table determines the map and the index. */
  lemma AgreeingIsSnapshot<K(!new), T>(m: Mirror<K, T>, key: T -> Option<K>)
    requires Agrees(m.entries, key, m.objects)
    ensures m == Snapshot(key, m.objects)
  {
    forall e: Entry<K>
      ensures e in m.entries <==> e in Snapshot(key, m.objects).entries
    {
      assert e == Entry(e.key, e.id);
    }
  }

  /** initEvents is SkipBacklog when it succeeds: `last` is what LastEventID has answered, `rows` what is
      loaded from the start id on by now. */
  method InitEvents<K(!new), T(!new)>(
      store: Store.CachedStore<K, T>, last: Option<int>, rows: seq<Event<T>>, fault: Fault, ghost base: map<int, T>,
      ghost s: State<K, T>, ghost i: nat)
    returns (outcome: Outcome, ghost s': State<K, T>)
    requires store.Valid() && i < |store.indexes| && Inv(base, store.indexes[i].key, s)
    requires s.phase == Positioned(StartID(last))
    requires IsLoad(rows, LogOf(s.trace), [EventRange(StartID(last), 0)])
    modifies store`consumer
    ensures store.Valid() && fresh(store.consumer)
    ensures Next(base, store.indexes[i].key, s, if outcome.Done? then SkipBacklog(rows) else FailInit, s')
    ensures Shows(store, i, s') && s'.trace == s.trace
  {
    hide Inv, Index.BTreeIndex.Valid, Consume;
    outcome := store.InitEvents(last, rows, fault);
    if outcome.Done? {
      SameAsNoFault(StartID(last), rows, LogOf(s.trace), fault);
      ghost var start := [EventRange(StartID(last), 0)];
      ghost var d := Consume(start, rows, NoFault);
      s' := s.(phase := CaughtUp, ranges := d.ranges, floor := NextFloor(StartID(last), start, d),
               consumed := Ids(rows[..d.count]), fixedAt := |s.trace|, delivered := []);
    } else {
      s' := s.(phase := Off);
    }
  }

  // A first call that ends well had no fault that mattered.
  lemma SameAsNoFault<T>(beginID: int, rows: seq<Event<T>>, log: Log<T>, fault: Fault)
    requires beginID >= 1 && IsLoad(rows, log, [EventRange(beginID, 0)])
    requires Consume([EventRange(beginID, 0)], rows, fault).outcome.Done?
    ensures var d := Consume([EventRange(beginID, 0)], rows, NoFault);
            Consume([EventRange(beginID, 0)], rows, fault) == d && d.count <= |rows| && d.ranges != []
  {
    var start := [EventRange(beginID, 0)];
    assert forall x :: Covered(start, x) <==> start[0].Contains(x);
    assert Conserved(start, beginID, {});
    hide Consume;
    LoadedRowsAreHandled(start, rows, log, fault);
    ConsumeConserves(start, rows, NoFault, beginID, {});
  }

  /** initObjects is TakeSnapshot: `rows` is the table as it stands in the log by now. */
  method InitObjects<K(!new), T(!new)>(
      store: Store.CachedStore<K, T>, rows: seq<Row<T>>, ghost base: map<int, T>, ghost s: State<K, T>, ghost i: nat)
    returns (ghost s': State<K, T>)
    requires store.Valid() && Shows(store, i, s) && s.phase.CaughtUp? && IsScan(rows, Table(base, s.trace))
    modifies store`objects, store.indexes
    ensures store.Valid() && Next(base, store.indexes[i].key, s, TakeSnapshot, s') && Shows(store, i, s')
  {
    hide Index.BTreeIndex.Valid, Agrees;
    store.InitObjects(rows, Table(base, s.trace));
    AgreeingIsSnapshot(store.MirrorOf(i), store.indexes[i].key);
    s' := s.(phase := Live, snapAt := |s.trace|, mirror := store.MirrorOf(i));
  }

  /** Sync is Sync, whatever goes wrong in it. */
  method Sync<K(!new), T(!new)>(
      store: Store.CachedStore<K, T>, rows: seq<Event<T>>, fault: Fault, ghost base: map<int, T>,
      ghost s: State<K, T>, ghost i: nat)
    returns (outcome: Outcome, ghost s': State<K, T>)
    requires store.Valid() && Shows(store, i, s) && s.phase.Live? && Inv(base, store.indexes[i].key, s)
    requires IsLoad(rows, LogOf(s.trace), s.ranges)
    modifies store, store.indexes, store.consumer
    ensures store.Valid() && store.consumer == old(store.consumer)
    ensures Next(base, store.indexes[i].key, s, Step.Sync(rows, fault), s') && Shows(store, i, s')
  {
    hide Index.BTreeIndex.Valid, Inv, Consume, CallbackFault;
    ghost var d := Consume(s.ranges, rows, CallbackFault(rows, fault));
    SyncLeavesRanges(base, store.indexes[i].key, s, rows, fault);
    outcome := store.Sync(rows, fault);
    s' := s.(ranges := d.ranges, floor := NextFloor(s.floor, s.ranges, d),
             consumed := s.consumed + Ids(rows[..d.count]), delivered := s.delivered + rows[..d.count],
             mirror := ApplyAll(s.mirror, store.indexes[i].key, rows[..d.count]));
  }

  lemma SyncLeavesRanges<K(!new), T(!new)>(
      base: map<int, T>, key: T -> Option<K>, s: State<K, T>, rows: seq<Event<T>>, fault: Fault)
    requires Inv(base, key, s) && s.phase.Live?
    ensures var d := Consume(s.ranges, rows, CallbackFault(rows, fault)); d.count <= |rows| && d.ranges != []
  {
    ConsumeConserves(s.ranges, rows, CallbackFault(rows, fault), s.floor, s.consumed);
  }

  /** After a Sync with no fault by which every visible event had reached the consumer, a lookup of several
      keys in the copy is filter and sort over the table. */
  method Find<K(!new), T(!new)>(
      store: Store.CachedStore<K, T>, i: nat, keys: seq<K>, beginID: int, reverse: bool, ghost base: map<int, T>,
      ghost s: State<K, T>, ghost rows: seq<Event<T>>, ghost s': State<K, T>)
    returns (ids: seq<int>)
    requires store.Valid() && i < |store.indexes| && Inv(base, store.indexes[i].key, s)
    requires Next(base, store.indexes[i].key, s, Step.Sync(rows, NoFault), s') && Shows(store, i, s')
    requires forall e :: e in s.trace ==> Reaches(s, e)
    requires forall j, k :: 0 <= j < k < |keys| ==> keys[j] != keys[k]
    ensures IsSelection(ids, Table(base, s'.trace), store.indexes[i].key, keys, beginID, reverse)
  {
    hide Inv, Next, Reaches, IsSelection;
    ghost var key := store.indexes[i].key;
    SyncConvergesEverywhere(base, key, s, rows, s');
    ids := FindAll(store.indexes[i], store.objects, keys, beginID, reverse);
  }
}
