/** A run in which a committed row never reaches the copy: a transaction that took its event id long ago
    commits after the snapshot (internal/models/cached_store.go). */
module LateEventRun {
  import opened Options
  import opened EventStore
  import opened Consumer = EventConsumer
  import opened EventDelivery
  import opened Replay
  import opened Replica
  import opened Convergence
  import opened Store = CachedStore

  // The newest event when the store starts, and the late one.
  const NEWEST := Event(25002, Create, 7, 70)
  const LATE := Event(1, Create, 8, 80)

  function NoKey(value: int): Option<int> {
    None
  }

  lemma OfTwo(o: int)
    ensures Of([NEWEST], o) == if o == 7 then [NEWEST] else []
    ensures Of([NEWEST, LATE], o) == if o == 7 then [NEWEST] else if o == 8 then [LATE] else []
  {
    assert [NEWEST, LATE][..1] == [NEWEST];
    assert [NEWEST][..0] == [];
  }

  lemma LogsAreWellFormed()
    ensures WellFormed(map[], [NEWEST]) && WellFormed(map[], [NEWEST, LATE])
  {
    hide Of;
    forall o
      ensures Ascending(Of([NEWEST], o)) && Life(Lookup(map[], o), Of([NEWEST], o))
      ensures Ascending(Of([NEWEST, LATE], o)) && Life(Lookup(map[], o), Of([NEWEST, LATE], o))
    {
      OfTwo(o);
    }
  }

  // The backlog from id 2 on is the newest event; then there is nothing to load.
  lemma Loads(rs: seq<EventRange>)
    requires rs == [EventRange(2, 25002), EventRange(25003, 0)]
    ensures IsLoad([NEWEST], LogOf([NEWEST]), [EventRange(2, 0)])
    ensures IsLoad([], LogOf([NEWEST, LATE]), rs)
  {
    assert [NEWEST, LATE][..1] == [NEWEST] && [NEWEST][..0] == [];
    assert LogOf([NEWEST]) == map[25002 := NEWEST];
    assert LogOf([NEWEST, LATE]) == map[25002 := NEWEST, 1 := LATE];
    assert [NEWEST][0].id == 25002;
    assert forall id :: id in Ids([NEWEST]) <==> id == 25002;
    assert [EventRange(2, 0)][0].Contains(25002);
    NoIds<int>([]);
  }

  lemma Consumed(rs: seq<EventRange>)
    requires rs == [EventRange(2, 25002), EventRange(25003, 0)]
    ensures Consume([EventRange(2, 0)], [NEWEST], Fault.NoFault) == Delivery(rs, 1, Done)
    ensures Consume<int>(rs, [], Fault.NoFault) == Delivery(rs, 0, Done)
  {
    var start := [EventRange(2, 0)];
    assert start[0].Contains(25002);
    assert start[1..] == [];
    assert Punch(start, 25002) == rs;
    assert rs[..1] == [EventRange(2, 25002)];
    assert rs[..1][..0] == [];
    assert RemoveEmpty(rs[..1][..0]) == [];
    assert RemoveEmpty(rs[..1]) == rs[..1];
    assert RemoveEmpty(rs) == rs;
    assert Deliver(rs, [NEWEST], 1, Fault.NoFault) == Delivery(rs, 1, Done);
  }

  /** The event is visible, a Sync with no fault has run since, and the copy does not have the row. */
  lemma LateRowIsLost() returns (run: seq<State<int, int>>, steps: seq<Step<int>>)
    ensures IsRun(map[], NoKey, run, steps) && |run| == 6 && steps[4] == Sync([], Fault.NoFault)
    ensures Inv(map[], NoKey, run[4]) && run[4].phase.Live? && Next(map[], NoKey, run[4], steps[4], run[5])
    ensures LATE in run[4].trace && !Reaches(run[4], LATE) && !LastTracked(run[4], 8)
    ensures Lookup(Table(map[], run[5].trace), 8) == Some(80) && Lookup(run[5].mirror.objects, 8) == None
  {
    hide WellFormed, IsLoad, Consume, Table, Snapshot, Of, LogOf, ApplyAll, CallbackFault, Inv, Reaches, LastTracked;
    LogsAreWellFormed();
    var rs := [EventRange(2, 25002), EventRange(25003, 0)];
    Loads(rs);
    Consumed(rs);
    NothingApplied(Snapshot(NoKey, Table(map[], [NEWEST])));
    var s0 := State([NEWEST], Off, [], Mirror(map[], {}), 0, {}, 0, 0, []);
    var s1 := s0.(phase := Positioned(2));
    var s2 := s1.(phase := CaughtUp, ranges := rs, floor := 2, consumed := Ids([NEWEST]), fixedAt := 1);
    var s3 := s2.(phase := Live, snapAt := 1, mirror := Snapshot(NoKey, Table(map[], [NEWEST])));
    var s4 := s3.(trace := [NEWEST, LATE]);
    run := [s0, s1, s2, s3, s4, s4];
    steps := [FixPosition(Some(25002)), SkipBacklog([NEWEST]), TakeSnapshot, Publish([LATE]), Sync([], Fault.NoFault)];
    assert Next(map[], NoKey, s0, steps[0], s1) by {
      assert [NEWEST][0].id == 25002;
    }
    assert Next(map[], NoKey, s1, steps[1], s2) by {
      assert [NEWEST][..1] == [NEWEST];
    }
    assert Next(map[], NoKey, s2, steps[2], s3);
    assert Next(map[], NoKey, s3, steps[3], s4) by {
      assert [NEWEST] + [LATE] == [NEWEST, LATE];
    }
    assert Next(map[], NoKey, s4, steps[4], s4) by {
      NoIds<int>([]);
      assert s4.consumed + Ids<int>([]) == s4.consumed;
      var none: seq<Event<int>> := [];
      assert none[..0] == none && s4.delivered + none == s4.delivered;
    }
    TablesDiffer();
    NotWaitedFor(s4);
    RunKeeps(map[], NoKey, run, steps, 4);
  }

  lemma NotWaitedFor(s: State<int, int>)
    requires s.trace == [NEWEST, LATE] && s.fixedAt == 1 && s.delivered == []
    requires s.ranges == [EventRange(2, 25002), EventRange(25003, 0)]
    ensures LATE in s.trace && !Reaches(s, LATE) && !LastTracked(s, 8)
  {
    OfTwo(8);
    assert s.trace[..1] == [NEWEST];
  }

  lemma NothingApplied(m: Mirror<int, int>)
    ensures ApplyAll(m, NoKey, []) == m
    ensures CallbackFault<int>([], Fault.NoFault) == Fault.NoFault
  {
  }

  lemma TablesDiffer()
    ensures Lookup(Table(map[], [NEWEST, LATE]), 8) == Some(80)
    ensures Lookup(Snapshot(NoKey, Table(map[], [NEWEST])).objects, 8) == None
  {
    OfTwo(8);
    TableProjects(map[], [NEWEST], 8);
    TableProjects(map[], [NEWEST, LATE], 8);
  }
}
