/** Any sequence of ConsumeEvents calls on one consumer, each of which may fail in any way. */
module EventDelivery {
  import opened EventStore
  import opened EventConsumer

  // A call: the events visible when its query ran, the rows that came back, and what went wrong.
  datatype Call<T> = Call(log: Log<T>, rows: seq<Event<T>>, fault: Fault)

  ghost function After<T>(rs: seq<EventRange>, calls: seq<Call<T>>): seq<EventRange>
    decreases |calls|
  {
    if calls == [] then rs else After(Consume(rs, calls[0].rows, calls[0].fault).ranges, calls[1..])
  }

  // The rows handled successfully, call after call.
  ghost function Handled<T>(rs: seq<EventRange>, calls: seq<Call<T>>): seq<Event<T>>
    decreases |calls|
  {
    if calls == [] then []
    else
      var d := Consume(rs, calls[0].rows, calls[0].fault);
      calls[0].rows[..if d.count <= |calls[0].rows| then d.count else 0] + Handled(d.ranges, calls[1..])
  }

  // Events are only ever added to the log, and every query sees the ranges the consumer tracks.
  ghost predicate Feasible<T>(rs: seq<EventRange>, calls: seq<Call<T>>)
    decreases |calls|
  {
    calls != [] ==>
      && IsLoad(calls[0].rows, calls[0].log, rs)
      && (|calls| > 1 ==> calls[0].log.Items <= calls[1].log.Items)
      && Feasible(Consume(rs, calls[0].rows, calls[0].fault).ranges, calls[1..])
  }

  /** Every call leaves fewer than 5000 ranges: the window may have dropped none. */
  ghost predicate FewGaps<T>(rs: seq<EventRange>, calls: seq<Call<T>>)
    decreases |calls|
  {
    calls != [] ==>
      var left := Consume(rs, calls[0].rows, calls[0].fault).ranges;
      |left| < 5000 && FewGaps(left, calls[1..])
  }

  ghost predicate Distinct<T>(rows: seq<Event<T>>) {
    forall i, j :: 0 <= i < j < |rows| ==> rows[i].id != rows[j].id
  }

  /** Handled at most once, none of them before, and none below the floor. */
  ghost predicate Once<T>(rows: seq<Event<T>>, floor: int, before: set<int>) {
    Distinct(rows) && Ids(rows) !! before && forall k :: 0 <= k < |rows| ==> floor <= rows[k].id
  }

  lemma FreshOnce<T>(rows: seq<Event<T>>, count: nat, floor: int, before: set<int>)
    requires count <= |rows| && FreshRows(rows, 0, count, floor, before)
    ensures Once(rows[..count], floor, before)
  {
  }

  lemma OnceConcat<T>(a: seq<Event<T>>, b: seq<Event<T>>, floor: int, floor': int, before: set<int>)
    requires Once(a, floor, before) && Once(b, floor', before + Ids(a)) && floor <= floor'
    ensures Once(a + b, floor, before)
  {
    var all := a + b;
    IdsConcat(a, b);
    forall i, j | 0 <= i < j < |all|
      ensures all[i].id != all[j].id
    {
      if i < |a| <= j {
        assert b[j - |a|].id in Ids(b) && a[i].id in Ids(a);
      }
    }
  }

  /** However the calls fail, no event is handled twice, and at the end the consumer waits for exactly
      the ids from some floor on that were not handled; the floor is at least the first id tracked,
      and is that as long as the gaps are few. */
  lemma {:induction false} ExactlyOnceFrom<T>(
      rs: seq<EventRange>, calls: seq<Call<T>>, floor: int, before: set<int>) returns (end: int)
    requires Conserved(rs, floor, before) && Feasible(rs, calls)
    ensures floor <= end && Conserved(After(rs, calls), end, before + Ids(Handled(rs, calls)))
    ensures FewGaps(rs, calls) ==> end == floor
    ensures Once(Handled(rs, calls), floor, before)
    decreases |calls|
  {
    hide Conserved, Once, Distinct, FreshRows, NextFloor, Compact, IsLoad;
    if calls == [] {
      end := floor;
      assert before + Ids(Handled(rs, calls)) == before;
      NothingOnce<T>(floor, before);
    } else {
      var call := calls[0];
      var d := Consume(rs, call.rows, call.fault);
      ConsumeConserves(rs, call.rows, call.fault, floor, before);
      var first := call.rows[..d.count];
      FreshOnce(call.rows, d.count, floor, before);
      var rest := Handled(d.ranges, calls[1..]);
      var next := if |d.ranges| < GAP_SKIP_WINDOW then floor else NextFloor(floor, rs, d);
      end := ExactlyOnceFrom(d.ranges, calls[1..], next, before + Ids(first));
      IdsConcat(first, rest);
      assert before + Ids(first + rest) == before + Ids(first) + Ids(rest);
      OnceConcat(first, rest, floor, next, before);
    }
  }

  lemma NothingOnce<T>(floor: int, before: set<int>)
    ensures Once<T>([], floor, before)
  {
  }

  /** From a fresh consumer: at most once, from beginID on, and after a last call with no fault every
      visible event from the floor on has been handled and BeginEventID is the first id that has not. While
      the gaps are few the floor is beginID, so no event is skipped. */
  lemma ExactlyOnce<T>(beginID: int, calls: seq<Call<T>>) returns (floor: int)
    requires beginID >= 1 && Feasible([EventRange(beginID, 0)], calls)
    ensures var rs := After([EventRange(beginID, 0)], calls);
            var handled := Handled([EventRange(beginID, 0)], calls);
            && beginID <= floor && (FewGaps([EventRange(beginID, 0)], calls) ==> floor == beginID)
            && Distinct(handled)
            && (forall k :: 0 <= k < |handled| ==> beginID <= handled[k].id)
            && Conserved(rs, floor, Ids(handled))
            && (calls != [] && calls[|calls| - 1].fault.NoFault? ==>
                  && (forall id :: id in calls[|calls| - 1].log && floor <= id ==> id in Ids(handled))
                  && rs != [] && rs[0].begin !in Ids(handled) && floor <= rs[0].begin
                  && (forall id :: floor <= id < rs[0].begin ==> id in Ids(handled)))
  {
    var rs := [EventRange(beginID, 0)];
    assert forall x :: Covered(rs, x) <==> rs[0].Contains(x);
    floor := ExactlyOnceFrom(rs, calls, beginID, {});
    assert {} + Ids(Handled(rs, calls)) == Ids(Handled(rs, calls));
    if calls != [] && calls[|calls| - 1].fault.NoFault? {
      LastCallDrains(rs, calls, beginID, {});
      FirstIsSmallest(After(rs, calls));
    }
  }

  // After a last call with no fault nothing visible is pending.
  lemma {:induction false} LastCallDrains<T>(rs: seq<EventRange>, calls: seq<Call<T>>, floor: int, before: set<int>)
    requires Conserved(rs, floor, before) && Feasible(rs, calls)
    requires calls != [] && calls[|calls| - 1].fault.NoFault?
    ensures Compact(After(rs, calls))
    ensures forall id :: id in calls[|calls| - 1].log ==> !Covered(After(rs, calls), id)
    decreases |calls|
  {
    hide Conserved, FreshRows, NextFloor, IsLoad, Compact, Covered, Ids;
    var call := calls[0];
    var d := Consume(rs, call.rows, call.fault);
    ConsumeConserves(rs, call.rows, call.fault, floor, before);
    if |calls| == 1 {
      assert After(rs, calls) == d.ranges;
      DrainedByOneCall(rs, call.rows, call.log, floor, before);
    } else {
      LastCallDrains(d.ranges, calls[1..], NextFloor(floor, rs, d), before + Ids(call.rows[..d.count]));
    }
  }

  /** A call with no fault leaves no visible event pending. */
  lemma DrainedByOneCall<T>(rs: seq<EventRange>, rows: seq<Event<T>>, log: Log<T>, floor: int, before: set<int>)
    requires Conserved(rs, floor, before) && IsLoad(rows, log, rs)
    ensures var d := Consume(rs, rows, NoFault);
            && d.outcome.Done? && d.count == |rows| && Compact(d.ranges)
            && forall id :: id in log ==> !Covered(d.ranges, id)
  {
    ConsumeConserves(rs, rows, NoFault, floor, before);
    LoadedRowsAreHandled(rs, rows, log, NoFault);
    var d := Consume(rs, rows, NoFault);
    assert rows[..d.count] == rows;
    forall id | id in log
      ensures !Covered(d.ranges, id)
    {
      assert id in Ids(rows) <==> Covered(rs, id);
    }
  }

  /** The event on which the callback failed is offered again by the next query. */
  lemma FailedEventIsOfferedAgain<T>(
      rs: seq<EventRange>, rows: seq<Event<T>>, log: Log<T>, at: nat, rows': seq<Event<T>>, log': Log<T>)
    requires Separated(rs) && IsLoad(rows, log, rs) && at < |rows|
    requires log.Items <= log'.Items && IsLoad(rows', log', Consume(rs, rows, CallbackFails(at)).ranges)
    ensures rows[at] in rows'
    ensures forall k :: 0 <= k < at ==> rows[k].id !in Ids(rows')
  {
    LoadedRowsAreHandled(rs, rows, log, CallbackFails(at));
    var e := rows[at];
    assert (e.id, e) in log.Items;
    assert e.id in Ids(rows');
    var i :| 0 <= i < |rows'| && rows'[i].id == e.id;
    assert rows'[i] == log'[e.id] == e;
    assert forall k :: 0 <= k < |rows| ==> rows[k].id in Ids(rows);
    HandledRowsAreGone(rs, rows, 0, at);
  }

  lemma {:induction false} HandledRowsAreGone<T>(rs: seq<EventRange>, rows: seq<Event<T>>, i: nat, at: nat)
    requires Separated(rs) && Ascending(rows) && i <= at < |rows|
    requires forall k :: i <= k < |rows| ==> Covered(rs, rows[k].id)
    ensures var d := Deliver(rs, rows, i, CallbackFails(at));
            && (forall k :: i <= k < at ==> !Covered(d.ranges, rows[k].id))
            && (forall x :: Covered(d.ranges, x) ==> Covered(rs, x))
    decreases at - i
  {
    if i < at {
      var rest := Punch(rs, rows[i].id);
      forall x
        ensures Separated(rest)
        ensures Covered(rest, x) <==> Covered(rs, x) && x != rows[i].id
      {
        PunchCovers(rs, rows[i].id, x);
      }
      HandledRowsAreGone(rest, rows, i + 1, at);
    }
  }
}
