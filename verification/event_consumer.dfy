/** The consumer that remembers which event ids it still has to see, as a list of ranges which it
    splits and shifts in place (internal/db/event_consumer.go). */
module EventConsumer {
  import opened EventStore

  // Gaps of failed transactions never fill, so only this many newest ranges are kept.
  const GAP_SKIP_WINDOW := 5000

  /** Sorted ranges with at least one id between any two neighbours, and one unbounded tail. A range
      may be empty: an interrupted call leaves empty ranges behind. */
  ghost predicate Separated(rs: seq<EventRange>) {
    && |rs| > 0
    && rs[|rs| - 1].end == 0
    && (forall i :: 0 <= i < |rs| ==> 1 <= rs[i].begin)
    && (forall i :: 0 <= i < |rs| - 1 ==> rs[i].begin <= rs[i].end)
    && (forall i, j :: 0 <= i < j < |rs| ==> rs[i].end < rs[j].begin)
  }

  // The ranges before the tail.
  ghost predicate Chain(rs: seq<EventRange>) {
    && (forall i :: 0 <= i < |rs| ==> 1 <= rs[i].begin <= rs[i].end)
    && (forall i, j :: 0 <= i < j < |rs| ==> rs[i].end < rs[j].begin)
  }

  ghost predicate Compact(rs: seq<EventRange>) {
    Separated(rs) && forall i :: 0 <= i < |rs| ==> !rs[i].IsEmpty()
  }

  // ---- What one call does to the ranges ----

  /** Takes id out of the first range that has it. */
  function Punch(rs: seq<EventRange>, id: int): seq<EventRange> {
    if rs == [] then []
    else if rs[0].Contains(id) then PunchRange(rs[0], id) + rs[1..]
    else [rs[0]] + Punch(rs[1..], id)
  }

  function PunchRange(r: EventRange, id: int): seq<EventRange> {
    if id == r.begin then [r.(begin := id + 1)] else [r.(end := id), r.(begin := id + 1)]
  }

  function RemoveEmpty(rs: seq<EventRange>): seq<EventRange> {
    if rs == [] then []
    else
      var last := rs[|rs| - 1];
      RemoveEmpty(rs[..|rs| - 1]) + if last.IsEmpty() then [] else [last]
  }

  function Window(rs: seq<EventRange>): seq<EventRange> {
    if |rs| > GAP_SKIP_WINDOW then rs[|rs| - GAP_SKIP_WINDOW..] else rs
  }

  /** What may go wrong in a call: the query fails, the callback rejects the row at an index, or
      reading stops with an error before the row at an index. */
  datatype Fault = NoFault | LoadFails | CallbackFails(at: nat) | ReadFails(at: nat)

  datatype Outcome = Done | LoadError | CallbackError | ReadError | InvalidID

  datatype Delivery = Delivery(ranges: seq<EventRange>, count: nat, outcome: Outcome)

  function Deliver<T>(rs: seq<EventRange>, rows: seq<Event<T>>, i: nat, fault: Fault): Delivery
    requires i <= |rows|
    decreases |rows| - i
  {
    if i == |rows| || (fault.ReadFails? && fault.at <= i) then
      Delivery(rs, i, if fault.ReadFails? then ReadError else Done)
    else if !Covered(rs, rows[i].id) then Delivery(rs, i, InvalidID)
    else if fault == CallbackFails(i) then Delivery(rs, i, CallbackError)
    else Deliver(Punch(rs, rows[i].id), rows, i + 1, fault)
  }

  /** The whole call, as a function of the tracked ranges, the loaded rows and the fault. */
  function Consume<T>(rs: seq<EventRange>, rows: seq<Event<T>>, fault: Fault): Delivery {
    if fault.LoadFails? then Delivery(rs, 0, LoadError)
    else
      var d := Deliver(rs, rows, 0, fault);
      if d.outcome.Done? || d.outcome.ReadError? then d.(ranges := Window(RemoveEmpty(d.ranges))) else d
  }

  // ---- Coverage of the single operations ----

  lemma {:induction false} PunchAt(rs: seq<EventRange>, it: nat, id: int)
    requires it < |rs| && rs[it].Contains(id)
    requires forall i :: 0 <= i < it ==> !rs[i].Contains(id)
    ensures Punch(rs, id) == rs[..it] + PunchRange(rs[it], id) + rs[it + 1..]
  {
    if it > 0 {
      PunchAt(rs[1..], it - 1, id);
      assert rs[1..][..it - 1] == rs[1..it];
      assert rs[1..][it..] == rs[it + 1..];
      assert [rs[0]] + rs[1..it] == rs[..it];
    }
  }

  // Ranges that are apart contain an id at most once.
  lemma FirstContaining(rs: seq<EventRange>, id: int) returns (it: nat)
    requires Separated(rs) && Covered(rs, id)
    ensures it < |rs| && rs[it].Contains(id)
    ensures forall i :: 0 <= i < |rs| && i != it ==> !rs[i].Contains(id)
  {
    it :| 0 <= it < |rs| && rs[it].Contains(id);
  }

  /** Punching removes exactly the one id and keeps the ranges apart. */
  lemma PunchCovers(rs: seq<EventRange>, id: int, x: int)
    requires Separated(rs) && Covered(rs, id)
    ensures Separated(Punch(rs, id))
    ensures Covered(Punch(rs, id), x) <==> Covered(rs, x) && x != id
  {
    var it := FirstContaining(rs, id);
    PunchAt(rs, it, id);
    if id == rs[it].begin {
      PunchFront(rs, it, x);
    } else {
      PunchMiddle(rs, it, id, x);
    }
  }

  lemma PunchFront(rs: seq<EventRange>, it: nat, x: int)
    requires Separated(rs) && it < |rs| && rs[it].Contains(rs[it].begin)
    ensures var out := rs[..it] + PunchRange(rs[it], rs[it].begin) + rs[it + 1..];
            Separated(out) && (Covered(out, x) <==> Covered(rs, x) && x != rs[it].begin)
  {
    var r := rs[it].(begin := rs[it].begin + 1);
    assert rs[..it] + PunchRange(rs[it], rs[it].begin) + rs[it + 1..] == rs[it := r];
    AdvanceCovers(rs, it, rs[it := r], x);
  }

  lemma AdvanceCovers(rs: seq<EventRange>, it: nat, out: seq<EventRange>, x: int)
    requires Separated(rs) && it < |rs| && rs[it].Contains(rs[it].begin)
    requires out == rs[it := rs[it].(begin := rs[it].begin + 1)]
    ensures Separated(out) && (Covered(out, x) <==> Covered(rs, x) && x != rs[it].begin)
  {
    if Covered(rs, x) && x != rs[it].begin {
      var i :| 0 <= i < |rs| && rs[i].Contains(x);
      assert out[i].Contains(x);
    }
    if Covered(out, x) {
      var i :| 0 <= i < |rs| && out[i].Contains(x);
      assert rs[i].Contains(x);
    }
  }

  lemma PunchMiddle(rs: seq<EventRange>, it: nat, id: int, x: int)
    requires Separated(rs) && it < |rs| && rs[it].Contains(id) && id != rs[it].begin
    ensures var out := rs[..it] + PunchRange(rs[it], id) + rs[it + 1..];
            Separated(out) && (Covered(out, x) <==> Covered(rs, x) && x != id)
  {
    var out := rs[..it] + PunchRange(rs[it], id) + rs[it + 1..];
    assert IsSplit(rs, out, it, id);
    SplitSeparated(rs, out, it, id);
    SplitCovers(rs, out, it, id, x);
  }

  ghost predicate IsSplit(rs: seq<EventRange>, out: seq<EventRange>, it: nat, id: int) {
    && it < |rs| && |out| == |rs| + 1
    && (forall k :: 0 <= k < it ==> out[k] == rs[k])
    && out[it] == rs[it].(end := id)
    && out[it + 1] == rs[it].(begin := id + 1)
    && (forall k :: it + 2 <= k < |out| ==> out[k] == rs[k - 1])
  }

  lemma SplitSeparated(rs: seq<EventRange>, out: seq<EventRange>, it: nat, id: int)
    requires Separated(rs) && IsSplit(rs, out, it, id) && rs[it].Contains(id) && id != rs[it].begin
    ensures Separated(out)
  {
    forall i, j | 0 <= i < j < |out|
      ensures out[i].end < out[j].begin
    {
      var a, b := if i <= it then i else i - 1, if j <= it then j else j - 1;
      assert a < b ==> rs[a].end < rs[b].begin;
    }
  }

  lemma SplitCovers(rs: seq<EventRange>, out: seq<EventRange>, it: nat, id: int, x: int)
    requires Separated(rs) && IsSplit(rs, out, it, id) && rs[it].Contains(id) && id != rs[it].begin
    ensures Covered(out, x) <==> Covered(rs, x) && x != id
  {
    if Covered(rs, x) && x != id {
      var i :| 0 <= i < |rs| && rs[i].Contains(x);
      assert out[if i < it || (i == it && x < id) then i else i + 1].Contains(x);
    }
    if Covered(out, x) {
      var i :| 0 <= i < |out| && out[i].Contains(x);
      var k := if i <= it then i else i - 1;
      assert rs[k].Contains(x);
      assert k != it ==> x != id by {
        assert k < it ==> rs[k].end < rs[it].begin;
        assert it < k ==> rs[it].end < rs[k].begin;
      }
    }
  }

  lemma {:induction false} RemoveEmptyChain(rs: seq<EventRange>)
    requires Chain(rs)
    ensures var out := RemoveEmpty(rs);
            Chain(out) && forall r :: r in out <==> r in rs && !r.IsEmpty()
  {
    if rs != [] {
      var front, last := rs[..|rs| - 1], rs[|rs| - 1];
      RemoveEmptyChain(front);
      assert rs == front + [last];
      forall r | r in RemoveEmpty(front)
        ensures r.end < last.begin
      {
        assert r in front;
      }
    }
  }

  /** Dropping empty ranges changes nothing that is covered. */
  lemma RemoveEmptyCovers(rs: seq<EventRange>)
    requires Separated(rs)
    ensures Compact(RemoveEmpty(rs))
    ensures forall x :: Covered(RemoveEmpty(rs), x) <==> Covered(rs, x)
  {
    var front, tail := rs[..|rs| - 1], rs[|rs| - 1];
    RemoveEmptyChain(front);
    var kept := RemoveEmpty(front);
    assert rs == front + [tail] && RemoveEmpty(rs) == kept + [tail];
    forall r | r in kept
      ensures r.end < tail.begin && !r.IsEmpty()
    {
      assert r in front;
    }
    SameCoverage(front, kept, tail);
    AppendTail(kept, tail);
  }

  lemma AppendTail(kept: seq<EventRange>, tail: EventRange)
    requires Chain(kept) && tail.end == 0 && tail.begin >= 1
    requires forall r :: r in kept ==> r.end < tail.begin && !r.IsEmpty()
    ensures Compact(kept + [tail])
  {
    var out := kept + [tail];
    assert forall i :: 0 <= i < |kept| ==> out[i] == kept[i] && out[i] in kept;
  }

  lemma SameCoverage(front: seq<EventRange>, kept: seq<EventRange>, tail: EventRange)
    requires Chain(front) && forall r :: r in kept <==> r in front && !r.IsEmpty()
    ensures forall x :: Covered(kept + [tail], x) <==> Covered(front + [tail], x)
  {
    forall x
      ensures Covered(kept + [tail], x) <==> Covered(front + [tail], x)
    {
      CoveredConcat(kept, [tail], x);
      CoveredConcat(front, [tail], x);
      if Covered(kept, x) {
        var r :| r in kept && r.Contains(x);
        assert r in front;
      }
      if Covered(front, x) {
        var r :| r in front && r.Contains(x);
        assert r in kept;
      }
    }
  }

  /** The window keeps the unbounded tail and forgets exactly the ids below its first range. */
  lemma WindowCovers(rs: seq<EventRange>)
    requires Compact(rs)
    ensures Compact(Window(rs))
    ensures forall x :: Covered(Window(rs), x) <==> Covered(rs, x) && x >= Window(rs)[0].begin
    ensures if |rs| <= 5000 then Window(rs) == rs else |Window(rs)| == 5000 && Window(rs) == rs[|rs| - 5000..]
  {
    var cut := if |rs| > GAP_SKIP_WINDOW then |rs| - GAP_SKIP_WINDOW else 0;
    assert Window(rs) == rs[cut..];
    SuffixCovers(rs, cut);
  }

  lemma SuffixCovers(rs: seq<EventRange>, cut: nat)
    requires Compact(rs) && cut < |rs|
    ensures Compact(rs[cut..])
    ensures forall x :: Covered(rs[cut..], x) <==> Covered(rs, x) && x >= rs[cut].begin
  {
    var out := rs[cut..];
    assert forall i :: 0 <= i < |out| ==> out[i] == rs[cut + i];
    forall x
      ensures Covered(out, x) <==> Covered(rs, x) && x >= out[0].begin
    {
      if Covered(out, x) {
        var i :| 0 <= i < |out| && out[i].Contains(x);
        assert rs[cut + i].Contains(x);
      }
      if Covered(rs, x) && x >= out[0].begin {
        var i :| 0 <= i < |rs| && rs[i].Contains(x);
        assert i >= cut;
        assert out[i - cut].Contains(x);
      }
    }
  }

  /** The first id of compact ranges is the smallest one covered. */
  lemma FirstIsSmallest(rs: seq<EventRange>)
    requires Compact(rs)
    ensures Covered(rs, rs[0].begin)
    ensures forall x :: Covered(rs, x) ==> rs[0].begin <= x
  {
    assert rs[0].Contains(rs[0].begin);
    forall x | Covered(rs, x)
      ensures rs[0].begin <= x
    {
      var i :| 0 <= i < |rs| && rs[i].Contains(x);
      assert i == 0 || rs[0].begin <= rs[0].end < rs[i].begin;
    }
  }

  /** The compact list is determined by the ids it covers, so the window, which counts ranges, cuts
      at a place that depends on nothing but the pending ids. */
  lemma {:induction false} CompactUnique(a: seq<EventRange>, b: seq<EventRange>)
    requires Compact(a) && Compact(b)
    requires forall x :: Covered(a, x) <==> Covered(b, x)
    ensures a == b
  {
    FirstIsSmallest(a);
    FirstIsSmallest(b);
    assert a[0].begin == b[0].begin;
    SameFirstEnd(a, b);
    if |a| > 1 {
      forall x
        ensures Covered(a[1..], x) <==> Covered(b[1..], x)
      {
        CoveredTail(a, x);
        CoveredTail(b, x);
      }
      CompactUnique(a[1..], b[1..]);
    }
    assert a == [a[0]] + a[1..] && b == [b[0]] + b[1..];
  }

  lemma CoveredTail(rs: seq<EventRange>, x: int)
    requires Compact(rs)
    ensures Covered(rs[1..], x) <==> Covered(rs, x) && !rs[0].Contains(x)
  {
    assert rs == [rs[0]] + rs[1..];
    CoveredConcat([rs[0]], rs[1..], x);
    assert [rs[0]][0] == rs[0];
    if Covered(rs[1..], x) {
      var i :| 0 <= i < |rs| - 1 && rs[1..][i].Contains(x);
      assert rs[0].end < rs[i + 1].begin;
    }
  }

  // The id at the end of the first range is in neither list, unless that range is the tail.
  lemma SameFirstEnd(a: seq<EventRange>, b: seq<EventRange>)
    requires Compact(a) && Compact(b) && a[0].begin == b[0].begin
    requires forall x :: Covered(a, x) <==> Covered(b, x)
    ensures a[0].end == b[0].end && (|a| == 1 <==> |b| == 1)
  {
    if |a| > 1 {
      EndNotCovered(a);
      assert !b[0].Contains(a[0].end);
    }
    if |b| > 1 {
      EndNotCovered(b);
      assert !a[0].Contains(b[0].end);
    }
  }

  lemma EndNotCovered(rs: seq<EventRange>)
    requires Compact(rs) && |rs| > 1
    ensures rs[0].end > rs[0].begin && !Covered(rs, rs[0].end)
  {
    assert forall i :: 0 < i < |rs| ==> rs[0].end < rs[i].begin;
  }

  // ---- What is conserved ----

  /** The pending ids are exactly those from `floor` on that were not delivered. Everything between
      the first id ever tracked and the floor that was not delivered has been skipped. */
  ghost predicate Conserved(rs: seq<EventRange>, floor: int, delivered: set<int>) {
    Separated(rs) && forall x :: Covered(rs, x) <==> floor <= x && x !in delivered
  }

  lemma PunchConserves(rs: seq<EventRange>, id: int, floor: int, delivered: set<int>)
    requires Conserved(rs, floor, delivered) && Covered(rs, id)
    ensures Conserved(Punch(rs, id), floor, delivered + {id})
    ensures floor <= id && id !in delivered
  {
    PunchCovers(rs, id, id);
    forall x
      ensures Covered(Punch(rs, id), x) <==> floor <= x && x !in delivered + {id}
    {
      PunchCovers(rs, id, x);
    }
  }

  // Rows i..j are new to a consumer that has handled `delivered`.
  ghost predicate FreshRows<T>(rows: seq<Event<T>>, i: nat, j: nat, floor: int, delivered: set<int>)
    requires i <= j <= |rows|
  {
    && (forall k :: i <= k < j ==> floor <= rows[k].id && rows[k].id !in delivered)
    && (forall k, l :: i <= k < l < j ==> rows[k].id != rows[l].id)
  }

  lemma {:induction false} DeliverConserves<T>(
      rs: seq<EventRange>, rows: seq<Event<T>>, i: nat, fault: Fault, floor: int, delivered: set<int>)
    requires i <= |rows| && Conserved(rs, floor, delivered)
    ensures var d := Deliver(rs, rows, i, fault);
            && i <= d.count <= |rows|
            && Conserved(d.ranges, floor, delivered + Ids(rows[i..d.count]))
            && FreshRows(rows, i, d.count, floor, delivered)
    decreases |rows| - i
  {
    hide Conserved, Separated, Ids;
    var d := Deliver(rs, rows, i, fault);
    DeliverStops(rs, rows, i, fault);
    if d.count > i {
      var id := rows[i].id;
      PunchConserves(rs, id, floor, delivered);
      DeliverConserves(Punch(rs, id), rows, i + 1, fault, floor, delivered + {id});
      IdsFrom(rows, i, d.count);
      assert delivered + Ids(rows[i..d.count]) == delivered + {id} + Ids(rows[i + 1..d.count]);
    } else {
      NoIds(rows[i..d.count]);
      assert delivered + Ids(rows[i..d.count]) == delivered;
    }
  }

  lemma NoIds<T>(rows: seq<Event<T>>)
    requires rows == []
    ensures Ids(rows) == {}
  {
  }

  lemma IdsFrom<T>(rows: seq<Event<T>>, i: nat, j: nat)
    requires i < j <= |rows|
    ensures Ids(rows[i..j]) == {rows[i].id} + Ids(rows[i + 1..j])
  {
    assert rows[i..j] == [rows[i]] + rows[i + 1..j];
    IdsCons(rows[i], rows[i + 1..j]);
  }

  lemma {:induction false} DeliverStops<T>(rs: seq<EventRange>, rows: seq<Event<T>>, i: nat, fault: Fault)
    requires i <= |rows|
    ensures i <= Deliver(rs, rows, i, fault).count <= |rows|
    ensures Deliver(rs, rows, i, fault).count == i ==> Deliver(rs, rows, i, fault).ranges == rs
    decreases |rows| - i
  {
    if i < |rows| {
      DeliverStops(Punch(rs, rows[i].id), rows, i + 1, fault);
    }
  }

  lemma IdsCons<T>(e: Event<T>, rest: seq<Event<T>>)
    ensures Ids([e] + rest) == {e.id} + Ids(rest)
  {
    var all := [e] + rest;
    forall id
      ensures id in Ids(all) <==> id in {e.id} + Ids(rest)
    {
      if id in Ids(rest) {
        var i :| 0 <= i < |rest| && rest[i].id == id;
        assert all[i + 1].id == id;
      }
      assert all[0].id == e.id;
    }
  }

  lemma IdsConcat<T>(a: seq<Event<T>>, b: seq<Event<T>>)
    ensures Ids(a + b) == Ids(a) + Ids(b)
  {
    forall id
      ensures id in Ids(a + b) <==> id in Ids(a) + Ids(b)
    {
      if id in Ids(a) {
        var i :| 0 <= i < |a| && a[i].id == id;
        assert (a + b)[i].id == id;
      }
      if id in Ids(b) {
        var i :| 0 <= i < |b| && b[i].id == id;
        assert (a + b)[|a| + i].id == id;
      }
    }
  }

  // The floor after a call: it rises only when the window had to drop ranges.
  function NextFloor(floor: int, rs: seq<EventRange>, d: Delivery): int
    requires |d.ranges| > 0
  {
    if (d.outcome.Done? || d.outcome.ReadError?) && d.ranges[0].begin > floor then d.ranges[0].begin else floor
  }

  /** One call, whatever goes wrong in it: the pending ids are conserved, the handled rows are a prefix
      of the loaded ones, none of them was handled before, and a completed call leaves the first
      pending id in front. */
  lemma ConsumeConserves<T>(rs: seq<EventRange>, rows: seq<Event<T>>, fault: Fault, floor: int, delivered: set<int>)
    requires Conserved(rs, floor, delivered)
    ensures var d := Consume(rs, rows, fault);
            && d.count <= |rows|
            && |d.ranges| > 0
            && Conserved(d.ranges, NextFloor(floor, rs, d), delivered + Ids(rows[..d.count]))
            && floor <= NextFloor(floor, rs, d)
            && FreshRows(rows, 0, d.count, floor, delivered)
            && (d.outcome.Done? || d.outcome.ReadError? ==> Compact(d.ranges))
            && (d.outcome.Done? || d.outcome.ReadError? ==> |d.ranges| <= GAP_SKIP_WINDOW)
            && (|d.ranges| < GAP_SKIP_WINDOW ==>
                  Conserved(d.ranges, floor, delivered + Ids(rows[..d.count])))
  {
    if fault.LoadFails? {
      assert delivered + Ids(rows[..0]) == delivered;
    } else {
      DeliverConserves(rs, rows, 0, fault, floor, delivered);
      var raw := Deliver(rs, rows, 0, fault);
      assert rows[0..raw.count] == rows[..raw.count];
      if raw.outcome.Done? || raw.outcome.ReadError? {
        CleanupConserves(raw.ranges, floor, delivered + Ids(rows[..raw.count]));
      }
    }
  }

  lemma CleanupConserves(rs: seq<EventRange>, floor: int, delivered: set<int>)
    requires Conserved(rs, floor, delivered)
    ensures var out := Window(RemoveEmpty(rs));
            && Compact(out) && |out| <= GAP_SKIP_WINDOW
            && Conserved(out, if out[0].begin > floor then out[0].begin else floor, delivered)
            && (|out| < GAP_SKIP_WINDOW ==> Conserved(out, floor, delivered))
  {
    RemoveEmptyCovers(rs);
    WindowCovers(RemoveEmpty(rs));
  }

  /** With rows as LoadEvents returns them no id is invalid, so a call with no fault handles every
      visible event in the tracked ranges, and a call stopped by the callback has handled exactly the
      rows before the rejected one, which stays pending for the next call. */
  lemma LoadedRowsAreHandled<T>(rs: seq<EventRange>, rows: seq<Event<T>>, log: Log<T>, fault: Fault)
    requires Separated(rs) && IsLoad(rows, log, rs)
    ensures var d := Consume(rs, rows, fault);
            match fault
            case NoFault => d.outcome.Done? && d.count == |rows|
            case LoadFails => d == Delivery(rs, 0, LoadError)
            case CallbackFails(at) =>
              if at >= |rows| then d == Consume(rs, rows, NoFault)
              else d.outcome.CallbackError? && d.count == at && Covered(d.ranges, rows[at].id)
            case ReadFails(at) => d.outcome.ReadError? && d.count == if at < |rows| then at else |rows|
  {
    if !fault.LoadFails? {
      forall k | 0 <= k < |rows|
        ensures Covered(rs, rows[k].id)
      {
        assert rows[k].id in Ids(rows);
      }
      DeliverAll(rs, rows, 0, fault);
    }
  }

  lemma {:induction false} DeliverAll<T>(rs: seq<EventRange>, rows: seq<Event<T>>, i: nat, fault: Fault)
    requires Separated(rs) && Ascending(rows) && i <= |rows| && !fault.LoadFails?
    requires forall k :: i <= k < |rows| ==> Covered(rs, rows[k].id)
    ensures var d := Deliver(rs, rows, i, fault);
            match fault
            case NoFault => d.outcome.Done? && d.count == |rows|
            case LoadFails => true
            case CallbackFails(at) =>
              if at < i || at >= |rows| then d == Deliver(rs, rows, i, NoFault)
              else d.outcome.CallbackError? && d.count == at && Covered(d.ranges, rows[at].id)
            case ReadFails(at) =>
              && d.outcome.ReadError?
              && d.count == if at <= i then i else if at < |rows| then at else |rows|
    decreases |rows| - i
  {
    if i < |rows| {
      var rest := Punch(rs, rows[i].id);
      forall k | i + 1 <= k < |rows|
        ensures Covered(rest, rows[k].id)
      {
        PunchCovers(rs, rows[i].id, rows[k].id);
      }
      PunchCovers(rs, rows[i].id, rows[i].id);
      DeliverAll(rest, rows, i + 1, fault);
      if fault.CallbackFails? {
        DeliverAll(rest, rows, i + 1, NoFault);
      }
    }
  }

  lemma DeliverStep<T>(rs: seq<EventRange>, rows: seq<Event<T>>, i: nat, fault: Fault)
    requires i <= |rows|
    ensures Deliver(rs, rows, i, fault) ==
              if i == |rows| || (fault.ReadFails? && fault.at <= i)
              then Delivery(rs, i, if fault.ReadFails? then ReadError else Done)
              else if !Covered(rs, rows[i].id) then Delivery(rs, i, InvalidID)
              else if fault == CallbackFails(i) then Delivery(rs, i, CallbackError)
              else Deliver(Punch(rs, rows[i].id), rows, i + 1, fault)
  {
  }

  // ---- The consumer itself ----

  class EventConsumer {
    var ranges: seq<EventRange>
    ghost var floor: int           // ids below it are no longer waited for
    ghost var delivered: set<int>  // ids handled so far

    ghost predicate Valid()
      reads this
    {
      Conserved(ranges, floor, delivered)
    }

    constructor (beginID: int)
      requires beginID >= 1
      ensures Valid() && ranges == [EventRange(beginID, 0)] && floor == beginID && delivered == {}
    {
      ranges := [EventRange(beginID, 0)];
      floor, delivered := beginID, {};
      new;
      assert forall x :: Covered(ranges, x) <==> ranges[0].Contains(x);
    }

    /** The smallest pending id, unless an interrupted call left an empty range in front. */
    method BeginEventID() returns (id: int)
      requires Valid()
      ensures Compact(ranges) ==>
        Covered(ranges, id) && floor <= id && id !in delivered && forall x :: floor <= x < id ==> x in delivered
    {
      id := ranges[0].begin;
      assert Compact(ranges) ==> Covered(ranges, id) && forall x :: Covered(ranges, x) ==> id <= x by {
        if Compact(ranges) { FirstIsSmallest(ranges); }
      }
    }

    method RemoveEmptyRanges()
      modifies this`ranges
      ensures ranges == Window(RemoveEmpty(old(ranges)))
    {
      var newLen := 0;
      for i := 0 to |ranges|
        invariant 0 <= newLen <= i <= |ranges| == |old(ranges)|
        invariant ranges[..newLen] == RemoveEmpty(old(ranges)[..i])
        invariant ranges[i..] == old(ranges)[i..]
      {
        assert old(ranges)[..i + 1][..i] == old(ranges)[..i];
        assert ranges[i] == ranges[i..][0] == old(ranges)[i];
        if ranges[i].begin != ranges[i].end {
          ranges := ranges[newLen := ranges[i]];
          newLen := newLen + 1;
        }
        assert ranges[i + 1..] == old(ranges)[i..][1..];
      }
      assert old(ranges)[..|ranges|] == old(ranges);
      ranges := ranges[..newLen];
      if |ranges| > GAP_SKIP_WINDOW {
        ranges := ranges[|ranges| - GAP_SKIP_WINDOW..];
      }
    }

    // Makes room after position it and splits that range around id.
    method Split(it: nat, id: int)
      requires it < |ranges| && ranges[it].begin != id
      modifies this`ranges
      ensures ranges == old(ranges)[..it] + PunchRange(old(ranges)[it], id) + old(ranges)[it + 1..]
    {
      ghost var was := ranges;
      ranges := ranges + [ranges[|ranges| - 1]];
      var i := |ranges| - 3;
      while i >= it
        invariant it - 1 <= i <= |was| - 2 || (it == |was| - 1 && i == |was| - 2)
        invariant |ranges| == |was| + 1
        invariant forall k :: 0 <= k <= i + 1 ==> ranges[k] == was[k]
        invariant forall k :: i + 2 <= k < |ranges| ==> ranges[k] == was[k - 1]
      {
        ranges := ranges[i + 1 := ranges[i]];
        i := i - 1;
      }
      ranges := ranges[it := ranges[it].(end := id)];
      ranges := ranges[it + 1 := ranges[it + 1].(begin := id + 1)];
    }

    // Takes id out of the range at position it, the first that has it.
    method Mark(it: nat, id: int)
      requires Separated(ranges) && it < |ranges| && ranges[it].Contains(id)
      requires forall k :: 0 <= k < it ==> !ranges[k].Contains(id)
      modifies this`ranges
      ensures Separated(ranges) && ranges == Punch(old(ranges), id)
      ensures it < |ranges| && forall k :: 0 <= k < it ==> ranges[k] == old(ranges)[k]
    {
      hide Separated;
      PunchAt(ranges, it, id);
      PunchCovers(ranges, id, id);
      ghost var next := Punch(ranges, id);
      if id == ranges[it].begin {
        ranges := ranges[it := ranges[it].(begin := ranges[it].begin + 1)];
      } else {
        Split(it, id);
      }
      assert ranges == next;
    }

    /** Handles the rows in order, moving a cursor over the ranges instead of searching from the start
        for every row. `rows` is what the store returned for the current ranges. */
    method ConsumeEvents<T>(rows: seq<Event<T>>, fault: Fault) returns (handled: seq<Event<T>>, outcome: Outcome)
      requires Valid() && Ascending(rows)
      modifies this
      ensures Valid()
      ensures var d := Consume(old(ranges), rows, fault);
              ranges == d.ranges && outcome == d.outcome && d.count <= |rows| && handled == rows[..d.count]
      ensures floor == NextFloor(old(floor), old(ranges), Consume(old(ranges), rows, fault))
      ensures delivered == old(delivered) + Ids(handled)
      ensures Ids(handled) !! old(delivered)
    {
      ghost var was := ranges;
      handled := [];
      if fault.LoadFails? {
        assert rows[..0] == [];
        outcome := LoadError;
      } else {
        handled, outcome := HandleRows(rows, fault);
      }
      Finish(rows, |handled|, fault, outcome, was);
    }

    // The end of a call, after `count` rows.
    method Finish<T>(rows: seq<Event<T>>, ghost count: nat, ghost fault: Fault, outcome: Outcome, ghost was: seq<EventRange>)
      requires Conserved(was, floor, delivered) && Ascending(rows)
      requires if fault.LoadFails? then ranges == was && count == 0 && outcome == LoadError
               else Deliver(was, rows, 0, fault) == Delivery(ranges, count, outcome)
      modifies this
      ensures Valid() && ranges == Consume(was, rows, fault).ranges
      ensures count == Consume(was, rows, fault).count <= |rows| && outcome == Consume(was, rows, fault).outcome
      ensures floor == NextFloor(old(floor), was, Consume(was, rows, fault))
      ensures delivered == old(delivered) + Ids(rows[..count]) && Ids(rows[..count]) !! old(delivered)
    {
      ConsumeConserves(was, rows, fault, floor, delivered);
      if outcome.Done? || outcome.ReadError? {
        RemoveEmptyRanges();
      }
      floor, delivered := NextFloor(floor, was, Consume(was, rows, fault)), delivered + Ids(rows[..count]);
    }

    // Moves the cursor on to the range that contains the id of row i.
    method Seek<T>(start: nat, eventID: int, ghost rows: seq<Event<T>>, ghost i: nat) returns (it: nat)
      requires Ascending(rows) && i < |rows| && rows[i].id == eventID && AtRow(ranges, start, rows, i)
      ensures start <= it <= |ranges|
      ensures it == |ranges| <==> !Covered(ranges, eventID)
      ensures it < |ranges| ==> Found(ranges, it, rows, i)
    {
      it := start;
      while it < |ranges| && !ranges[it].Contains(eventID)
        invariant start <= it <= |ranges|
        invariant forall k :: 0 <= k < it ==> !ranges[k].Contains(eventID)
        invariant Covered(ranges, eventID) ==> forall k :: 0 <= k < it ==> Passed(ranges[k], rows, i)
      {
        if Covered(ranges, eventID) {
          LeaveBehind(ranges, it, rows, i);
        }
        it := it + 1;
      }
    }

    // Takes the id of row i out of the range that was found; the cursor stays.
    method Take<T>(it: nat, eventID: int, ghost rows: seq<Event<T>>, ghost i: nat)
      requires Ascending(rows) && i < |rows| && rows[i].id == eventID && Found(ranges, it, rows, i)
      modifies this`ranges
      ensures ranges == Punch(old(ranges), eventID) && AtRow(ranges, it, rows, i + 1)
    {
      hide Separated;
      Mark(it, eventID);
    }

    // The loop over the rows; `it` never moves back.
    method HandleRows<T>(rows: seq<Event<T>>, fault: Fault) returns (handled: seq<Event<T>>, outcome: Outcome)
      requires Separated(ranges) && Ascending(rows) && !fault.LoadFails?
      modifies this`ranges
      ensures var d := Deliver(old(ranges), rows, 0, fault);
              ranges == d.ranges && outcome == d.outcome && d.count <= |rows| && handled == rows[..d.count]
    {
      FirstRow(ranges, rows);
      hide Separated, AtRow, Found;
      handled := [];
      var it := 0;
      var i := 0;
      DeliverStops(ranges, rows, 0, fault);
      while i < |rows| && !(fault.ReadFails? && fault.at <= i)
        invariant 0 <= i <= |rows| && AtRow(ranges, it, rows, i)
        invariant handled == rows[..i]
        invariant Deliver(old(ranges), rows, 0, fault) == Deliver(ranges, rows, i, fault)
      {
        var eventID := rows[i].id;
        it := Seek(it, eventID, rows, i);
        if it == |ranges| {
          return handled, InvalidID;
        }
        if fault == CallbackFails(i) {
          return handled, CallbackError;
        }
        Take(it, eventID, rows, i);
        handled := handled + [rows[i]];
        i := i + 1;
      }
      outcome := if fault.ReadFails? then ReadError else Done;
    }
  }

  lemma FirstRow<T>(rs: seq<EventRange>, rows: seq<Event<T>>)
    requires Separated(rs)
    ensures AtRow(rs, 0, rows, 0)
  {
  }

  lemma LeaveBehind<T>(rs: seq<EventRange>, it: nat, rows: seq<Event<T>>, i: nat)
    requires Separated(rs) && Ascending(rows) && it < |rs| && i < |rows| && Covered(rs, rows[i].id)
    requires forall k :: 0 <= k <= it ==> !rs[k].Contains(rows[i].id)
    ensures Passed(rs[it], rows, i)
  {
    var j :| 0 <= j < |rs| && rs[j].Contains(rows[i].id);
    assert rs[it].end < rs[j].begin;
  }

  // No row from index i on can be in a range the cursor has left behind.
  ghost predicate Passed<T>(r: EventRange, rows: seq<Event<T>>, i: nat) {
    forall k :: i <= k < |rows| ==> !r.Contains(rows[k].id)
  }

  /** The cursor is at `it`, and the ranges before it are done with. */
  ghost predicate AtRow<T>(rs: seq<EventRange>, it: nat, rows: seq<Event<T>>, i: nat) {
    Separated(rs) && it < |rs| && forall k :: 0 <= k < it ==> Passed(rs[k], rows, i)
  }

  // The range at `it` is the first that has the id of row i.
  ghost predicate Found<T>(rs: seq<EventRange>, it: nat, rows: seq<Event<T>>, i: nat)
    requires i < |rows|
  {
    AtRow(rs, it, rows, i) && rs[it].Contains(rows[i].id) && forall k :: 0 <= k < it ==> !rs[k].Contains(rows[i].id)
  }
}
