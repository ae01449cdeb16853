/** Sorting, filtering and placing rows (internal/managers/contest_standings.go). The sort is taken by
    its contract; it need not be stable. */
module StandingsPlaces {
  import opened Options
  import opened Sets
  import opened ContestTime
  import opened StandingsScan
  import opened StandingsRows

  function OrderOf(kind: Kind): int {
    match kind
    case Manager => 0
    case Regular => 1
    case Virtual => 1
    case _ => 2
  }

  predicate StableParticipantLess(a: Row, b: Row) {
    if OrderOf(a.kind) != OrderOf(b.kind) then OrderOf(a.kind) < OrderOf(b.kind)
    else if a.score != b.score then a.score > b.score
    else if a.penalty.Some? && b.penalty.Some? && a.penalty.value != b.penalty.value then
      a.penalty.value < b.penalty.value
    else a.id < b.id
  }

  predicate ParticipantLess(a: Row, b: Row) {
    if OrderOf(a.kind) != OrderOf(b.kind) then OrderOf(a.kind) < OrderOf(b.kind)
    else if a.score != b.score then a.score > b.score
    else a.penalty.Some? && b.penalty.Some? && a.penalty.value < b.penalty.value
  }

  /** Whether a row has a penalty depends on its order class alone. */
  ghost predicate UniformPenalty(rows: seq<Row>) {
    forall a, b :: a in rows && b in rows && OrderOf(a.kind) == OrderOf(b.kind) ==>
      (a.penalty.Some? <==> b.penalty.Some?)
  }

  lemma BuiltRowsAreUniform(ps: seq<Participant>, rules: Rules, frozen: bool, freeze: int)
    requires Fits(ps, rules)
    ensures UniformPenalty(RowsOf(ps, rules, frozen, freeze))
  {
    var rows := RowsOf(ps, rules, frozen, freeze);
    forall r | r in rows
      ensures r.penalty.Some? <==> rules.ICPC? && OrderOf(r.kind) == 1
    {
      var i :| 0 <= i < |rows| && rows[i] == r;
    }
  }

  /** On such rows both comparisons are strict weak orders, and the stable one refines the other; the
      sort may be called with it. */
  lemma StrictWeakOrders(rows: seq<Row>, a: Row, b: Row, c: Row)
    requires UniformPenalty(rows) && a in rows && b in rows && c in rows
    ensures !StableParticipantLess(a, a) && !ParticipantLess(a, a)
    ensures StableParticipantLess(a, b) && StableParticipantLess(b, c) ==> StableParticipantLess(a, c)
    ensures ParticipantLess(a, b) && ParticipantLess(b, c) ==> ParticipantLess(a, c)
    ensures !StableParticipantLess(a, b) && !StableParticipantLess(b, c) ==> !StableParticipantLess(a, c)
    ensures !ParticipantLess(a, b) && !ParticipantLess(b, c) ==> !ParticipantLess(a, c)
    ensures ParticipantLess(a, b) ==> StableParticipantLess(a, b)
  {
  }

  /** Without that uniformity the stable comparison is not an order: three rows of one score, the second
      without penalty, make a cycle. */
  lemma MixedPenaltiesCycle()
    ensures exists a, b, c ::
              StableParticipantLess(a, b) && StableParticipantLess(b, c) && StableParticipantLess(c, a)
  {
    var a := Row(0, 1, Regular, 0.0, Some(2), 0);
    var b := Row(1, 2, Regular, 0.0, None, 0);
    var c := Row(2, 3, Regular, 0.0, Some(1), 0);
    assert StableParticipantLess(a, b) && StableParticipantLess(b, c) && StableParticipantLess(c, a);
  }

  ghost predicate SortedRows(rows: seq<Row>) {
    forall i, j :: 0 <= i < j < |rows| ==> !StableParticipantLess(rows[j], rows[i])
  }

  /** What sort.Sort promises. */
  ghost predicate IsSortOf(sorted: seq<Row>, rows: seq<Row>) {
    multiset(sorted) == multiset(rows) && SortedRows(sorted)
  }

  /** What the order is, of two rows of a sorted list: managers come first, then regular and virtual
      participants, then the others; among these the higher score, then the smaller penalty, then the
      smaller id. */
  lemma SortedMeans(rows: seq<Row>, i: nat, j: nat)
    requires SortedRows(rows) && i < j < |rows|
    ensures rows[j].kind == Manager ==> rows[i].kind == Manager
    ensures rows[j].kind == Regular || rows[j].kind == Virtual ==> rows[i].kind != Upsolving && rows[i].kind != Observer
    ensures SameClass(rows[i].kind, rows[j].kind) ==>
              var a, b := rows[i], rows[j];
              && a.score >= b.score
              && (a.score == b.score && a.penalty.Some? && b.penalty.Some? ==> a.penalty.value <= b.penalty.value)
              && (a.score == b.score && (a.penalty == b.penalty || a.penalty.None? || b.penalty.None?) ==> a.id <= b.id)
  {
    assert !StableParticipantLess(rows[j], rows[i]);
  }

  predicate SameClass(a: Kind, b: Kind) {
    || (a == Manager && b == Manager)
    || ((a == Regular || a == Virtual) && (b == Regular || b == Virtual))
    || ((a == Upsolving || a == Observer) && (b == Upsolving || b == Observer))
  }

  // ---- Filtering ----

  datatype Audience = Audience(onlyOfficial: bool, full: bool, finished: bool)

  predicate Kept(f: Audience, kind: Kind) {
    && (f.onlyOfficial ==> kind.Regular?)
    && (!f.full ==> if kind.Upsolving? then f.finished else IsPlaced(kind))
  }

  /** Official standings are those of regular participants. Without the permission to see all, one sees
      the placed participants, and those who solve on after the end when the contest is over. */
  lemma KeptMeans(f: Audience, kind: Kind)
    ensures Kept(f, kind) <==>
              && (!f.onlyOfficial || kind == Regular)
              && (f.full || kind == Regular || kind == Virtual || (kind == Upsolving && f.finished))
  {
  }

  function Filter(rows: seq<Row>, f: Audience): seq<Row> {
    if rows == [] then []
    else
      var n := |rows| - 1;
      Filter(rows[..n], f) + if Kept(f, rows[n].kind) then [rows[n]] else []
  }

  lemma {:induction false} FilterMembers(rows: seq<Row>, f: Audience)
    ensures forall r :: r in Filter(rows, f) ==> r in rows
    ensures forall r :: multiset(Filter(rows, f))[r] == if Kept(f, r.kind) then multiset(rows)[r] else 0
  {
    if rows != [] {
      var n := |rows| - 1;
      FilterMembers(rows[..n], f);
      assert rows == rows[..n] + [rows[n]];
    }
  }

  lemma {:induction false} FilterSorted(rows: seq<Row>, f: Audience)
    requires SortedRows(rows)
    ensures SortedRows(Filter(rows, f))
  {
    if rows != [] {
      var n := |rows| - 1;
      FilterSorted(rows[..n], f);
      FilterMembers(rows[..n], f);
      var front := Filter(rows[..n], f);
      forall i | 0 <= i < |front|
        ensures !StableParticipantLess(rows[n], front[i])
      {
        var r := front[i];
        assert r in front;
        var k :| 0 <= k < n && rows[k] == r;
      }
    }
  }

  lemma FilterUniform(rows: seq<Row>, f: Audience)
    requires UniformPenalty(rows)
    ensures UniformPenalty(Filter(rows, f))
  {
    FilterMembers(rows, f);
  }

  lemma FilterPermuted(a: seq<Row>, b: seq<Row>, f: Audience)
    requires multiset(a) == multiset(b)
    ensures multiset(Filter(a, f)) == multiset(Filter(b, f))
  {
    FilterMembers(a, f);
    FilterMembers(b, f);
  }

  // ---- Places ----

  /** How many placed rows are strictly better than r. */
  function Better(rows: seq<Row>, r: Row): nat {
    if rows == [] then 0
    else
      var x := rows[|rows| - 1];
      Better(rows[..|rows| - 1], r) + if IsPlaced(x.kind) && ParticipantLess(x, r) then 1 else 0
  }

  function PlacedCount(rows: seq<Row>): nat {
    if rows == [] then 0 else PlacedCount(rows[..|rows| - 1]) + if IsPlaced(rows[|rows| - 1].kind) then 1 else 0
  }

  function WithPlace(rows: seq<Row>, r: Row): Row {
    if IsPlaced(r.kind) then r.(place := 1 + Better(rows, r)) else r
  }

  /** Competition places: one more than the number of placed rows that are strictly better. */
  function WithPlaces(rows: seq<Row>): seq<Row> {
    seq(|rows|, i requires 0 <= i < |rows| => WithPlace(rows, rows[i]))
  }

  lemma {:induction false} NoneBetter(rows: seq<Row>, r: Row)
    requires forall x :: x in rows && IsPlaced(x.kind) ==> !ParticipantLess(x, r)
    ensures Better(rows, r) == 0
  {
    if rows != [] {
      NoneBetter(rows[..|rows| - 1], r);
    }
  }

  lemma {:induction false} BetterConcat(a: seq<Row>, b: seq<Row>, r: Row)
    ensures Better(a + b, r) == Better(a, r) + Better(b, r)
  {
    if b == [] {
      assert a + b == a;
    } else {
      assert (a + b)[..|a + b| - 1] == a + b[..|b| - 1];
      BetterConcat(a, b[..|b| - 1], r);
    }
  }

  lemma {:induction false} AllBetter(rows: seq<Row>, r: Row)
    requires forall x :: x in rows && IsPlaced(x.kind) ==> ParticipantLess(x, r)
    ensures Better(rows, r) == PlacedCount(rows)
  {
    if rows != [] {
      AllBetter(rows[..|rows| - 1], r);
    }
  }

  lemma {:induction false} SameBetter(rows: seq<Row>, r: Row, q: Row)
    requires forall x :: x in rows && IsPlaced(x.kind) ==> (ParticipantLess(x, r) <==> ParticipantLess(x, q))
    ensures Better(rows, r) == Better(rows, q)
  {
    if rows != [] {
      SameBetter(rows[..|rows| - 1], r, q);
    }
  }

  lemma TakeOut(b: seq<Row>, k: nat, r: Row)
    requires k < |b|
    ensures var rest := b[..k] + b[k + 1..];
            && multiset(rest) == multiset(b) - multiset{b[k]}
            && Better(b, r) == Better(rest, r) + Better([b[k]], r)
  {
    assert b == b[..k] + [b[k]] + b[k + 1..];
    BetterConcat(b[..k] + [b[k]], b[k + 1..], r);
    BetterConcat(b[..k], [b[k]], r);
    BetterConcat(b[..k], b[k + 1..], r);
  }

  /** The count does not depend on the order of the rows. */
  lemma {:induction false} BetterPermuted(a: seq<Row>, b: seq<Row>, r: Row)
    requires multiset(a) == multiset(b)
    ensures Better(a, r) == Better(b, r)
  {
    hide Better;
    if a == [] {
      assert |multiset(b)| == 0;
      assert b == [];
    } else {
      assert a[0] in multiset(a);
      var k :| 0 <= k < |b| && b[k] == a[0];
      TakeOut(a, 0, r);
      TakeOut(b, k, r);
      assert a[..0] + a[1..] == a[1..];
      BetterPermuted(a[1..], b[..k] + b[k + 1..], r);
    }
  }

  // Placed rows come in order.
  ghost predicate InOrder(rows: seq<Row>) {
    forall i, j :: 0 <= i < j < |rows| && IsPlaced(rows[i].kind) && IsPlaced(rows[j].kind) ==>
      !ParticipantLess(rows[j], rows[i])
  }

  lemma SortedIsInOrder(rows: seq<Row>)
    requires SortedRows(rows)
    ensures InOrder(rows)
  {
    forall i, j | 0 <= i < j < |rows| && IsPlaced(rows[i].kind) && IsPlaced(rows[j].kind)
      ensures !ParticipantLess(rows[j], rows[i])
    {
      assert !StableParticipantLess(rows[j], rows[i]);
    }
  }

  // No row from i on is better than the row at i.
  lemma BetterComeBefore(rows: seq<Row>, i: nat)
    requires InOrder(rows) && i < |rows| && IsPlaced(rows[i].kind)
    ensures Better(rows, rows[i]) == Better(rows[..i], rows[i])
  {
    assert rows == rows[..i] + rows[i..];
    BetterConcat(rows[..i], rows[i..], rows[i]);
    forall x | x in rows[i..] && IsPlaced(x.kind)
      ensures !ParticipantLess(x, rows[i])
    {
      var k :| i <= k < |rows| && rows[k] == x;
    }
    NoneBetter(rows[i..], rows[i]);
  }

  /** The row at i, when `it` is the last placed row before it: the counter's value if that row is
      strictly better, that row's place if it is not. */
  lemma PlaceFromLast(rows: seq<Row>, i: nat, it: int)
    requires InOrder(rows) && UniformPenalty(rows) && i < |rows| && IsPlaced(rows[i].kind)
    requires -1 <= it < i && (it >= 0 ==> IsPlaced(rows[it].kind))
    requires forall k :: it < k < i ==> !IsPlaced(rows[k].kind)
    ensures it < 0 || ParticipantLess(rows[it], rows[i]) ==> Better(rows, rows[i]) == PlacedCount(rows[..i])
    ensures it >= 0 && !ParticipantLess(rows[it], rows[i]) ==> Better(rows, rows[i]) == Better(rows, rows[it])
  {
    hide Better, PlacedCount, UniformPenalty, StableParticipantLess, ParticipantLess;
    var r := rows[i];
    if it < 0 || ParticipantLess(rows[it], r) {
      BetterComeBefore(rows, i);
      forall x | x in rows[..i] && IsPlaced(x.kind)
        ensures ParticipantLess(x, r)
      {
        var k :| 0 <= k < i && rows[k] == x;
        if k < it {
          StrictWeakOrders(rows, rows[it], x, r);
        }
      }
      AllBetter(rows[..i], r);
    } else {
      assert !ParticipantLess(r, rows[it]);
      forall x | x in rows && IsPlaced(x.kind)
        ensures ParticipantLess(x, r) <==> ParticipantLess(x, rows[it])
      {
        StrictWeakOrders(rows, x, rows[it], r);
        StrictWeakOrders(rows, x, r, rows[it]);
      }
      SameBetter(rows, r, rows[it]);
    }
  }

  lemma CountStep(rows: seq<Row>, i: nat)
    requires i < |rows|
    ensures PlacedCount(rows[..i + 1]) == PlacedCount(rows[..i]) + if IsPlaced(rows[i].kind) then 1 else 0
  {
    assert rows[..i + 1][..i] == rows[..i];
  }

  // ---- What the places are ----

  predicate HasPlace(r: Row) {
    r.kind == Regular || r.kind == Virtual
  }

  predicate Ahead(a: Row, b: Row) {
    a.score > b.score ||
    (a.score == b.score && a.penalty.Some? && b.penalty.Some? && a.penalty.value < b.penalty.value)
  }

  /** The rows that are ahead of one. */
  ghost function AheadOf(rows: seq<Row>, r: Row): set<int> {
    set k | 0 <= k < |rows| && HasPlace(rows[k]) && Ahead(rows[k], r)
  }

  /** Regular and virtual participants get one more than the number of such rows with a higher score, or
      the same score and a smaller penalty; nothing else changes. */
  ghost predicate ArePlaces(was: seq<Row>, now: seq<Row>) {
    && |now| == |was|
    && forall i :: 0 <= i < |was| ==>
         now[i] == if HasPlace(was[i]) then was[i].(place := 1 + |AheadOf(was, was[i])|) else was[i]
  }

  lemma AheadOfOneMore(rows: seq<Row>, r: Row)
    requires rows != []
    ensures var n := |rows| - 1;
            |AheadOf(rows, r)| == |AheadOf(rows[..n], r)| + if HasPlace(rows[n]) && Ahead(rows[n], r) then 1 else 0
  {
    hide HasPlace, Ahead;
    var n := |rows| - 1;
    var front := AheadOf(rows[..n], r);
    assert n !in front;
    if HasPlace(rows[n]) && Ahead(rows[n], r) {
      assert AheadOf(rows, r) == front + {n};
    } else {
      assert AheadOf(rows, r) == front;
    }
  }

  lemma {:induction false} BetterIsAhead(rows: seq<Row>, r: Row)
    requires HasPlace(r)
    ensures Better(rows, r) == |AheadOf(rows, r)|
  {
    if rows == [] {
      assert AheadOf(rows, r) == {};
    } else {
      BetterIsAhead(rows[..|rows| - 1], r);
      AheadOfOneMore(rows, r);
      hide AheadOf;
      assert IsPlaced(rows[|rows| - 1].kind) && ParticipantLess(rows[|rows| - 1], r) <==>
             HasPlace(rows[|rows| - 1]) && Ahead(rows[|rows| - 1], r);
    }
  }

  lemma PlacesAre(rows: seq<Row>)
    ensures ArePlaces(rows, WithPlaces(rows))
  {
    forall i | 0 <= i < |rows| && HasPlace(rows[i])
      ensures 1 + Better(rows, rows[i]) == 1 + |AheadOf(rows, rows[i])|
    {
      BetterIsAhead(rows, rows[i]);
    }
  }

  /** Of two placed rows the one with the higher score has the smaller place; with equal scores the one
      with the smaller penalty; and with equal or no penalties they share it. */
  lemma PlacesCompare(was: seq<Row>, now: seq<Row>, i: nat, j: nat)
    requires ArePlaces(was, now) && UniformPenalty(was)
    requires i < |was| && j < |was| && HasPlace(was[i]) && HasPlace(was[j])
    ensures now[i].place >= 1
    ensures was[i].score > was[j].score ==> now[i].place < now[j].place
    ensures was[i].score == was[j].score && was[i].penalty.Some? && was[j].penalty.Some? ==>
              (was[i].penalty.value < was[j].penalty.value ==> now[i].place < now[j].place)
    ensures was[i].score == was[j].score && was[i].penalty == was[j].penalty ==> now[i].place == now[j].place
  {
    var a, b := AheadOf(was, was[i]), AheadOf(was, was[j]);
    if Ahead(was[i], was[j]) {
      forall k | k in a
        ensures k in b
      {
        assert was[k] in was && was[i] in was && was[j] in was;
        assert OrderOf(was[k].kind) == OrderOf(was[i].kind) == OrderOf(was[j].kind);
      }
      SmallerSet(a, b, i);
    } else if was[i].score == was[j].score && was[i].penalty == was[j].penalty {
      assert a == b;
    }
  }

  /** calculatePlaces, in place. */
  method CalculatePlaces(rows: array<Row>)
    requires SortedRows(rows[..]) && UniformPenalty(rows[..])
    modifies rows
    ensures rows[..] == WithPlaces(old(rows[..])) && ArePlaces(old(rows[..]), rows[..])
  {
    hide ArePlaces, SortedRows, UniformPenalty, InOrder, Better, StableParticipantLess;
    ghost var was := rows[..];
    SortedIsInOrder(was);
    var it := -1;
    var place := 1;
    for i := 0 to rows.Length
      invariant -1 <= it < i && (it >= 0 ==> IsPlaced(was[it].kind))
      invariant forall k :: it < k < i ==> !IsPlaced(was[k].kind)
      invariant place == 1 + PlacedCount(was[..i])
      invariant forall k :: 0 <= k < i ==> rows[k] == WithPlace(was, was[k])
      invariant forall k :: i <= k < rows.Length ==> rows[k] == was[k]
    {
      hide PlacedCount;
      CountStep(was, i);
      if IsPlaced(rows[i].kind) {
        PlaceFromLast(was, i, it);
        rows[i] := rows[i].(place := place);
        place := place + 1;
        if it >= 0 && !ParticipantLess(rows[it], rows[i]) {
          rows[i] := rows[i].(place := rows[it].place);
        }
        it := i;
      }
    }
    assert rows[..] == WithPlaces(was);
    PlacesAre(was);
  }

  /** processStandings, as far as rows go: filter, then place. */
  method ProcessRows(rows: seq<Row>, f: Audience) returns (out: seq<Row>)
    requires SortedRows(rows) && UniformPenalty(rows)
    ensures out == WithPlaces(Filter(rows, f)) && ArePlaces(Filter(rows, f), out)
  {
    hide ArePlaces, SortedRows, UniformPenalty, Better;
    var kept := [];
    for i := 0 to |rows|
      invariant kept == Filter(rows[..i], f)
    {
      assert rows[..i + 1][..i] == rows[..i];
      if f.onlyOfficial && rows[i].kind != Regular {
        continue;
      }
      if !f.full {
        if rows[i].kind == Upsolving {
          if !f.finished {
            continue;
          }
        } else if !IsPlaced(rows[i].kind) {
          continue;
        }
      }
      kept := kept + [rows[i]];
    }
    assert rows[..|rows|] == rows;
    FilterSorted(rows, f);
    FilterUniform(rows, f);
    var board := new Row[|kept|](i requires 0 <= i < |kept| => kept[i]);
    assert board[..] == kept;
    CalculatePlaces(board);
    out := board[..];
  }

  /** Frozen standings show every row that is shown at all with the same score, penalty and place,
      whatever the reports at or after the freeze say and however the sort breaks ties. */
  lemma FreezeHidesPlaces(
      es: seq<Entrant>, fs: seq<Entrant>, clock: Clock, rules: Rules, freeze: int, a: seq<Row>, b: seq<Row>,
      f: Audience, i: nat, j: nat)
    requires IsContestTime(clock.contestTime) && SameHistories(es, fs, clock, freeze) && freeze != 0
    requires Fits(ParticipantsOf(es, clock), rules) && Fits(ParticipantsOf(fs, clock), rules)
    requires IsSortOf(a, RowsOf(ParticipantsOf(es, clock), rules, true, freeze))
    requires IsSortOf(b, RowsOf(ParticipantsOf(fs, clock), rules, true, freeze))
    requires i < |Filter(a, f)| && j < |Filter(b, f)| && Filter(a, f)[i].who == Filter(b, f)[j].who
    ensures WithPlaces(Filter(a, f))[i] == WithPlaces(Filter(b, f))[j]
  {
    FreezeHidesRows(es, fs, clock, rules, freeze);
    hide SameHistories, ParticipantsOf, SortedRows, Better, Filter, RowOf;
    var ps, qs := ParticipantsOf(es, clock), ParticipantsOf(fs, clock);
    var x, y := Filter(a, f), Filter(b, f);
    FilterPermuted(a, b, f);
    BuiltOnce(ps, rules, freeze, a, f, x[i]);
    BuiltOnce(ps, rules, freeze, b, f, y[j]);
    assert x[i] == y[j];
    BetterPermuted(x, y, x[i]);
  }

  // A row that is shown is the one built for its participant.
  lemma BuiltOnce(ps: seq<Participant>, rules: Rules, freeze: int, a: seq<Row>, f: Audience, r: Row)
    requires Fits(ps, rules) && IsSortOf(a, RowsOf(ps, rules, true, freeze)) && r in Filter(a, f)
    ensures 0 <= r.who < |ps| && r == RowOf(r.who, ps[r.who], rules, true, freeze)
  {
    hide SortedRows;
    var rows := RowsOf(ps, rules, true, freeze);
    FilterMembers(a, f);
    assert r in multiset(a);
    var k :| 0 <= k < |rows| && rows[k] == r;
  }

  /** A participant is shown in both or in neither. */
  lemma FreezeHidesPresence(
      es: seq<Entrant>, fs: seq<Entrant>, clock: Clock, rules: Rules, freeze: int, a: seq<Row>, b: seq<Row>,
      f: Audience)
    requires IsContestTime(clock.contestTime) && SameHistories(es, fs, clock, freeze) && freeze != 0
    requires Fits(ParticipantsOf(es, clock), rules) && Fits(ParticipantsOf(fs, clock), rules)
    requires IsSortOf(a, RowsOf(ParticipantsOf(es, clock), rules, true, freeze))
    requires IsSortOf(b, RowsOf(ParticipantsOf(fs, clock), rules, true, freeze))
    ensures multiset(Filter(a, f)) == multiset(Filter(b, f))
  {
    FreezeHidesRows(es, fs, clock, rules, freeze);
    FilterPermuted(a, b, f);
  }
}
