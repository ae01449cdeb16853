/** Rows of the standings: score and penalty from the cells, and what a freeze hides
    (internal/managers/contest_standings.go). */
module StandingsRows {
  import opened Options
  import opened ContestTime
  import opened StandingsScan

  datatype Kind = Regular | Upsolving | Manager | Observer | Virtual

  predicate IsPlaced(kind: Kind) {
    kind.Regular? || kind.Virtual?
  }

  /** A participant with submissions, by column, sorted by time. Fake participants have kind Regular and
      id 0. */
  datatype Participant = Participant(id: int, kind: Kind, subs: seq<seq<Attempt>>)

  /** `who` is the position of the participant; the program identifies rows by the participant itself. */
  datatype Row = Row(who: int, id: int, kind: Kind, score: real, penalty: Option<int>, place: int)

  datatype ColumnCell = ColumnCell(column: nat, cell: Cell)

  // Integer division as Go does it.
  function Minutes(time: int): int {
    if time >= 0 then time / 60 else -(-time / 60)
  }

  // ---- ICPC rows ----

  function PenaltyOf(cell: Cell): int {
    if cell.verdict == ACCEPTED then (cell.attempt - 1) * 20 + Minutes(cell.time) else 0
  }

  function ScoreOf(cell: Cell, weight: real): real {
    if cell.verdict == ACCEPTED then weight else 0.0
  }

  /** The sum over the solved problems of 20 a wasted attempt and the minutes of the first Accepted. */
  function ICPCPenalty(subs: seq<seq<Attempt>>, frozen: bool, freeze: int): int {
    if subs == [] then 0
    else ICPCPenalty(subs[..|subs| - 1], frozen, freeze) + PenaltyOf(ICPCCell(subs[|subs| - 1], frozen, freeze))
  }

  /** The sum of the scores of the solved problems. */
  function ICPCScore(subs: seq<seq<Attempt>>, weights: seq<real>, frozen: bool, freeze: int): real
    requires |subs| <= |weights|
  {
    if subs == [] then 0.0
    else ICPCScore(subs[..|subs| - 1], weights, frozen, freeze) +
         ScoreOf(ICPCCell(subs[|subs| - 1], frozen, freeze), weights[|subs| - 1])
  }

  function IOIScore(subs: seq<seq<Attempt>>, frozen: bool, freeze: int): real {
    if subs == [] then 0.0
    else IOIScore(subs[..|subs| - 1], frozen, freeze) + IOICell(subs[|subs| - 1], frozen, freeze).points
  }

  // The sums the second loop takes over the cells that were kept.
  function CellScore(cells: seq<ColumnCell>, weights: seq<real>): real
    requires forall i :: 0 <= i < |cells| ==> cells[i].column < |weights|
  {
    if cells == [] then 0.0
    else CellScore(cells[..|cells| - 1], weights) +
         ScoreOf(cells[|cells| - 1].cell, weights[cells[|cells| - 1].column])
  }

  function CellPenalty(cells: seq<ColumnCell>): int {
    if cells == [] then 0 else CellPenalty(cells[..|cells| - 1]) + PenaltyOf(cells[|cells| - 1].cell)
  }

  function CellPoints(cells: seq<ColumnCell>): real {
    if cells == [] then 0.0 else CellPoints(cells[..|cells| - 1]) + cells[|cells| - 1].cell.points
  }

  /** The cells that are kept: a problem without counted submissions gets none. */
  function ICPCCells(subs: seq<seq<Attempt>>, frozen: bool, freeze: int): (cells: seq<ColumnCell>)
    ensures forall i :: 0 <= i < |cells| ==> cells[i].column < |subs|
  {
    if subs == [] then []
    else
      var n := |subs| - 1;
      var cell := ICPCCell(subs[n], frozen, freeze);
      ICPCCells(subs[..n], frozen, freeze) + if cell.attempt > 0 then [ColumnCell(n, cell)] else []
  }

  function IOICells(subs: seq<seq<Attempt>>, frozen: bool, freeze: int): seq<ColumnCell> {
    if subs == [] then []
    else
      var n := |subs| - 1;
      var cell := IOICell(subs[n], frozen, freeze);
      IOICells(subs[..n], frozen, freeze) + if cell.attempt > 0 then [ColumnCell(n, cell)] else []
  }

  lemma UntouchedCell(attempts: seq<Attempt>, weight: real, frozen: bool, freeze: int)
    ensures var cell := ICPCCell(attempts, frozen, freeze);
            cell.attempt >= 0 && (cell.attempt == 0 ==> PenaltyOf(cell) == 0 && ScoreOf(cell, weight) == 0.0)
  {
  }

  lemma PenaltyOfOneMore(front: seq<ColumnCell>, c: ColumnCell)
    ensures CellPenalty(front + [c]) == CellPenalty(front) + PenaltyOf(c.cell)
  {
    assert (front + [c])[..|front|] == front;
  }

  /** Summing over the kept cells is summing over all problems. */
  lemma {:induction false} ICPCPenaltySum(subs: seq<seq<Attempt>>, frozen: bool, freeze: int)
    ensures CellPenalty(ICPCCells(subs, frozen, freeze)) == ICPCPenalty(subs, frozen, freeze)
  {
    if subs != [] {
      ICPCPenaltySum(subs[..|subs| - 1], frozen, freeze);
      ICPCPenaltyStep(subs, frozen, freeze);
    }
  }

  lemma ICPCPenaltyStep(subs: seq<seq<Attempt>>, frozen: bool, freeze: int)
    requires subs != []
    ensures CellPenalty(ICPCCells(subs, frozen, freeze)) ==
              CellPenalty(ICPCCells(subs[..|subs| - 1], frozen, freeze)) + PenaltyOf(ICPCCell(subs[|subs| - 1], frozen, freeze))
  {
    hide ICPCCell, PenaltyOf, ICPCPenalty, CellPenalty;
    var n := |subs| - 1;
    UntouchedCell(subs[n], 0.0, frozen, freeze);
    var cell := ICPCCell(subs[n], frozen, freeze);
    var cells, front := ICPCCells(subs, frozen, freeze), ICPCCells(subs[..n], frozen, freeze);
    if cell.attempt > 0 {
      PenaltyOfOneMore(front, ColumnCell(n, cell));
      assert cells == front + [ColumnCell(n, cell)];
    } else {
      assert cells == front;
    }
  }

  lemma {:induction false} ICPCScoreSum(subs: seq<seq<Attempt>>, weights: seq<real>, frozen: bool, freeze: int)
    requires |subs| <= |weights|
    ensures CellScore(ICPCCells(subs, frozen, freeze), weights) == ICPCScore(subs, weights, frozen, freeze)
  {
    hide ICPCCell, PenaltyOf, ScoreOf;
    if subs != [] {
      var n := |subs| - 1;
      ICPCScoreSum(subs[..n], weights, frozen, freeze);
      UntouchedCell(subs[n], weights[n], frozen, freeze);
      var cells, front := ICPCCells(subs, frozen, freeze), ICPCCells(subs[..n], frozen, freeze);
      if ICPCCell(subs[n], frozen, freeze).attempt > 0 {
        assert cells[..|cells| - 1] == front;
      } else {
        assert cells == front;
      }
    }
  }

  lemma NoAttemptNoPoints(attempts: seq<Attempt>, frozen: bool, freeze: int)
    ensures var cell := IOICell(attempts, frozen, freeze);
            cell.attempt >= 0 && (cell.attempt == 0 ==> cell.points == 0.0)
  {
    FoldAttempts(BeforePending(Counted(attempts)), frozen, freeze);
  }

  lemma {:induction false} FoldAttempts(c: seq<Attempt>, frozen: bool, freeze: int)
    requires forall i :: 0 <= i < |c| ==> c[i].report.Judged?
    ensures IOIFold(c, frozen, freeze).attempt == |c|
  {
    if c != [] {
      FoldAttempts(c[..|c| - 1], frozen, freeze);
    }
  }

  lemma {:induction false} IOISums(subs: seq<seq<Attempt>>, frozen: bool, freeze: int)
    ensures CellPoints(IOICells(subs, frozen, freeze)) == IOIScore(subs, frozen, freeze)
  {
    hide IOICell;
    if subs != [] {
      var n := |subs| - 1;
      IOISums(subs[..n], frozen, freeze);
      NoAttemptNoPoints(subs[n], frozen, freeze);
      var cells, front := IOICells(subs, frozen, freeze), IOICells(subs[..n], frozen, freeze);
      if IOICell(subs[n], frozen, freeze).attempt > 0 {
        assert cells[..|cells| - 1] == front;
      } else {
        assert cells == front;
      }
    }
  }

  // ---- The sums, told from the submissions ----

  function Sum(parts: seq<int>): int {
    if parts == [] then 0 else Sum(parts[..|parts| - 1]) + parts[|parts| - 1]
  }

  function RealSum(parts: seq<real>): real {
    if parts == [] then 0.0 else RealSum(parts[..|parts| - 1]) + parts[|parts| - 1]
  }

  /** The counted submission at k is accepted (code 1), nothing before it ends the scan, and it is shown. */
  ghost predicate SolvedAt(a: seq<Attempt>, k: nat, frozen: bool, freeze: int) {
    var c := Counted(a);
    && k < |c| && c[k].report.Judged? && c[k].report.verdict == 1
    && (forall i :: 0 <= i < k ==> c[i].report.Judged? && c[i].report.verdict != 1)
    && !(frozen && freeze != 0 && c[k].time >= freeze)
  }

  /** A problem solved with k counted submissions before adds 20 for each of these and the whole minutes of
      the time; any other problem adds nothing. */
  ghost predicate AddsPenalty(p: int, a: seq<Attempt>, frozen: bool, freeze: int) {
    && (forall k: nat :: SolvedAt(a, k, frozen, freeze) ==>
          var time, m := Counted(a)[k].time, p - 20 * k;
          if time >= 0 then 60 * m <= time < 60 * m + 60 else 60 * m - 60 < time <= 60 * m)
    && ((forall k: nat :: !SolvedAt(a, k, frozen, freeze)) ==> p == 0)
  }

  /** A solved problem adds its weight. */
  ghost predicate AddsScore(p: real, a: seq<Attempt>, weight: real, frozen: bool, freeze: int) {
    && (forall k: nat :: SolvedAt(a, k, frozen, freeze) ==> p == weight)
    && ((forall k: nat :: !SolvedAt(a, k, frozen, freeze)) ==> p == 0.0)
  }

  /** The total is the sum of what each problem adds. */
  ghost predicate IsPenalty(total: int, subs: seq<seq<Attempt>>, frozen: bool, freeze: int) {
    exists parts: seq<int> :: |parts| == |subs| && Sum(parts) == total &&
      forall j :: 0 <= j < |subs| ==> AddsPenalty(parts[j], subs[j], frozen, freeze)
  }

  ghost predicate IsScore(total: real, subs: seq<seq<Attempt>>, weights: seq<real>, frozen: bool, freeze: int)
    requires |subs| <= |weights|
  {
    exists parts: seq<real> :: |parts| == |subs| && RealSum(parts) == total &&
      forall j :: 0 <= j < |subs| ==> AddsScore(parts[j], subs[j], weights[j], frozen, freeze)
  }

  ghost predicate IsPoints(total: real, subs: seq<seq<Attempt>>, frozen: bool, freeze: int) {
    exists parts: seq<real> :: |parts| == |subs| && RealSum(parts) == total &&
      forall j :: 0 <= j < |subs| ==> AddsPoints(parts[j], subs[j], frozen, freeze)
  }

  // Where a problem is solved, in terms of its cell.
  lemma SolvedCell(a: seq<Attempt>, frozen: bool, freeze: int, k: nat)
    ensures SolvedAt(a, k, frozen, freeze) ==>
              var c, cell := Counted(a), ICPCCell(a, frozen, freeze);
              cell.verdict == ACCEPTED && cell.attempt == k + 1 && cell.time == c[k].time
  {
    var c := Counted(a);
    if SolvedAt(a, k, frozen, freeze) {
      assert Ends(c[k]) && forall i :: 0 <= i < k ==> !Ends(c[i]);
      FirstEndIn(c, k);
    }
  }

  lemma UnsolvedCell(a: seq<Attempt>, frozen: bool, freeze: int)
    requires ICPCCell(a, frozen, freeze).verdict == ACCEPTED
    ensures exists k: nat :: SolvedAt(a, k, frozen, freeze)
  {
    var c := Counted(a);
    SolvedMeans(a, frozen, freeze);
    var k: nat :| k < |c| && IsFirstAccepted(c, k) && !(frozen && VerdictFrozen(freeze, c[k].time));
    assert forall i :: 0 <= i < k ==> Counts(c[i]) && !Ends(c[i]);
    assert SolvedAt(a, k, frozen, freeze);
  }

  lemma CellAdds(a: seq<Attempt>, weight: real, frozen: bool, freeze: int)
    ensures AddsPenalty(PenaltyOf(ICPCCell(a, frozen, freeze)), a, frozen, freeze)
    ensures AddsScore(ScoreOf(ICPCCell(a, frozen, freeze), weight), a, weight, frozen, freeze)
  {
    hide ICPCCell, SolvedAt;
    forall k: nat
      ensures SolvedAt(a, k, frozen, freeze) ==>
                var c, cell := Counted(a), ICPCCell(a, frozen, freeze);
                k < |c| && cell.verdict == ACCEPTED && cell.attempt == k + 1 && cell.time == c[k].time
    {
      SolvedCell(a, frozen, freeze, k);
      SolvedIsCounted(a, frozen, freeze, k);
    }
    if ICPCCell(a, frozen, freeze).verdict == ACCEPTED {
      UnsolvedCell(a, frozen, freeze);
    }
  }

  lemma SolvedIsCounted(a: seq<Attempt>, frozen: bool, freeze: int, k: nat)
    ensures SolvedAt(a, k, frozen, freeze) ==> k < |Counted(a)|
  {
  }

  lemma OneMorePenalty(total: int, p: int, subs: seq<seq<Attempt>>, frozen: bool, freeze: int)
    requires subs != [] && IsPenalty(total, subs[..|subs| - 1], frozen, freeze)
    requires AddsPenalty(p, subs[|subs| - 1], frozen, freeze)
    ensures IsPenalty(total + p, subs, frozen, freeze)
  {
    hide AddsPenalty;
    var n := |subs| - 1;
    var parts: seq<int> :| |parts| == n && Sum(parts) == total &&
      forall j :: 0 <= j < n ==> AddsPenalty(parts[j], subs[..n][j], frozen, freeze);
    var all := parts + [p];
    assert all[..n] == parts;
    forall j | 0 <= j < |subs|
      ensures AddsPenalty(all[j], subs[j], frozen, freeze)
    {
      assert j < n ==> subs[..n][j] == subs[j];
    }
    assert Sum(all) == total + p;
  }

  lemma OneMoreScore(total: real, p: real, subs: seq<seq<Attempt>>, weights: seq<real>, frozen: bool, freeze: int)
    requires subs != [] && |subs| <= |weights| && IsScore(total, subs[..|subs| - 1], weights, frozen, freeze)
    requires AddsScore(p, subs[|subs| - 1], weights[|subs| - 1], frozen, freeze)
    ensures IsScore(total + p, subs, weights, frozen, freeze)
  {
    hide AddsScore;
    var n := |subs| - 1;
    var parts: seq<real> :| |parts| == n && RealSum(parts) == total &&
      forall j :: 0 <= j < n ==> AddsScore(parts[j], subs[..n][j], weights[j], frozen, freeze);
    var all := parts + [p];
    assert all[..n] == parts;
    forall j | 0 <= j < |subs|
      ensures AddsScore(all[j], subs[j], weights[j], frozen, freeze)
    {
      assert j < n ==> subs[..n][j] == subs[j];
    }
    assert RealSum(all) == total + p;
  }

  lemma OneMorePoints(total: real, p: real, subs: seq<seq<Attempt>>, frozen: bool, freeze: int)
    requires subs != [] && IsPoints(total, subs[..|subs| - 1], frozen, freeze)
    requires AddsPoints(p, subs[|subs| - 1], frozen, freeze)
    ensures IsPoints(total + p, subs, frozen, freeze)
  {
    hide AddsPoints;
    var n := |subs| - 1;
    var parts: seq<real> :| |parts| == n && RealSum(parts) == total &&
      forall j :: 0 <= j < n ==> AddsPoints(parts[j], subs[..n][j], frozen, freeze);
    var all := parts + [p];
    assert all[..n] == parts;
    forall j | 0 <= j < |subs|
      ensures AddsPoints(all[j], subs[j], frozen, freeze)
    {
      assert j < n ==> subs[..n][j] == subs[j];
    }
    assert RealSum(all) == total + p;
  }

  lemma NoParts(weights: seq<real>, frozen: bool, freeze: int)
    ensures IsPenalty(0, [], frozen, freeze) && IsScore(0.0, [], weights, frozen, freeze) && IsPoints(0.0, [], frozen, freeze)
  {
    var none: seq<int> := [];
    var reals: seq<real> := [];
    assert |none| == 0 && Sum(none) == 0 && RealSum(reals) == 0.0;
  }

  lemma {:induction false} PenaltyParts(subs: seq<seq<Attempt>>, frozen: bool, freeze: int)
    ensures IsPenalty(ICPCPenalty(subs, frozen, freeze), subs, frozen, freeze)
  {
    hide ICPCCell, AddsPenalty, PenaltyOf, IsPenalty;
    if subs == [] {
      NoParts([], frozen, freeze);
    } else {
      var n := |subs| - 1;
      PenaltyParts(subs[..n], frozen, freeze);
      CellAdds(subs[n], 0.0, frozen, freeze);
      OneMorePenalty(ICPCPenalty(subs[..n], frozen, freeze), PenaltyOf(ICPCCell(subs[n], frozen, freeze)), subs, frozen, freeze);
    }
  }

  lemma {:induction false} ScoreParts(subs: seq<seq<Attempt>>, weights: seq<real>, frozen: bool, freeze: int)
    requires |subs| <= |weights|
    ensures IsScore(ICPCScore(subs, weights, frozen, freeze), subs, weights, frozen, freeze)
  {
    hide ICPCCell, AddsScore, ScoreOf, IsScore;
    if subs == [] {
      NoParts(weights, frozen, freeze);
    } else {
      var n := |subs| - 1;
      ScoreParts(subs[..n], weights, frozen, freeze);
      CellAdds(subs[n], weights[n], frozen, freeze);
      OneMoreScore(ICPCScore(subs[..n], weights, frozen, freeze), ScoreOf(ICPCCell(subs[n], frozen, freeze), weights[n]),
                   subs, weights, frozen, freeze);
    }
  }

  lemma {:induction false} PointsParts(subs: seq<seq<Attempt>>, frozen: bool, freeze: int)
    ensures IsPoints(IOIScore(subs, frozen, freeze), subs, frozen, freeze)
  {
    hide IOICell, AddsPoints, IsPoints;
    if subs == [] {
      NoParts([], frozen, freeze);
    } else {
      var n := |subs| - 1;
      PointsParts(subs[..n], frozen, freeze);
      BestPoints(subs[n], frozen, freeze);
      OneMorePoints(IOIScore(subs[..n], frozen, freeze), IOICell(subs[n], frozen, freeze).points, subs, frozen, freeze);
    }
  }

  /** One row: the cells, then the sums over the cells that were kept. */
  method BuildICPCRow(subs: seq<seq<Attempt>>, weights: seq<real>, frozen: bool, freeze: int)
    returns (cells: seq<ColumnCell>, score: real, penalty: int)
    requires |subs| == |weights|
    ensures cells == ICPCCells(subs, frozen, freeze)
    ensures score == ICPCScore(subs, weights, frozen, freeze)
    ensures penalty == ICPCPenalty(subs, frozen, freeze)
    ensures IsScore(score, subs, weights, frozen, freeze) && IsPenalty(penalty, subs, frozen, freeze)
  {
    hide ICPCCell, IsScore, IsPenalty;
    cells := [];
    for k := 0 to |subs|
      invariant cells == ICPCCells(subs[..k], frozen, freeze)
    {
      assert subs[..k + 1][..k] == subs[..k];
      var cell := ScanICPC(subs[k], frozen, freeze);
      if cell.attempt > 0 {
        cells := cells + [ColumnCell(k, cell)];
      }
    }
    assert subs[..|subs|] == subs;
    score, penalty := 0.0, 0;
    for i := 0 to |cells|
      invariant score == CellScore(cells[..i], weights) && penalty == CellPenalty(cells[..i])
    {
      assert cells[..i + 1][..i] == cells[..i];
      if cells[i].cell.verdict == ACCEPTED {
        score := score + weights[cells[i].column];
        penalty := penalty + ((cells[i].cell.attempt - 1) * 20 + Minutes(cells[i].cell.time));
      }
    }
    assert cells[..|cells|] == cells;
    ICPCScoreSum(subs, weights, frozen, freeze);
    ICPCPenaltySum(subs, frozen, freeze);
    ScoreParts(subs, weights, frozen, freeze);
    PenaltyParts(subs, frozen, freeze);
  }

  method BuildIOIRow(subs: seq<seq<Attempt>>, frozen: bool, freeze: int)
    returns (cells: seq<ColumnCell>, score: real)
    ensures cells == IOICells(subs, frozen, freeze)
    ensures score == IOIScore(subs, frozen, freeze) && IsPoints(score, subs, frozen, freeze)
  {
    hide IOICell, IsPoints;
    cells := [];
    for k := 0 to |subs|
      invariant cells == IOICells(subs[..k], frozen, freeze)
    {
      assert subs[..k + 1][..k] == subs[..k];
      var cell := ScanIOI(subs[k], frozen, freeze);
      if cell.attempt > 0 {
        cells := cells + [ColumnCell(k, cell)];
      }
    }
    assert subs[..|subs|] == subs;
    score := 0.0;
    for i := 0 to |cells|
      invariant score == CellPoints(cells[..i])
    {
      assert cells[..i + 1][..i] == cells[..i];
      score := score + cells[i].cell.points;
    }
    assert cells[..|cells|] == cells;
    IOISums(subs, frozen, freeze);
    PointsParts(subs, frozen, freeze);
  }

  // ---- The rows of all participants, before sorting ----

  datatype Rules = ICPC(weights: seq<real>) | IOI

  function RowOf(who: int, p: Participant, rules: Rules, frozen: bool, freeze: int): Row
    requires rules.ICPC? ==> |p.subs| == |rules.weights|
  {
    match rules
    case ICPC(weights) =>
      Row(who, p.id, p.kind, ICPCScore(p.subs, weights, frozen, freeze),
          if IsPlaced(p.kind) then Some(ICPCPenalty(p.subs, frozen, freeze)) else None, 0)
    case IOI => Row(who, p.id, p.kind, IOIScore(p.subs, frozen, freeze), None, 0)
  }

  predicate Fits(ps: seq<Participant>, rules: Rules) {
    rules.ICPC? ==> forall i :: 0 <= i < |ps| ==> |ps[i].subs| == |rules.weights|
  }

  function RowsOf(ps: seq<Participant>, rules: Rules, frozen: bool, freeze: int): (rows: seq<Row>)
    requires Fits(ps, rules)
    ensures |rows| == |ps| && forall i :: 0 <= i < |rows| ==> rows[i] == RowOf(i, ps[i], rules, frozen, freeze)
  {
    seq(|ps|, i requires 0 <= i < |ps| => RowOf(i, ps[i], rules, frozen, freeze))
  }

  /** A row has its participant's id and kind, the sums over the problems, no place yet, and a penalty in
      ICPC rules for regular and virtual participants alone. */
  ghost predicate IsRow(r: Row, who: int, p: Participant, rules: Rules, frozen: bool, freeze: int)
    requires rules.ICPC? ==> |p.subs| == |rules.weights|
  {
    && r.who == who && r.id == p.id && r.kind == p.kind && r.place == 0
    && (rules.IOI? ==> r.penalty.None? && IsPoints(r.score, p.subs, frozen, freeze))
    && (rules.ICPC? ==>
          && IsScore(r.score, p.subs, rules.weights, frozen, freeze)
          && (r.penalty.Some? <==> p.kind == Regular || p.kind == Virtual)
          && (r.penalty.Some? ==> IsPenalty(r.penalty.value, p.subs, frozen, freeze)))
  }

  lemma RowMeans(who: int, p: Participant, rules: Rules, frozen: bool, freeze: int)
    requires rules.ICPC? ==> |p.subs| == |rules.weights|
    ensures IsRow(RowOf(who, p, rules, frozen, freeze), who, p, rules, frozen, freeze)
  {
    hide IsScore, IsPenalty, IsPoints, ICPCPenalty, ICPCScore, IOIScore;
    match rules
    case ICPC(weights) =>
      ScoreParts(p.subs, weights, frozen, freeze);
      PenaltyParts(p.subs, frozen, freeze);
    case IOI =>
      PointsParts(p.subs, frozen, freeze);
  }

  /** The loop over the participants. */
  method BuildRows(ps: seq<Participant>, rules: Rules, frozen: bool, freeze: int) returns (rows: seq<Row>)
    requires Fits(ps, rules)
    ensures rows == RowsOf(ps, rules, frozen, freeze)
    ensures |rows| == |ps|
    ensures forall i :: 0 <= i < |rows| ==> IsRow(rows[i], i, ps[i], rules, frozen, freeze)
  {
    hide IsRow, IsScore, IsPenalty, IsPoints, ICPCScore, ICPCPenalty, IOIScore;
    forall i | 0 <= i < |ps|
      ensures IsRow(RowOf(i, ps[i], rules, frozen, freeze), i, ps[i], rules, frozen, freeze)
    {
      RowMeans(i, ps[i], rules, frozen, freeze);
    }
    rows := [];
    for i := 0 to |ps|
      invariant |rows| == i && forall k :: 0 <= k < i ==> rows[k] == RowOf(k, ps[k], rules, frozen, freeze)
    {
      var p := ps[i];
      var row := Row(i, p.id, p.kind, 0.0, None, 0);
      match rules {
        case ICPC(weights) =>
          var cells, score, penalty := BuildICPCRow(p.subs, weights, frozen, freeze);
          row := row.(score := score);
          if IsPlaced(p.kind) {
            row := row.(penalty := Some(penalty));
          }
        case IOI =>
          var cells, score := BuildIOIRow(p.subs, frozen, freeze);
          row := row.(score := score);
      }
      rows := rows + [row];
    }
  }

  // ---- The freeze ----

  /** Two histories of one participant on one problem that differ only in reports of submissions at or
      after the freeze. */
  ghost predicate SameBeforeFreeze(a: seq<Attempt>, b: seq<Attempt>, freeze: int) {
    && |a| == |b|
    && forall i :: 0 <= i < |a| ==>
         && a[i].shown == b[i].shown && a[i].time == b[i].time
         && (a[i].time < freeze ==> a[i].report == b[i].report)
  }

  ghost predicate AllLate(a: seq<Attempt>, freeze: int) {
    forall i :: 0 <= i < |a| ==> VerdictFrozen(freeze, a[i].time)
  }

  // Where the freeze cuts a sorted list.
  function FreezeCut(a: seq<Attempt>, freeze: int): (m: nat)
    ensures m <= |a|
    ensures forall i :: 0 <= i < m ==> a[i].time < freeze
    ensures m < |a| ==> a[m].time >= freeze
  {
    if a == [] || a[0].time >= freeze then 0 else 1 + FreezeCut(a[1..], freeze)
  }

  lemma {:induction false} CountedLate(a: seq<Attempt>, freeze: int)
    requires AllLate(a, freeze)
    ensures AllLate(Counted(a), freeze)
  {
    if a != [] {
      CountedLate(a[..|a| - 1], freeze);
    }
  }

  /** Under a freeze the late submissions s do not decide whether the problem is shown as solved, nor how. */
  lemma ICPCIgnoresLate(p: seq<Attempt>, s: seq<Attempt>, freeze: int)
    requires AllLate(s, freeze)
    ensures PenaltyOf(ICPCCell(p + s, true, freeze)) == PenaltyOf(ICPCCell(p, true, freeze))
    ensures ICPCCell(p + s, true, freeze).verdict == ACCEPTED <==> ICPCCell(p, true, freeze).verdict == ACCEPTED
  {
    CountedConcat(p, s);
    CountedLate(s, freeze);
    hide Counted, Counts;
    if FirstEnd(Counted(p)) < |Counted(p)| {
      EndedBefore(Counted(p), Counted(s));
    } else {
      LateIsNotSolved(Counted(p), Counted(s), freeze);
      LateIsNotSolved(Counted(p), [], freeze);
      assert Counted(p) + [] == Counted(p);
    }
  }

  lemma EndedBefore(c: seq<Attempt>, d: seq<Attempt>)
    requires FirstEnd(c) < |c|
    ensures FirstEnd(c + d) == FirstEnd(c)
  {
    assert forall i :: 0 <= i <= FirstEnd(c) ==> (c + d)[i] == c[i];
    FirstEndIn(c + d, FirstEnd(c));
  }

  lemma LateIsNotSolved(c: seq<Attempt>, d: seq<Attempt>, freeze: int)
    requires FirstEnd(c) == |c| && AllLate(d, freeze)
    ensures var all := c + d;
            var k := FirstEnd(all);
            var n := if k < |all| then k + 1 else |all|;
            n > 0 && all[n - 1].report.Judged? ==> Visible(all[n - 1], true, freeze) != ACCEPTED
  {
    var all := c + d;
    var k := FirstEnd(all);
    var n := if k < |all| then k + 1 else |all|;
    if n > 0 {
      if n - 1 < |c| {
        assert all[n - 1] == c[n - 1];
      } else {
        assert all[n - 1] == d[n - 1 - |c|];
      }
    }
  }

  lemma {:induction false} LateFold(c: seq<Attempt>, d: seq<Attempt>, freeze: int)
    requires forall i :: 0 <= i < |c + d| ==> (c + d)[i].report.Judged?
    requires AllLate(d, freeze)
    requires forall i :: 0 <= i < |c| ==> c[i].report.Judged?
    ensures IOIFold(c + d, true, freeze).points == IOIFold(c, true, freeze).points
  {
    if d == [] {
      assert c + d == c;
    } else {
      assert (c + d)[..|c + d| - 1] == c + d[..|d| - 1];
      assert forall i :: 0 <= i < |c + d[..|d| - 1]| ==> (c + d[..|d| - 1])[i] == (c + d)[i];
      LateFold(c, d[..|d| - 1], freeze);
    }
  }

  lemma IOIIgnoresLate(p: seq<Attempt>, s: seq<Attempt>, freeze: int)
    requires AllLate(s, freeze)
    ensures IOICell(p + s, true, freeze).points == IOICell(p, true, freeze).points
  {
    CountedConcat(p, s);
    CountedLate(s, freeze);
    var c, d := Counted(p), Counted(s);
    var judged := BeforePending(c);
    if |judged| < |c| {
      assert (c + d)[|judged|] == c[|judged|];
      assert forall i :: 0 <= i < |judged| ==> (c + d)[i] == judged[i];
      BeforePendingIn(c + d, |judged|);
      assert (c + d)[..|judged|] == judged;
    } else {
      var late := BeforePending(d);
      assert judged == c;
      PendingConcat(c, d);
      assert forall i :: 0 <= i < |late| ==> late[i] == d[i] && late[i].report.Judged?;
      assert forall i :: 0 <= i < |c| ==> c[i].report.Judged?;
      LateFold(c, late, freeze);
    }
  }

  lemma PendingConcat(c: seq<Attempt>, d: seq<Attempt>)
    requires forall i :: 0 <= i < |c| ==> !c[i].report.Pending?
    ensures BeforePending(c + d) == c + BeforePending(d)
  {
    var k := |BeforePending(d)|;
    assert d[..k] == BeforePending(d);
    if k < |d| {
      assert (c + d)[|c| + k] == d[k];
      forall i | 0 <= i < |c| + k
        ensures !(c + d)[i].report.Pending?
      {
        assert i >= |c| ==> (c + d)[i] == BeforePending(d)[i - |c|];
      }
      BeforePendingIn(c + d, |c| + k);
      assert (c + d)[..|c| + k] == c + d[..k];
    } else {
      forall i | 0 <= i < |c + d|
        ensures !(c + d)[i].report.Pending?
      {
        assert i >= |c| ==> (c + d)[i] == BeforePending(d)[i - |c|];
      }
      NonePending(c + d);
    }
  }

  lemma SplitAtFreeze(a: seq<Attempt>, b: seq<Attempt>, freeze: int)
    requires SameBeforeFreeze(a, b, freeze) && ByTime(a) && freeze != 0
    ensures var m := FreezeCut(a, freeze);
            m <= |b| && a[..m] == b[..m] && AllLate(a[m..], freeze) && AllLate(b[m..], freeze)
  {
    var m := FreezeCut(a, freeze);
    forall i | m <= i < |a|
      ensures a[i].time >= freeze && b[i].time >= freeze
    {
      assert m < i ==> a[m].time <= a[i].time;
    }
  }

  /** Under a freeze, histories that agree before it give a problem the same score and penalty, in both
      kinds of standings. */
  lemma FreezeHidesCell(a: seq<Attempt>, b: seq<Attempt>, freeze: int, weight: real)
    requires SameBeforeFreeze(a, b, freeze) && ByTime(a) && freeze != 0
    ensures PenaltyOf(ICPCCell(a, true, freeze)) == PenaltyOf(ICPCCell(b, true, freeze))
    ensures ScoreOf(ICPCCell(a, true, freeze), weight) == ScoreOf(ICPCCell(b, true, freeze), weight)
    ensures IOICell(a, true, freeze).points == IOICell(b, true, freeze).points
  {
    hide ICPCCell, IOICell;
    var m := FreezeCut(a, freeze);
    SplitAtFreeze(a, b, freeze);
    assert a == a[..m] + a[m..] && b == b[..m] + b[m..];
    ICPCIgnoresLate(a[..m], a[m..], freeze);
    ICPCIgnoresLate(b[..m], b[m..], freeze);
    IOIIgnoresLate(a[..m], a[m..], freeze);
    IOIIgnoresLate(b[..m], b[m..], freeze);
  }

  ghost predicate SameParticipants(ps: seq<Participant>, qs: seq<Participant>, freeze: int) {
    && |ps| == |qs|
    && forall i :: 0 <= i < |ps| ==>
         && ps[i].id == qs[i].id && ps[i].kind == qs[i].kind && |ps[i].subs| == |qs[i].subs|
         && forall j :: 0 <= j < |ps[i].subs| ==>
              SameBeforeFreeze(ps[i].subs[j], qs[i].subs[j], freeze) && ByTime(ps[i].subs[j])
  }

  lemma {:induction false} FreezeHidesSums(a: seq<seq<Attempt>>, b: seq<seq<Attempt>>, weights: seq<real>, freeze: int)
    requires |a| == |b| && freeze != 0
    requires forall j :: 0 <= j < |a| ==> SameBeforeFreeze(a[j], b[j], freeze) && ByTime(a[j])
    ensures ICPCPenalty(a, true, freeze) == ICPCPenalty(b, true, freeze)
    ensures |a| <= |weights| ==> ICPCScore(a, weights, true, freeze) == ICPCScore(b, weights, true, freeze)
    ensures IOIScore(a, true, freeze) == IOIScore(b, true, freeze)
  {
    hide ICPCCell, IOICell, SameBeforeFreeze, ByTime;
    if a != [] {
      var n := |a| - 1;
      FreezeHidesSums(a[..n], b[..n], weights, freeze);
      FreezeHidesCell(a[n], b[n], freeze, if n < |weights| then weights[n] else 0.0);
    }
  }

  // Rows of attempts that agree before the freeze.
  lemma FrozenRowsAgree(ps: seq<Participant>, qs: seq<Participant>, rules: Rules, freeze: int)
    requires SameParticipants(ps, qs, freeze) && freeze != 0 && Fits(ps, rules)
    ensures Fits(qs, rules) && RowsOf(ps, rules, true, freeze) == RowsOf(qs, rules, true, freeze)
  {
    forall i | 0 <= i < |ps|
      ensures rules.ICPC? ==> |qs[i].subs| == |rules.weights|
      ensures RowOf(i, ps[i], rules, true, freeze) == RowOf(i, qs[i], rules, true, freeze)
    {
      FreezeHidesSums(ps[i].subs, qs[i].subs, if rules.ICPC? then rules.weights else [], freeze);
    }
  }

  // ---- Submissions of real and fake participants ----

  /** `time` is the creation time for a real participant, and the contest time for a fake one. */
  datatype Submission = Submission(id: int, time: int, report: Report)

  /** A participant with the submissions of every problem as they were sorted. A real one has a begin
      time, which is 0 when the contest is not planned for them. */
  datatype Entrant =
    | Real(id: int, kind: Kind, begin: int, subs: seq<seq<Submission>>)
    | Fake(subs: seq<seq<Submission>>)

  /** The clock, and the contest time of who looks at the standings. */
  datatype Clock = Clock(now: int, contestTime: int)

  predicate Sorted(subs: seq<Submission>) {
    forall i, j :: 0 <= i < j < |subs| ==>
      subs[i].time < subs[j].time || (subs[i].time == subs[j].time && subs[i].id <= subs[j].id)
  }

  function AttemptOf(e: Entrant, s: Submission, clock: Clock): Attempt
    requires IsContestTime(clock.contestTime)
  {
    match e
    case Real(_, _, begin, _) => RealAttempt(s.time, clock.now, begin, s.report)
    case Fake(_) => FakeAttempt(s.time, clock.contestTime, s.report)
  }

  function AttemptsOf(e: Entrant, subs: seq<Submission>, clock: Clock): seq<Attempt>
    requires IsContestTime(clock.contestTime)
  {
    seq(|subs|, i requires 0 <= i < |subs| => AttemptOf(e, subs[i], clock))
  }

  function ParticipantOf(e: Entrant, clock: Clock): Participant
    requires IsContestTime(clock.contestTime)
  {
    var subs := seq(|e.subs|, j requires 0 <= j < |e.subs| => AttemptsOf(e, e.subs[j], clock));
    match e
    case Real(id, kind, _, _) => Participant(id, kind, subs)
    case Fake(_) => Participant(0, Regular, subs)
  }

  /** A fake participant has a row like a regular one, with id 0. */
  lemma ParticipantMeans(e: Entrant, clock: Clock)
    requires IsContestTime(clock.contestTime)
    ensures var p := ParticipantOf(e, clock);
            && (e.Real? ==> p.id == e.id && p.kind == e.kind)
            && (e.Fake? ==> p.id == 0 && p.kind == Regular)
            && |p.subs| == |e.subs|
            && forall j :: 0 <= j < |p.subs| ==>
                 && |p.subs[j]| == |e.subs[j]|
                 && forall k :: 0 <= k < |p.subs[j]| ==> p.subs[j][k] == AttemptOf(e, e.subs[j][k], clock)
  {
  }

  function ParticipantsOf(es: seq<Entrant>, clock: Clock): (ps: seq<Participant>)
    requires IsContestTime(clock.contestTime)
    ensures |ps| == |es|
  {
    seq(|es|, i requires 0 <= i < |es| => ParticipantOf(es[i], clock))
  }

  /** Sorted submissions are attempts in order of contest time. */
  lemma AttemptsByTime(e: Entrant, subs: seq<Submission>, clock: Clock)
    requires IsContestTime(clock.contestTime) && Sorted(subs)
    ensures ByTime(AttemptsOf(e, subs, clock))
  {
    match e
    case Real(_, _, begin, _) =>
      var times := seq(|subs|, i requires 0 <= i < |subs| => subs[i].time);
      var reports := seq(|subs|, i requires 0 <= i < |subs| => subs[i].report);
      RealByTime(times, clock.now, begin, reports);
      assert AttemptsOf(e, subs, clock) ==
        seq(|times|, i requires 0 <= i < |times| => RealAttempt(times[i], clock.now, begin, reports[i]));
    case Fake(_) =>
  }

  /** The same participants with the same submissions, whose reports differ only at or after the freeze, by
      the contest time of the participant. */
  ghost predicate SameHistories(es: seq<Entrant>, fs: seq<Entrant>, clock: Clock, freeze: int)
    requires IsContestTime(clock.contestTime)
  {
    && |es| == |fs|
    && forall i :: 0 <= i < |es| ==>
         && es[i].(subs := fs[i].subs) == fs[i] && |es[i].subs| == |fs[i].subs|
         && forall j :: 0 <= j < |es[i].subs| ==>
              && Sorted(es[i].subs[j]) && |es[i].subs[j]| == |fs[i].subs[j]|
              && forall k :: 0 <= k < |es[i].subs[j]| ==>
                   var s, t := es[i].subs[j][k], fs[i].subs[j][k];
                   && s.(report := t.report) == t
                   && (AttemptOf(es[i], s, clock).time < freeze ==> s.report == t.report)
  }

  lemma SameHistoriesSameAttempts(es: seq<Entrant>, fs: seq<Entrant>, clock: Clock, freeze: int)
    requires IsContestTime(clock.contestTime) && SameHistories(es, fs, clock, freeze)
    ensures SameParticipants(ParticipantsOf(es, clock), ParticipantsOf(fs, clock), freeze)
  {
    forall i, j | 0 <= i < |es| && 0 <= j < |es[i].subs|
      ensures SameBeforeFreeze(AttemptsOf(es[i], es[i].subs[j], clock), AttemptsOf(fs[i], fs[i].subs[j], clock), freeze)
      ensures ByTime(AttemptsOf(es[i], es[i].subs[j], clock))
    {
      AttemptsByTime(es[i], es[i].subs[j], clock);
    }
  }

  /** Every row of frozen standings, of real and of fake participants, has the same score and penalty,
      whatever the reports of submissions at or after the freeze are. */
  lemma FreezeHidesRows(es: seq<Entrant>, fs: seq<Entrant>, clock: Clock, rules: Rules, freeze: int)
    requires IsContestTime(clock.contestTime) && SameHistories(es, fs, clock, freeze) && freeze != 0
    requires Fits(ParticipantsOf(es, clock), rules)
    ensures Fits(ParticipantsOf(fs, clock), rules)
    ensures RowsOf(ParticipantsOf(es, clock), rules, true, freeze) ==
            RowsOf(ParticipantsOf(fs, clock), rules, true, freeze)
  {
    SameHistoriesSameAttempts(es, fs, clock, freeze);
    FrozenRowsAgree(ParticipantsOf(es, clock), ParticipantsOf(fs, clock), rules, freeze);
  }
}
