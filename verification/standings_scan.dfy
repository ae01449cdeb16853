/** The cells of a standings row: what the submissions of one participant on one problem amount to
    (buildICPCStandings and buildIOIStandings in internal/managers/contest_standings.go). */
module StandingsScan {
  import opened Options
  import opened ContestTime

  const ACCEPTED := 1
  const COMPILATION_ERROR := 3
  const NO_VERDICT := 0

  // GetReport: an error, no report yet, or a report.
  datatype Report = Unreadable | Pending | Judged(verdict: int, points: Option<real>)

  /** A submission as the scan sees it: whether its time has come, and its time in the contest. */
  datatype Attempt = Attempt(shown: bool, time: int, report: Report)

  datatype Cell = Cell(verdict: int, points: real, attempt: int, time: int)

  const EMPTY := Cell(NO_VERDICT, 0.0, 0, 0)

  // A submission of a real participant; without a begin time all contest times are 0.
  function RealAttempt(createTime: int, now: int, begin: int, report: Report): Attempt {
    Attempt(createTime < now,
            if begin == 0 || createTime < begin then 0 else createTime - begin,
            report)
  }

  function FakeAttempt(contestTime: int, c: int, report: Report): Attempt
    requires IsContestTime(c)
  {
    Attempt(!Before(c, contestTime), contestTime, report)
  }

  /** Without a begin time a real participant's submissions are all at 0; those from before it are too.
      Only submissions from before now are looked at. */
  lemma RealAttemptMeans(createTime: int, now: int, begin: int, report: Report)
    ensures var a := RealAttempt(createTime, now, begin, report);
            && a.report == report && (a.shown <==> createTime < now)
            && (begin == 0 || createTime <= begin ==> a.time == 0)
            && (begin != 0 && createTime >= begin ==> begin + a.time == createTime)
  {
  }

  /** A fake submission is looked at once the contest has reached its time. */
  lemma FakeAttemptMeans(time: int, begin: int, duration: int, now: int, report: Report)
    ensures var a := FakeAttempt(time, ContestTimeAt(begin, duration, now), report);
            && a.report == report && a.time == time
            && (begin == 0 ==> !a.shown)
            && (begin != 0 && now < begin && now < begin + duration ==> !a.shown)
            && (begin != 0 && begin <= now < begin + duration ==> (a.shown <==> begin + time <= now))
            && (begin != 0 && now >= begin + duration ==> a.shown)
  {
  }

  predicate ByTime(attempts: seq<Attempt>) {
    forall i, j :: 0 <= i < j < |attempts| ==> attempts[i].time <= attempts[j].time
  }

  /** Submissions sorted by creation time are attempts sorted by contest time. */
  lemma RealByTime(createTimes: seq<int>, now: int, begin: int, reports: seq<Report>)
    requires |createTimes| == |reports|
    requires forall i, j :: 0 <= i < j < |createTimes| ==> createTimes[i] <= createTimes[j]
    ensures ByTime(seq(|createTimes|, i requires 0 <= i < |createTimes| => RealAttempt(createTimes[i], now, begin, reports[i])))
  {
  }

  // ---- ICPC ----

  // The submissions that count: readable and not a compilation error.
  predicate Counts(a: Attempt) {
    a.shown && !a.report.Unreadable? && !(a.report.Judged? && a.report.verdict == COMPILATION_ERROR)
  }

  function Counted(attempts: seq<Attempt>): (c: seq<Attempt>)
    ensures forall i :: 0 <= i < |c| ==> Counts(c[i])
    ensures |c| <= |attempts|
  {
    if attempts == [] then []
    else Counted(attempts[..|attempts| - 1]) +
         if Counts(attempts[|attempts| - 1]) then [attempts[|attempts| - 1]] else []
  }

  // Judging of a problem ends at its first Accepted; a submission without report hides what follows.
  predicate Ends(a: Attempt) {
    a.report.Pending? || (a.report.Judged? && a.report.verdict == ACCEPTED)
  }

  function FirstEnd(c: seq<Attempt>): (k: nat)
    ensures k <= |c|
    ensures forall i :: 0 <= i < k ==> !Ends(c[i])
    ensures k < |c| ==> Ends(c[k])
  {
    if c == [] || Ends(c[0]) then 0 else 1 + FirstEnd(c[1..])
  }

  function Visible(a: Attempt, frozen: bool, freeze: int): int
    requires a.report.Judged?
  {
    if frozen && VerdictFrozen(freeze, a.time) then NO_VERDICT else a.report.verdict
  }

  /** The cell, from the counted submissions: the first n of them, where n runs to the first that ends
      the scan. */
  function ICPCCell(attempts: seq<Attempt>, frozen: bool, freeze: int): Cell {
    var c := Counted(attempts);
    var k := FirstEnd(c);
    var n := if k < |c| then k + 1 else |c|;
    if n == 0 then EMPTY
    else if c[n - 1].report.Pending? then
      Cell(NO_VERDICT, 0.0, n, if n > 1 then c[n - 2].time else 0)
    else Cell(Visible(c[n - 1], frozen, freeze), 0.0, n, c[n - 1].time)
  }

  // What has been scanned without meeting a submission that ends the scan.
  ghost predicate ScannedICPC(attempts: seq<Attempt>, i: nat, frozen: bool, freeze: int, cell: Cell)
    requires i <= |attempts|
  {
    var c := Counted(attempts[..i]);
    && FirstEnd(c) == |c| == cell.attempt && cell.points == 0.0
    && if c == [] then cell == EMPTY
       else var last := c[|c| - 1];
         last.report.Judged? && cell.time == last.time && cell.verdict == Visible(last, frozen, freeze)
  }

  lemma ScanOn(attempts: seq<Attempt>, i: nat, frozen: bool, freeze: int, cell: Cell)
    requires i < |attempts| && ScannedICPC(attempts, i, frozen, freeze, cell)
    ensures !Counts(attempts[i]) ==> ScannedICPC(attempts, i + 1, frozen, freeze, cell)
    ensures var a := attempts[i];
            Counts(a) && a.report.Judged? && !Ends(a) ==>
              ScannedICPC(attempts, i + 1, frozen, freeze,
                          Cell(Visible(a, frozen, freeze), 0.0, cell.attempt + 1, a.time))
  {
    CountedStep(attempts, i);
    if Counts(attempts[i]) && !Ends(attempts[i]) {
      NoEndYet(Counted(attempts[..i + 1]));
    }
  }

  lemma ScanEnds(attempts: seq<Attempt>, i: nat, frozen: bool, freeze: int, cell: Cell)
    requires i < |attempts| && ScannedICPC(attempts, i, frozen, freeze, cell)
    requires Counts(attempts[i]) && Ends(attempts[i])
    ensures var a := attempts[i];
            ICPCCell(attempts, frozen, freeze) ==
              if a.report.Pending? then cell.(attempt := cell.attempt + 1, verdict := NO_VERDICT)
              else Cell(Visible(a, frozen, freeze), 0.0, cell.attempt + 1, a.time)
  {
    EndFound(attempts, i);
    var c, all := Counted(attempts[..i]), Counted(attempts);
    assert |c| > 0 ==> all[|c| - 1] == c[|c| - 1];
  }

  lemma ScannedAllICPC(attempts: seq<Attempt>, frozen: bool, freeze: int, cell: Cell)
    requires ScannedICPC(attempts, |attempts|, frozen, freeze, cell)
    ensures ICPCCell(attempts, frozen, freeze) == cell
  {
    assert attempts[..|attempts|] == attempts;
  }

  /** The scan over the sorted submissions, as the program writes it. */
  method ScanICPC(attempts: seq<Attempt>, frozen: bool, freeze: int) returns (cell: Cell)
    ensures cell == ICPCCell(attempts, frozen, freeze)
  {
    cell := EMPTY;
    for i := 0 to |attempts|
      invariant cell.points == 0.0
      invariant ScannedICPC(attempts, i, frozen, freeze, cell)
    {
      hide ScannedICPC, ICPCCell;
      ScanOn(attempts, i, frozen, freeze, cell);
      var a := attempts[i];
      if Counts(a) && Ends(a) {
        ScanEnds(attempts, i, frozen, freeze, cell);
      }
      if !a.shown {
        continue;
      }
      match a.report
      case Unreadable => continue;
      case Pending =>
        cell := cell.(attempt := cell.attempt + 1, verdict := NO_VERDICT);
        return;
      case Judged(verdict, _) =>
        if verdict == COMPILATION_ERROR {
          continue;
        }
        cell := cell.(attempt := cell.attempt + 1, time := a.time, verdict := verdict);
        if frozen && VerdictFrozen(freeze, cell.time) {
          cell := cell.(verdict := NO_VERDICT);
        }
        if verdict == ACCEPTED {
          return;
        }
    }
    ScannedAllICPC(attempts, frozen, freeze, cell);
  }

  lemma CountedStep(attempts: seq<Attempt>, i: nat)
    requires i < |attempts|
    ensures Counts(attempts[i]) ==> Counted(attempts[..i + 1]) == Counted(attempts[..i]) + [attempts[i]]
    ensures !Counts(attempts[i]) ==> Counted(attempts[..i + 1]) == Counted(attempts[..i])
  {
    assert attempts[..i + 1][..i] == attempts[..i];
  }

  lemma {:induction false} NoEndYet(c: seq<Attempt>)
    requires forall i :: 0 <= i < |c| ==> !Ends(c[i])
    ensures FirstEnd(c) == |c|
  {
    if c != [] {
      NoEndYet(c[1..]);
    }
  }

  lemma {:induction false} CountedConcat(a: seq<Attempt>, b: seq<Attempt>)
    ensures Counted(a + b) == Counted(a) + Counted(b)
  {
    if b == [] {
      assert a + b == a;
    } else {
      assert (a + b)[..|a + b| - 1] == a + b[..|b| - 1];
      CountedConcat(a, b[..|b| - 1]);
    }
  }

  lemma {:induction false} FirstEndIn(c: seq<Attempt>, k: nat)
    requires k < |c| && Ends(c[k]) && forall i :: 0 <= i < k ==> !Ends(c[i])
    ensures FirstEnd(c) == k
  {
    if k > 0 {
      FirstEndIn(c[1..], k - 1);
    }
  }

  // The submission at i ends the scan: what follows plays no part.
  lemma EndFound(attempts: seq<Attempt>, i: nat)
    requires i < |attempts| && Counts(attempts[i]) && Ends(attempts[i])
    requires FirstEnd(Counted(attempts[..i])) == |Counted(attempts[..i])|
    ensures var c := Counted(attempts[..i]);
            && |Counted(attempts)| > |c| == FirstEnd(Counted(attempts))
            && Counted(attempts)[..|c|] == c && Counted(attempts)[|c|] == attempts[i]
  {
    CountedStep(attempts, i);
    assert attempts == attempts[..i + 1] + attempts[i + 1..];
    CountedConcat(attempts[..i + 1], attempts[i + 1..]);
    var c := Counted(attempts);
    var k := |Counted(attempts[..i])|;
    assert forall j :: 0 <= j < k ==> c[j] == Counted(attempts[..i])[j];
    FirstEndIn(c, k);
  }

  /** A problem is shown as solved exactly if some counted submission is Accepted, none before it ends
      the scan, and it is not frozen; the cell then has its time and one more attempt than submissions
      counted before it. */
  lemma SolvedMeans(attempts: seq<Attempt>, frozen: bool, freeze: int)
    ensures var cell := ICPCCell(attempts, frozen, freeze);
            var c := Counted(attempts);
            cell.verdict == ACCEPTED <==>
              exists k :: 0 <= k < |c| && IsFirstAccepted(c, k) && !(frozen && VerdictFrozen(freeze, c[k].time)) &&
                          cell.attempt == k + 1 && cell.time == c[k].time
  {
    var c := Counted(attempts);
    var cell := ICPCCell(attempts, frozen, freeze);
    if cell.verdict == ACCEPTED {
      var k := FirstEnd(c);
      assert k < |c|;
      assert IsFirstAccepted(c, k);
    }
    if k :| 0 <= k < |c| && IsFirstAccepted(c, k) && !(frozen && VerdictFrozen(freeze, c[k].time)) {
      FirstEndIn(c, k);
    }
  }

  /** What counts: a submission whose time has come, without report or with one that is not a compilation
      error, which has code 3. Accepted has code 1. */
  lemma CountedMeans(attempts: seq<Attempt>, a: Attempt)
    ensures a in Counted(attempts) <==>
              && a in attempts && a.shown
              && (a.report.Pending? || (a.report.Judged? && a.report.verdict != 3))
    ensures Ends(a) <==> a.report.Pending? || (a.report.Judged? && a.report.verdict == 1)
  {
    if attempts != [] {
      var n := |attempts| - 1;
      CountedMeans(attempts[..n], a);
      assert attempts == attempts[..n] + [attempts[n]];
    }
  }

  /** The cell is about the counted submissions up to the first that has no report or is accepted, and
      shows the last of these: its time, and its verdict unless it is frozen or has no report. */
  lemma CellMeans(attempts: seq<Attempt>, frozen: bool, freeze: int)
    ensures var cell, c := ICPCCell(attempts, frozen, freeze), Counted(attempts);
            var n := cell.attempt;
            && 0 <= n <= |c| && (n == 0 ==> c == [] && cell.verdict == 0)
            && (forall i :: 0 <= i < n - 1 ==> c[i].report.Judged? && c[i].report.verdict != 1)
            && (0 < n < |c| ==> c[n - 1].report.Pending? || c[n - 1].report.verdict == 1)
            && (n > 0 && c[n - 1].report.Pending? ==> cell.verdict == 0)
            && (n > 0 && c[n - 1].report.Judged? ==>
                  && cell.time == c[n - 1].time
                  && cell.verdict == if frozen && freeze != 0 && cell.time >= freeze then 0 else c[n - 1].report.verdict)
  {
    var c := Counted(attempts);
    var k := FirstEnd(c);
    assert forall i :: 0 <= i < k ==> Counts(c[i]) && !Ends(c[i]);
    assert k < |c| ==> Counts(c[k]);
  }

  predicate IsFirstAccepted(c: seq<Attempt>, k: nat)
    requires k < |c|
  {
    c[k].report.Judged? && c[k].report.verdict == ACCEPTED && forall i :: 0 <= i < k ==> !Ends(c[i])
  }

  // ---- IOI ----

  function IOIStep(cell: Cell, a: Attempt, frozen: bool, freeze: int): Cell
    requires a.report.Judged?
  {
    var counted := cell.(attempt := cell.attempt + 1, time := a.time);
    if frozen && VerdictFrozen(freeze, a.time) then counted.(verdict := NO_VERDICT)
    else
      var first := if counted.verdict == NO_VERDICT then counted.(verdict := a.report.verdict) else counted;
      if a.report.points.Some? && first.points < a.report.points.value
      then first.(verdict := a.report.verdict, points := a.report.points.value)
      else first
  }

  // The counted submissions before the first one without report.
  function BeforePending(c: seq<Attempt>): (out: seq<Attempt>)
    ensures |out| <= |c| && out == c[..|out|]
    ensures forall i :: 0 <= i < |out| ==> !out[i].report.Pending?
    ensures |out| < |c| ==> c[|out|].report.Pending?
  {
    if c == [] || c[0].report.Pending? then [] else [c[0]] + BeforePending(c[1..])
  }

  function IOIFold(c: seq<Attempt>, frozen: bool, freeze: int): Cell
    requires forall i :: 0 <= i < |c| ==> c[i].report.Judged?
  {
    if c == [] then EMPTY else IOIStep(IOIFold(c[..|c| - 1], frozen, freeze), c[|c| - 1], frozen, freeze)
  }

  function IOICell(attempts: seq<Attempt>, frozen: bool, freeze: int): Cell {
    var c := Counted(attempts);
    var judged := BeforePending(c);
    var cell := IOIFold(judged, frozen, freeze);
    if |judged| < |c| then cell.(attempt := cell.attempt + 1, verdict := NO_VERDICT) else cell
  }

  lemma {:induction false} BeforePendingIn(c: seq<Attempt>, k: nat)
    requires k < |c| && c[k].report.Pending? && forall i :: 0 <= i < k ==> !c[i].report.Pending?
    ensures BeforePending(c) == c[..k]
  {
    if k > 0 {
      BeforePendingIn(c[1..], k - 1);
      assert c[..k] == [c[0]] + c[1..][..k - 1];
    }
  }

  lemma {:induction false} NonePending(c: seq<Attempt>)
    requires forall i :: 0 <= i < |c| ==> !c[i].report.Pending?
    ensures BeforePending(c) == c
  {
    if c != [] {
      NonePending(c[1..]);
    }
  }

  // The rest of the loop body, for a submission that counts and has a report.
  method CountIOI(before: Cell, a: Attempt, frozen: bool, freeze: int) returns (cell: Cell)
    requires a.report.Judged?
    ensures cell == IOIStep(before, a, frozen, freeze)
  {
    cell := before.(attempt := before.attempt + 1, time := a.time);
    if frozen && VerdictFrozen(freeze, cell.time) {
      cell := cell.(verdict := NO_VERDICT);
    } else {
      if cell.verdict == NO_VERDICT {
        cell := cell.(verdict := a.report.verdict);
      }
      if a.report.points.Some? && cell.points < a.report.points.value {
        cell := cell.(verdict := a.report.verdict, points := a.report.points.value);
      }
    }
  }

  // What has been scanned without meeting a submission that has no report.
  ghost predicate ScannedIOI(attempts: seq<Attempt>, i: nat, frozen: bool, freeze: int, cell: Cell)
    requires i <= |attempts|
  {
    var c := Counted(attempts[..i]);
    (forall j :: 0 <= j < |c| ==> c[j].report.Judged?) && cell == IOIFold(c, frozen, freeze)
  }

  lemma PendingFound(attempts: seq<Attempt>, i: nat, frozen: bool, freeze: int, cell: Cell)
    requires i < |attempts| && ScannedIOI(attempts, i, frozen, freeze, cell)
    requires Counts(attempts[i]) && attempts[i].report.Pending?
    ensures IOICell(attempts, frozen, freeze) == cell.(attempt := cell.attempt + 1, verdict := NO_VERDICT)
  {
    var c, all := Counted(attempts[..i]), Counted(attempts);
    CountedStep(attempts, i);
    assert attempts == attempts[..i + 1] + attempts[i + 1..];
    CountedConcat(attempts[..i + 1], attempts[i + 1..]);
    assert forall j :: 0 <= j < |c| ==> all[j] == c[j];
    BeforePendingIn(all, |c|);
    assert all[..|c|] == c;
  }

  lemma JudgedFound(attempts: seq<Attempt>, i: nat, frozen: bool, freeze: int, cell: Cell)
    requires i < |attempts| && ScannedIOI(attempts, i, frozen, freeze, cell)
    ensures !Counts(attempts[i]) ==> ScannedIOI(attempts, i + 1, frozen, freeze, cell)
    ensures Counts(attempts[i]) && attempts[i].report.Judged? ==>
              ScannedIOI(attempts, i + 1, frozen, freeze, IOIStep(cell, attempts[i], frozen, freeze))
  {
    CountedStep(attempts, i);
    var c := Counted(attempts[..i]);
    assert (c + [attempts[i]])[..|c|] == c;
  }

  lemma ScannedAllIOI(attempts: seq<Attempt>, frozen: bool, freeze: int, cell: Cell)
    requires ScannedIOI(attempts, |attempts|, frozen, freeze, cell)
    ensures IOICell(attempts, frozen, freeze) == cell
  {
    assert attempts[..|attempts|] == attempts;
    NonePending(Counted(attempts));
  }

  method ScanIOI(attempts: seq<Attempt>, frozen: bool, freeze: int) returns (cell: Cell)
    ensures cell == IOICell(attempts, frozen, freeze)
  {
    cell := EMPTY;
    for i := 0 to |attempts|
      invariant ScannedIOI(attempts, i, frozen, freeze, cell)
    {
      hide ScannedIOI, IOICell, IOIStep;
      JudgedFound(attempts, i, frozen, freeze, cell);
      var a := attempts[i];
      if !a.shown {
        continue;
      }
      match a.report
      case Unreadable => continue;
      case Pending =>
        PendingFound(attempts, i, frozen, freeze, cell);
        cell := cell.(attempt := cell.attempt + 1, verdict := NO_VERDICT);
        return;
      case Judged(verdict, _) =>
        if verdict == COMPILATION_ERROR {
          continue;
        }
        cell := CountIOI(cell, a, frozen, freeze);
    }
    ScannedAllIOI(attempts, frozen, freeze, cell);
  }

  // A submission whose points are shown.
  predicate Scores(a: Attempt, frozen: bool, freeze: int) {
    a.report.Judged? && a.report.points.Some? && !(frozen && freeze != 0 && a.time >= freeze)
  }

  lemma {:induction false} FoldPoints(c: seq<Attempt>, frozen: bool, freeze: int)
    requires forall i :: 0 <= i < |c| ==> c[i].report.Judged?
    ensures var p := IOIFold(c, frozen, freeze).points;
            && p >= 0.0
            && (forall i :: 0 <= i < |c| && Scores(c[i], frozen, freeze) ==> c[i].report.points.value <= p)
            && (p > 0.0 ==> exists i :: 0 <= i < |c| && Scores(c[i], frozen, freeze) && c[i].report.points.value == p)
  {
    if c != [] {
      var front := c[..|c| - 1];
      FoldPoints(front, frozen, freeze);
      var p := IOIFold(front, frozen, freeze).points;
      if i :| 0 <= i < |front| && Scores(front[i], frozen, freeze) && front[i].report.points.value == p {
        assert Scores(c[i], frozen, freeze);
      }
    }
  }

  /** A problem adds its best shown points before the first submission without report, or nothing. */
  ghost predicate AddsPoints(p: real, a: seq<Attempt>, frozen: bool, freeze: int) {
    var c := BeforePending(Counted(a));
    && p >= 0.0
    && (forall i :: 0 <= i < |c| && Scores(c[i], frozen, freeze) ==> c[i].report.points.value <= p)
    && (p > 0.0 ==> exists i :: 0 <= i < |c| && Scores(c[i], frozen, freeze) && c[i].report.points.value == p)
  }

  /** The points of a cell are the best shown ones. */
  lemma BestPoints(attempts: seq<Attempt>, frozen: bool, freeze: int)
    ensures AddsPoints(IOICell(attempts, frozen, freeze).points, attempts, frozen, freeze)
  {
    FoldPoints(BeforePending(Counted(attempts)), frozen, freeze);
  }

  /** The attempts of a cell are the judged submissions, and the first one without report if there is one,
      which also leaves the cell without verdict; so does a frozen last submission. */
  lemma IOICellMeans(attempts: seq<Attempt>, frozen: bool, freeze: int)
    ensures var cell, all := IOICell(attempts, frozen, freeze), Counted(attempts);
            var c := BeforePending(all);
            && cell.attempt == (if |c| < |all| then |c| + 1 else |c|)
            && (|c| < |all| ==> cell.verdict == 0)
            && (c == [] ==> cell.verdict == 0 && cell.time == 0)
            && (c != [] ==> cell.time == c[|c| - 1].time)
            && (c != [] && frozen && freeze != 0 && cell.time >= freeze ==> cell.verdict == 0)
  {
    FoldCounts(BeforePending(Counted(attempts)), frozen, freeze);
  }

  lemma {:induction false} FoldCounts(c: seq<Attempt>, frozen: bool, freeze: int)
    requires forall i :: 0 <= i < |c| ==> c[i].report.Judged?
    ensures var cell := IOIFold(c, frozen, freeze);
            && cell.attempt == |c|
            && (c == [] ==> cell.verdict == 0 && cell.time == 0)
            && (c != [] ==> cell.time == c[|c| - 1].time)
            && (c != [] && frozen && freeze != 0 && cell.time >= freeze ==> cell.verdict == 0)
  {
    if c != [] {
      FoldCounts(c[..|c| - 1], frozen, freeze);
    }
  }

  predicate IsBest(c: seq<Attempt>, i: nat)
    requires i < |c| && forall k :: 0 <= k < |c| ==> c[k].report.Judged?
  {
    && c[i].report.points.Some? && c[i].report.points.value > 0.0
    && (forall k :: 0 <= k < i && c[k].report.points.Some? ==> c[k].report.points.value < c[i].report.points.value)
    && (forall k :: i < k < |c| && c[k].report.points.Some? ==> c[k].report.points.value <= c[i].report.points.value)
  }

  /** Without a freeze the verdict is that of the first submission with the best points, or of the first
      of all if none has points. */
  lemma {:induction false} VerdictOfBest(c: seq<Attempt>, freeze: int)
    requires c != [] && forall i :: 0 <= i < |c| ==> c[i].report.Judged? && c[i].report.verdict != 0
    ensures var cell := IOIFold(c, false, freeze);
            if cell.points == 0.0 then cell.verdict == c[0].report.verdict
            else exists i :: 0 <= i < |c| && IsBest(c, i) &&
                   c[i].report.points.value == cell.points && c[i].report.verdict == cell.verdict
  {
    var n := |c| - 1;
    var front, last := c[..n], c[n];
    FoldPoints(front, false, freeze);
    FoldPoints(c, false, freeze);
    var was, cell := IOIFold(front, false, freeze), IOIFold(c, false, freeze);
    if n > 0 {
      VerdictOfBest(front, freeze);
      if was.points > 0.0 && cell.points == was.points {
        var i :| 0 <= i < |front| && IsBest(front, i) &&
          front[i].report.points.value == was.points && front[i].report.verdict == was.verdict;
        assert Scores(last, false, freeze) ==> last.report.points.value <= cell.points;
        assert IsBest(c, i);
      }
    }
    if cell.points != 0.0 && (n == 0 || cell.points != was.points) {
      forall k | 0 <= k < n && c[k].report.points.Some?
        ensures c[k].report.points.value < last.report.points.value
      {
        assert Scores(front[k], false, freeze);
      }
      assert IsBest(c, n);
    }
  }
}
