/** Verdict, points and usage of a judged solution (internal/invoker/judge_solution.go). */
module Judging {
  import opened Options

  const ACCEPTED := 1
  const REJECTED := 2
  const PARTIALLY_ACCEPTED := 9

  datatype TestReport = TestReport(verdict: int, points: Option<real>, time: int, memory: int)

  /** What came of running a test: an error, or the verdict of the run and that of the checker. */
  datatype Run = Breaks | Runs(executed: int, checked: int, time: int, memory: int)
  datatype Test = Test(group: string, points: real, run: Run)

  datatype Policy = EachTest | CompleteGroup | Unsupported
  datatype Group = Group(name: string, policy: Policy)

  /** Tests and groups may turn out unreadable. */
  datatype TestSet = TestSet(tests: Option<seq<Test>>, groups: Option<seq<Group>>)

  // ---- One test ----

  /** The checker is asked only about accepted runs, and points are for what it accepts. */
  function RunTest(t: Test): (r: Option<TestReport>)
    ensures r.Some? ==> (r.value.points.Some? ==> r.value.verdict == ACCEPTED && r.value.points.value > 0.0)
  {
    match t.run
    case Breaks => None
    case Runs(executed, checked, time, memory) =>
      if executed != ACCEPTED then Some(TestReport(executed, None, time, memory))
      else Some(TestReport(checked, if checked == ACCEPTED && t.points > 0.0 then Some(t.points) else None, time, memory))
  }

  /** A test fails to run, gets the verdict of its run, or, if the run was accepted (code 1), that of the
      checker; it has its points exactly if that is accepted and they are positive. */
  lemma RunTestMeans(t: Test)
    ensures t.run.Breaks? <==> RunTest(t).None?
    ensures t.run.Runs? ==>
              var r := RunTest(t).value;
              && r.time == t.run.time && r.memory == t.run.memory
              && (t.run.executed != 1 ==> r.verdict == t.run.executed)
              && (t.run.executed == 1 ==> r.verdict == t.run.checked)
              && (r.points.Some? <==> t.run.executed == 1 && t.run.checked == 1 && t.points > 0.0)
              && (r.points.Some? ==> r.points.value == t.points)
  {
  }

  function Plain(r: Option<TestReport>): Option<TestReport> {
    if r.None? then None else Some(r.value.(points := None))
  }

  // ---- Judging without points: the declared result ----

  function ItemsOf(tests: seq<Test>): (r: seq<Option<TestReport>>)
    ensures |r| == |tests|
  {
    seq(|tests|, i requires 0 <= i < |tests| => Plain(RunTest(tests[i])))
  }

  function OwnItems(s: TestSet): seq<Option<TestReport>> {
    if s.tests.None? then [None] else ItemsOf(s.tests.value)
  }

  /** All tests one after another; a set that cannot be read stands as one that fails. */
  function Items(sets: seq<TestSet>): seq<Option<TestReport>> {
    if sets == [] then []
    else
      Items(sets[..|sets| - 1]) +
      OwnItems(sets[|sets| - 1])
  }

  ghost predicate AllAccepted(tests: seq<TestReport>) {
    forall i :: 0 <= i < |tests| ==> tests[i].verdict == ACCEPTED
  }

  ghost predicate IsPrefix(tests: seq<TestReport>, items: seq<Option<TestReport>>) {
    |tests| <= |items| && forall i :: 0 <= i < |tests| ==> items[i] == Some(tests[i])
  }

  /** The tests up to the first that is not accepted, and its verdict; all of them if there is none. */
  ghost predicate StopsRight(items: seq<Option<TestReport>>, tests: seq<TestReport>, verdict: int) {
    && IsPrefix(tests, items)
    && if AllAccepted(tests) then |tests| == |items| && verdict == ACCEPTED
       else AllAccepted(tests[..|tests| - 1]) && verdict == tests[|tests| - 1].verdict
  }

  /** A test fails to run before any test is not accepted. */
  ghost predicate FailsFirst(items: seq<Option<TestReport>>) {
    exists n :: 0 <= n < |items| && items[n].None? &&
      forall i :: 0 <= i < n ==> items[i].Some? && items[i].value.verdict == ACCEPTED
  }

  /** The two outcomes exclude each other, and the result is the only one of its kind. */
  lemma StopsOnce(items: seq<Option<TestReport>>, tests: seq<TestReport>, verdict: int)
    requires StopsRight(items, tests, verdict)
    ensures !FailsFirst(items)
    ensures forall tests', verdict' :: StopsRight(items, tests', verdict') ==> tests' == tests && verdict' == verdict
  {
    forall tests', verdict' | StopsRight(items, tests', verdict')
      ensures tests' == tests && verdict' == verdict
    {
      NotLonger(items, tests, verdict, tests', verdict');
      NotLonger(items, tests', verdict', tests, verdict);
      assert forall i :: 0 <= i < |tests| ==> items[i] == Some(tests[i]) && items[i] == Some(tests'[i]);
    }
  }

  lemma NotLonger(
      items: seq<Option<TestReport>>, a: seq<TestReport>, v: int, b: seq<TestReport>, w: int)
    requires StopsRight(items, a, v) && StopsRight(items, b, w)
    ensures |b| <= |a|
  {
  }

  // ---- Judging with points: the declared result ----

  function PointsOf(t: TestReport): real {
    if t.points.Some? then t.points.value else 0.0
  }

  /** The points of the tests whose group is one of `listed`. */
  ghost function ListedSum(tests: seq<TestReport>, names: seq<string>, listed: set<string>): real
    requires |tests| == |names|
  {
    if tests == [] then 0.0
    else
      var n := |tests| - 1;
      ListedSum(tests[..n], names[..n], listed) + if names[n] in listed then PointsOf(tests[n]) else 0.0
  }

  ghost predicate GroupAccepted(tests: seq<TestReport>, names: seq<string>, name: string)
    requires |tests| == |names|
  {
    forall j :: 0 <= j < |tests| && names[j] == name ==> tests[j].verdict == ACCEPTED
  }

  /** A test loses its points when its group has to be complete and is not. */
  ghost predicate Voided(tests: seq<TestReport>, names: seq<string>, groups: seq<Group>, name: string)
    requires |tests| == |names|
  {
    Group(name, CompleteGroup) in groups && !GroupAccepted(tests, names, name)
  }

  ghost function Final(tests: seq<TestReport>, names: seq<string>, groups: seq<Group>): (r: seq<TestReport>)
    requires |tests| == |names|
    ensures |r| == |tests|
  {
    seq(|tests|, i requires 0 <= i < |tests| =>
      if Voided(tests, names, groups, names[i]) then tests[i].(points := None) else tests[i])
  }

  function NamesOf(groups: seq<Group>): set<string> {
    set g | g in groups :: g.name
  }

  ghost predicate DistinctGroups(groups: seq<Group>) {
    forall i, j :: 0 <= i < j < |groups| ==> groups[i].name != groups[j].name
  }

  lemma {:induction false} SumSplits(tests: seq<TestReport>, names: seq<string>, a: set<string>, b: set<string>)
    requires |tests| == |names| && a !! b
    ensures ListedSum(tests, names, a + b) == ListedSum(tests, names, a) + ListedSum(tests, names, b)
  {
    if tests != [] {
      SumSplits(tests[..|tests| - 1], names[..|tests| - 1], a, b);
    }
  }

  lemma {:induction false} SumSame(
      tests: seq<TestReport>, tests': seq<TestReport>, names: seq<string>, a: set<string>)
    requires |tests| == |tests'| == |names|
    requires forall i :: 0 <= i < |tests| && names[i] in a ==> PointsOf(tests[i]) == PointsOf(tests'[i])
    ensures ListedSum(tests, names, a) == ListedSum(tests', names, a)
  {
    if tests != [] {
      SumSame(tests[..|tests| - 1], tests'[..|tests| - 1], names[..|tests| - 1], a);
    }
  }

  lemma {:induction false} SumOfNone(tests: seq<TestReport>, names: seq<string>, a: set<string>)
    requires |tests| == |names|
    requires forall i :: 0 <= i < |tests| && names[i] in a ==> PointsOf(tests[i]) == 0.0
    ensures ListedSum(tests, names, a) == 0.0
  {
    if tests != [] {
      SumOfNone(tests[..|tests| - 1], names[..|tests| - 1], a);
    }
  }

  /** One more group: its tests count, or lose their points. */
  lemma GroupCounts(tests: seq<TestReport>, names: seq<string>, groups: seq<Group>, g: Group)
    requires |tests| == |names| && g.name !in NamesOf(groups)
    ensures var void := g.policy.CompleteGroup? && !GroupAccepted(tests, names, g.name);
            && ListedSum(Final(tests, names, groups + [g]), names, NamesOf(groups + [g])) ==
               ListedSum(Final(tests, names, groups), names, NamesOf(groups)) +
               (if void then 0.0 else ListedSum(Final(tests, names, groups), names, {g.name}))
            && forall i :: 0 <= i < |tests| ==>
                 Final(tests, names, groups + [g])[i] ==
                   if void && names[i] == g.name then Final(tests, names, groups)[i].(points := None)
                   else Final(tests, names, groups)[i]
  {
    var was, now, done := Final(tests, names, groups), Final(tests, names, groups + [g]), NamesOf(groups);
    assert NamesOf(groups + [g]) == done + {g.name};
    assert Group(g.name, CompleteGroup) !in groups;
    forall i | 0 <= i < |tests|
      ensures names[i] != g.name ==> now[i] == was[i]
      ensures names[i] == g.name ==> was[i] == tests[i]
    {
      assert Group(names[i], CompleteGroup) in groups + [g] <==>
             Group(names[i], CompleteGroup) in groups || Group(names[i], CompleteGroup) == g;
    }
    SumSplits(now, names, done, {g.name});
    SumSame(now, was, names, done);
    if g.policy.CompleteGroup? && !GroupAccepted(tests, names, g.name) {
      assert Group(g.name, CompleteGroup) in groups + [g];
      SumOfNone(now, names, {g.name});
    } else {
      SumSame(now, was, names, {g.name});
    }
  }

  lemma {:induction false} NothingListed(tests: seq<TestReport>, names: seq<string>)
    requires |tests| == |names|
    ensures ListedSum(tests, names, {}) == 0.0
  {
    if tests != [] {
      NothingListed(tests[..|tests| - 1], names[..|tests| - 1]);
    }
  }

  // ---- Positions of the tests of a group ----

  function Positions(names: seq<string>, base: nat, name: string): seq<nat> {
    if names == [] then []
    else Positions(names[..|names| - 1], base, name) +
         if names[|names| - 1] == name then [base + |names| - 1] else []
  }

  lemma {:induction false} PositionsAre(names: seq<string>, base: nat, name: string)
    ensures forall i: nat :: i in Positions(names, base, name) <==>
              base <= i < base + |names| && names[i - base] == name
  {
    if names != [] {
      PositionsAre(names[..|names| - 1], base, name);
    }
  }

  predicate Within(at: seq<nat>, n: nat) {
    forall j :: 0 <= j < |at| ==> at[j] < n
  }

  function SumAt(tests: seq<TestReport>, at: seq<nat>): real
    requires Within(at, |tests|)
  {
    if at == [] then 0.0
    else
      SumAt(tests, at[..|at| - 1]) + PointsOf(tests[at[|at| - 1]])
  }

  lemma SumAtSnoc(tests: seq<TestReport>, at: seq<nat>, i: nat)
    requires Within(at, |tests|) && i < |tests|
    ensures Within(at + [i], |tests|) && SumAt(tests, at + [i]) == SumAt(tests, at) + PointsOf(tests[i])
  {
    assert (at + [i])[..|at|] == at;
  }

  lemma {:induction false} SumAtPositions(tests: seq<TestReport>, names: seq<string>, base: nat, name: string)
    requires base + |names| <= |tests|
    ensures Within(Positions(names, base, name), |tests|)
    ensures SumAt(tests, Positions(names, base, name)) == ListedSum(tests[base..base + |names|], names, {name})
  {
    hide SumAt, PointsOf, ListedSum, Positions, Within;
    if names == [] {
      NoPositions(tests, base, name);
    } else {
      var n := |names| - 1;
      SumAtPositions(tests, names[..n], base, name);
      var part := tests[base..base + |names|];
      assert part[..n] == tests[base..base + n];
      assert part[n] == tests[base + n];
      LastListed(part, names, name, base);
      if names[n] == name {
        SumAtSnoc(tests, Positions(names[..n], base, name), base + n);
      }
    }
  }

  lemma LastListed(part: seq<TestReport>, names: seq<string>, name: string, base: nat)
    requires |part| == |names| > 0
    ensures var n := |names| - 1;
            && Positions(names, base, name) ==
               (if names[n] == name then Positions(names[..n], base, name) + [base + n] else Positions(names[..n], base, name))
            && ListedSum(part, names, {name}) ==
               ListedSum(part[..n], names[..n], {name}) + if names[n] == name then PointsOf(part[n]) else 0.0
  {
  }

  lemma NoPositions(tests: seq<TestReport>, base: nat, name: string)
    ensures Within(Positions([], base, name), |tests|) && SumAt(tests, Positions([], base, name)) == 0.0
    ensures ListedSum([], [], {name}) == 0.0
  {
  }

  // ---- A test set with points ----

  function GroupNames(tests: seq<Test>): (r: seq<string>)
    ensures |r| == |tests|
  {
    seq(|tests|, i requires 0 <= i < |tests| => tests[i].group)
  }

  ghost predicate AllRun(tests: seq<Test>) {
    forall i :: 0 <= i < |tests| ==> RunTest(tests[i]).Some?
  }

  ghost function Reports(tests: seq<Test>): (r: seq<TestReport>)
    requires AllRun(tests)
    ensures |r| == |tests|
  {
    seq(|tests|, i requires 0 <= i < |tests| => RunTest(tests[i]).value)
  }

  ghost predicate Supported(groups: seq<Group>) {
    forall i :: 0 <= i < |groups| ==> !groups[i].policy.Unsupported?
  }

  ghost predicate Judges(set_: TestSet) {
    set_.tests.Some? && AllRun(set_.tests.value) && set_.groups.Some? && Supported(set_.groups.value)
  }

  /** The tests of all sets, some of them without their points, and the points that count. */
  ghost function FinalTests(sets: seq<TestSet>): seq<TestReport>
    requires forall i :: 0 <= i < |sets| ==> Judges(sets[i])
  {
    if sets == [] then []
    else
      var s := sets[|sets| - 1];
      assert Judges(s);
      FinalTests(sets[..|sets| - 1]) + Final(Reports(s.tests.value), GroupNames(s.tests.value), s.groups.value)
  }

  ghost function FinalPoints(sets: seq<TestSet>): real
    requires forall i :: 0 <= i < |sets| ==> Judges(sets[i])
  {
    if sets == [] then 0.0
    else
      var s := sets[|sets| - 1];
      assert Judges(s);
      var names := GroupNames(s.tests.value);
      FinalPoints(sets[..|sets| - 1]) +
      ListedSum(Final(Reports(s.tests.value), names, s.groups.value), names, NamesOf(s.groups.value))
  }

  function Lookup0(m: map<string, seq<nat>>, name: string): seq<nat> {
    if name in m then m[name] else []
  }

  /** The largest value, at least zero. */
  ghost predicate IsUsage(tests: seq<TestReport>, time: int, memory: int) {
    && time >= 0 && memory >= 0
    && (forall i :: 0 <= i < |tests| ==> tests[i].time <= time && tests[i].memory <= memory)
    && (time == 0 || exists i :: 0 <= i < |tests| && tests[i].time == time)
    && (memory == 0 || exists i :: 0 <= i < |tests| && tests[i].memory == memory)
  }

  ghost predicate SameButPoints(a: seq<TestReport>, b: seq<TestReport>) {
    |a| == |b| && forall i :: 0 <= i < |a| ==> a[i].(points := None) == b[i].(points := None)
  }

  lemma NoGroupsYet(tests: seq<TestReport>, names: seq<string>, gs: seq<Group>)
    requires |tests| == |names|
    ensures Final(tests, names, gs[..0]) == tests
    ensures ListedSum(tests, names, NamesOf(gs[..0])) == 0.0
  {
    assert forall i :: 0 <= i < |names| ==> !Voided(tests, names, gs[..0], names[i]);
    assert NamesOf(gs[..0]) == {};
    NothingListed(tests, names);
  }

  lemma NewName(gs: seq<Group>, k: nat)
    requires k < |gs| && DistinctGroups(gs)
    ensures gs[k].name !in NamesOf(gs[..k])
  {
  }

  lemma VerdictOfGroup(was: seq<TestReport>, now: seq<TestReport>, names: seq<string>, base: nat, name: string)
    requires |now| == base + |names| && |was| == |names| && SameButPoints(now[base..], was)
    ensures GroupAccepted(was, names, name) <==>
            var at := Positions(names, base, name);
            forall j :: 0 <= j < |at| ==> at[j] < |now| && now[at[j]].verdict == ACCEPTED
  {
    hide Positions;
    PositionsAre(names, base, name);
    var at := Positions(names, base, name);
    forall i | 0 <= i < |was|
      ensures now[base + i].verdict == was[i].verdict
    {
      assert now[base..][i].(points := None) == was[i].(points := None);
    }
    forall j | 0 <= j < |at|
      ensures base <= at[j] < |now| && names[at[j] - base] == name
    {
      assert at[j] in at;
    }
    forall i | 0 <= i < |names| && names[i] == name
      ensures exists j :: 0 <= j < |at| && at[j] == base + i
    {
      assert base + i in at;
    }
    if forall j :: 0 <= j < |at| ==> at[j] < |now| && now[at[j]].verdict == ACCEPTED {
      forall i | 0 <= i < |names| && names[i] == name
        ensures was[i].verdict == ACCEPTED
      {
        var j :| 0 <= j < |at| && at[j] == base + i;
      }
    } else {
      var j :| 0 <= j < |at| && now[at[j]].verdict != ACCEPTED;
      assert was[at[j] - base].verdict != ACCEPTED;
    }
  }

  lemma VoidedTail(was: seq<TestReport>, now: seq<TestReport>, names: seq<string>, base: nat, name: string)
    requires base + |names| == |was| == |now|
    requires forall i :: 0 <= i < |now| ==>
               now[i] == if i in Positions(names, base, name) then was[i].(points := None) else was[i]
    ensures SameButPoints(now, was) && now[..base] == was[..base]
    ensures forall i :: 0 <= i < |names| ==>
              now[base..][i] == if names[i] == name then was[base..][i].(points := None) else was[base..][i]
  {
    PositionsAre(names, base, name);
  }

  // ---- Steps of the loop over the tests ----

  lemma ItemsOfNext(sets: seq<TestSet>, i: nat)
    requires i < |sets|
    ensures Items(sets[..i + 1]) == Items(sets[..i]) + OwnItems(sets[i])
  {
    assert sets[..i + 1][..i] == sets[..i];
  }

  lemma {:induction false} ItemsGrow(sets: seq<TestSet>, i: nat) returns (more: seq<Option<TestReport>>)
    requires i <= |sets|
    ensures Items(sets) == Items(sets[..i]) + more
    decreases |sets| - i
  {
    hide Items, OwnItems;
    if i == |sets| {
      assert sets[..i] == sets;
      more := [];
    } else {
      more := ItemsGrow(sets, i + 1);
      ItemsOfNext(sets, i);
      more := OwnItems(sets[i]) + more;
    }
  }

  /** Whatever comes after, a stop and a failure stay what they are. */
  lemma LaterItemsDoNotMatter(a: seq<Option<TestReport>>, b: seq<Option<TestReport>>, tests: seq<TestReport>, verdict: int)
    ensures StopsRight(a, tests, verdict) && !AllAccepted(tests) ==> StopsRight(a + b, tests, verdict)
    ensures FailsFirst(a) ==> FailsFirst(a + b)
  {
    if FailsFirst(a) {
      var n :| 0 <= n < |a| && a[n].None? &&
        forall i :: 0 <= i < n ==> a[i].Some? && a[i].value.verdict == ACCEPTED;
      assert (a + b)[n].None?;
    }
  }

  /** All tests so far were run and accepted. */
  ghost predicate PlainSoFar(items: seq<Option<TestReport>>, tests: seq<TestReport>) {
    |tests| == |items| && IsPrefix(tests, items) && AllAccepted(tests)
  }

  lemma OneMoreItem(items: seq<Option<TestReport>>, tests: seq<TestReport>, r: Option<TestReport>)
    requires PlainSoFar(items, tests)
    ensures r.None? ==> FailsFirst(items + [r])
    ensures r.Some? && r.value.verdict == ACCEPTED ==> PlainSoFar(items + [r], tests + [r.value])
    ensures r.Some? && r.value.verdict != ACCEPTED ==>
              StopsRight(items + [r], tests + [r.value], r.value.verdict) && !AllAccepted(tests + [r.value])
  {
    if r.None? {
      assert (items + [r])[|items|].None?;
      assert forall i :: 0 <= i < |items| ==> items[i] == Some(tests[i]);
    } else if r.value.verdict != ACCEPTED {
      assert (tests + [r.value])[|tests|] == r.value;
      assert (tests + [r.value])[..|tests|] == tests;
    }
  }

  function Total(tests: seq<TestReport>): int {
    if forall i :: 0 <= i < |tests| ==> tests[i].verdict == ACCEPTED then ACCEPTED else PARTIALLY_ACCEPTED
  }

  ghost predicate GroupsOf(groupTests: map<string, seq<nat>>, names: seq<string>, base: nat) {
    forall name :: Lookup0(groupTests, name) == Positions(names, base, name)
  }

  lemma OneMoreName(groupTests: map<string, seq<nat>>, names: seq<string>, base: nat, name: string)
    requires GroupsOf(groupTests, names, base)
    ensures GroupsOf(groupTests[name := Lookup0(groupTests, name) + [base + |names|]], names + [name], base)
  {
    var all := names + [name];
    assert all[..|all| - 1] == names;
    var next := groupTests[name := Lookup0(groupTests, name) + [base + |names|]];
    forall n
      ensures Lookup0(next, n) == Positions(all, base, n)
    {
      assert Lookup0(groupTests, n) == Positions(names, base, n);
    }
  }

  /** All sets so far were judged with points. */
  ghost predicate PointsSoFar(sets: seq<TestSet>, tests: seq<TestReport>, points: Option<real>, verdict: int) {
    && points.Some? && verdict == Total(tests)
    && (forall k :: 0 <= k < |sets| ==> Judges(sets[k]))
    && ((forall k :: 0 <= k < |sets| ==> DistinctGroups(sets[k].groups.value)) ==>
          tests == FinalTests(sets) && points.value == FinalPoints(sets))
  }

  lemma OneMoreSet(
      sets: seq<TestSet>, tests: seq<TestReport>, points: Option<real>, verdict: int, s: TestSet,
      ran: seq<TestReport>, tests': seq<TestReport>, points': Option<real>, verdict': int)
    requires PointsSoFar(sets, tests, points, verdict) && Judges(s) && points'.Some?
    requires ran == tests + Reports(s.tests.value) && verdict' == Total(ran)
    requires SameButPoints(tests', ran) && tests'[..|tests|] == ran[..|tests|]
    requires var names := GroupNames(s.tests.value);
             var final := Final(ran[|tests|..], names, s.groups.value);
             DistinctGroups(s.groups.value) ==>
               && tests'[|tests|..] == final
               && points'.value == points.value + ListedSum(final, names, NamesOf(s.groups.value))
    ensures PointsSoFar(sets + [s], tests', points', verdict')
  {
    hide DistinctGroups, Final, ListedSum, NamesOf, AllRun, Supported;
    var all, n := sets + [s], |sets|;
    assert all[n] == s && forall k :: 0 <= k < n ==> all[k] == sets[k];
    SameVerdicts(tests', ran, 0, 0);
    assert ran[|tests|..] == Reports(s.tests.value) && ran[..|tests|] == tests;
    assert tests' == tests'[..|tests|] + tests'[|tests|..];
    assert all[..n] == sets;
  }

  lemma NamesAt(groupTests: map<string, seq<nat>>, names: seq<string>, base: nat)
    requires GroupsOf(groupTests, names, base)
    ensures forall name :: Lookup0(groupTests, name) == Positions(names, base, name)
  {
  }

  lemma NoNames(base: nat)
    ensures GroupsOf(map[], [], base)
  {
  }

  lemma NothingYet()
    ensures IsUsage([], 0, 0) && Total([]) == ACCEPTED
    ensures PlainSoFar(Items([]), []) && PointsSoFar([], [], Some(0.0), ACCEPTED)
  {
  }

  lemma AllPlain(items: seq<Option<TestReport>>, tests: seq<TestReport>)
    requires PlainSoFar(items, tests)
    ensures StopsRight(items, tests, ACCEPTED)
  {
  }

  lemma {:induction false} AllJudged(sets: seq<TestSet>, tests: seq<TestReport>, points: Option<real>, verdict: int)
    requires PointsSoFar(sets, tests, points, verdict)
    ensures forall i :: 0 <= i < |sets| ==> Judges(sets[i])
    ensures points.Some? && verdict == if forall i :: 0 <= i < |tests| ==> tests[i].verdict == 1 then 1 else 9
    ensures (forall i :: 0 <= i < |sets| ==> DistinctGroups(sets[i].groups.value)) ==>
              tests == FinalTests(sets) && points.value == FinalPoints(sets)
  {
  }

  lemma TotalGrows(tests: seq<TestReport>, r: TestReport)
    ensures Total(tests + [r]) == if r.verdict == ACCEPTED then Total(tests) else PARTIALLY_ACCEPTED
  {
    var all := tests + [r];
    assert all[|tests|] == r && forall i :: 0 <= i < |tests| ==> all[i] == tests[i];
  }

  lemma SameVerdicts(now: seq<TestReport>, was: seq<TestReport>, time: int, memory: int)
    requires SameButPoints(now, was)
    ensures Total(now) == Total(was)
    ensures IsUsage(was, time, memory) ==> IsUsage(now, time, memory)
  {
    forall i | 0 <= i < |now|
      ensures now[i].verdict == was[i].verdict && now[i].time == was[i].time && now[i].memory == was[i].memory
    {
      assert now[i].(points := None) == was[i].(points := None);
    }
    if IsUsage(was, time, memory) {
      if time != 0 {
        var i :| 0 <= i < |was| && was[i].time == time;
        assert now[i].time == time;
      }
      if memory != 0 {
        var i :| 0 <= i < |was| && was[i].memory == memory;
        assert now[i].memory == memory;
      }
    }
  }

  class SolutionReport {
    var verdict: int
    var points: Option<real>
    var tests: seq<TestReport>
    var time: int
    var memory: int

    constructor ()
      ensures verdict == REJECTED && points.None? && tests == [] && time == 0 && memory == 0
    {
      verdict, points, tests, time, memory := REJECTED, None, [], 0, 0;
    }

    method GroupTotal(at: seq<nat>) returns (sum: real, verdict: int)
      requires Within(at, |tests|)
      ensures sum == SumAt(tests, at)
      ensures verdict == ACCEPTED <==> forall j :: 0 <= j < |at| ==> tests[at[j]].verdict == ACCEPTED
    {
      sum, verdict := 0.0, ACCEPTED;
      var j := 0;
      while j < |at|
        invariant 0 <= j <= |at|
        invariant sum == SumAt(tests, at[..j])
        invariant verdict == ACCEPTED <==> forall i :: 0 <= i < j ==> tests[at[i]].verdict == ACCEPTED
      {
        assert at[..j + 1][..j] == at[..j] && at[..j + 1][j] == at[j];
        var test := tests[at[j]];
        if test.points.Some? {
          sum := sum + test.points.value;
        }
        if test.verdict != ACCEPTED {
          verdict := test.verdict;
        }
        j := j + 1;
      }
      assert at[..j] == at;
    }

    method VoidPoints(at: seq<nat>)
      requires Within(at, |tests|)
      modifies this`tests
      ensures |tests| == |old(tests)|
      ensures forall i :: 0 <= i < |tests| ==>
                tests[i] == if i in at then old(tests[i]).(points := None) else old(tests[i])
    {
      var j := 0;
      while j < |at|
        invariant 0 <= j <= |at| && |tests| == |old(tests)|
        invariant forall i :: 0 <= i < |tests| ==>
                    tests[i] == if i in at[..j] then old(tests[i]).(points := None) else old(tests[i])
      {
        assert at[j] in at && at[..j + 1] == at[..j] + [at[j]];
        tests := tests[at[j] := tests[at[j]].(points := None)];
        j := j + 1;
      }
      assert at[..j] == at;
    }

    /** Adds the points of one group, or takes them from its tests. */
    method AddGroup(
        g: Group, at: seq<nat>, ghost was: seq<TestReport>, ghost base: nat, ghost names: seq<string>,
        ghost done: seq<Group>) returns (ok: bool)
      requires points.Some? && base + |names| == |tests| == base + |was|
      requires at == Positions(names, base, g.name) && SameButPoints(tests[base..], was)
      modifies this`tests, this`points
      ensures ok <==> !g.policy.Unsupported?
      ensures points.Some? && SameButPoints(tests, old(tests)) && tests[..base] == old(tests[..base])
      ensures ok && g.name !in NamesOf(done) && old(tests[base..]) == Final(was, names, done) ==>
                && tests[base..] == Final(was, names, done + [g])
                && points.value == old(points.value) - ListedSum(Final(was, names, done), names, NamesOf(done)) +
                     ListedSum(Final(was, names, done + [g]), names, NamesOf(done + [g]))
    {
      hide Final, ListedSum, GroupAccepted, Positions, SumAt, NamesOf;
      SumAtPositions(tests, names, base, g.name);
      assert tests[base..base + |names|] == tests[base..];
      if g.name !in NamesOf(done) {
        GroupCounts(was, names, done, g);
      }
      var groupPoints, groupVerdict := GroupTotal(at);
      assert groupVerdict == ACCEPTED <==> GroupAccepted(was, names, g.name) by {
        VerdictOfGroup(was, tests, names, base, g.name);
      }
      match g.policy {
        case EachTest =>
          points := Some(points.value + groupPoints);
        case CompleteGroup =>
          if groupVerdict == ACCEPTED {
            points := Some(points.value + groupPoints);
          } else {
            ghost var before := tests;
            VoidPoints(at);
            VoidedTail(before, tests, names, base, g.name);
          }
        case Unsupported =>
          return false;
      }
      return true;
    }

    /** Adds the points of a test set, whose tests are the last ones of the report. */
    method CalculateTestSetPoints(
        groups: Option<seq<Group>>, groupTests: map<string, seq<nat>>, ghost base: nat, ghost names: seq<string>)
      returns (ok: bool)
      requires points.Some? && base + |names| == |tests|
      requires forall name :: Lookup0(groupTests, name) == Positions(names, base, name)
      modifies this`tests, this`points
      ensures ok <==> groups.Some? && Supported(groups.value)
      ensures points.Some? && SameButPoints(tests, old(tests)) && tests[..base] == old(tests[..base])
      ensures ok && DistinctGroups(groups.value) ==>
                && tests[base..] == Final(old(tests[base..]), names, groups.value)
                && points.value == old(points.value) +
                     ListedSum(Final(old(tests[base..]), names, groups.value), names, NamesOf(groups.value))
    {
      hide ListedSum, Positions, NamesOf, DistinctGroups;
      if groups.None? {
        return false;
      }
      var gs, k := groups.value, 0;
      ghost var was := tests[base..];
      NoGroupsYet(was, names, gs);
      hide Final;
      while k < |gs|
        invariant 0 <= k <= |gs| && points.Some? && Supported(gs[..k])
        invariant SameButPoints(tests, old(tests)) && tests[..base] == old(tests[..base])
        invariant DistinctGroups(gs) ==>
                    && tests[base..] == Final(was, names, gs[..k])
                    && points.value == old(points.value) +
                         ListedSum(Final(was, names, gs[..k]), names, NamesOf(gs[..k]))
      {
        var g := gs[k];
        assert gs[..k + 1] == gs[..k] + [g];
        if DistinctGroups(gs) {
          NewName(gs, k);
        }
        var added := AddGroup(g, Lookup0(groupTests, g.name), was, base, names, gs[..k]);
        if !added {
          return false;
        }
        k := k + 1;
      }
      assert gs[..k] == gs;
      return true;
    }

    method Record(r: TestReport)
      requires IsUsage(tests, time, memory)
      modifies this`tests, this`time, this`memory
      ensures tests == old(tests) + [r] && IsUsage(tests, time, memory)
    {
      ghost var was, n := tests, |tests|;
      tests := tests + [r];
      assert tests[n] == r && forall i :: 0 <= i < n ==> tests[i] == was[i];
      if time < r.time {
        time := r.time;
      }
      if memory < r.memory {
        memory := r.memory;
      }
    }

    /** The tests of one set. `items` are the outcomes of the tests before, when points do not count. */
    method RunTests(ts: seq<Test>, enablePoints: bool, ghost items: seq<Option<TestReport>>)
      returns (ran: bool, stopped: bool, groupTests: map<string, seq<nat>>)
      requires IsUsage(tests, time, memory)
      requires enablePoints ==> verdict == Total(tests)
      requires !enablePoints ==> PlainSoFar(items, tests) && verdict == ACCEPTED
      modifies this`tests, this`time, this`memory, this`verdict
      ensures ran ==> IsUsage(tests, time, memory)
      ensures enablePoints ==> (ran <==> AllRun(ts)) && !stopped
      ensures enablePoints && ran ==>
                && tests == old(tests) + Reports(ts) && verdict == Total(tests)
                && GroupsOf(groupTests, GroupNames(ts), |old(tests)|)
      ensures !enablePoints && !ran ==> FailsFirst(items + ItemsOf(ts))
      ensures !enablePoints && ran && stopped ==>
                StopsRight(items + ItemsOf(ts), tests, verdict) && !AllAccepted(tests)
      ensures !enablePoints && ran && !stopped ==>
                PlainSoFar(items + ItemsOf(ts), tests) && verdict == ACCEPTED
    {
      hide IsUsage, PlainSoFar, FailsFirst, StopsRight, GroupsOf, Positions;
      groupTests := map[];
      NoNames(|tests|);
      assert items + ItemsOf(ts)[..0] == items;
      var j := 0;
      while j < |ts|
        invariant 0 <= j <= |ts| && IsUsage(tests, time, memory)
        invariant enablePoints ==>
                    && AllRun(ts[..j]) && tests == old(tests) + Reports(ts[..j]) && verdict == Total(tests)
                    && GroupsOf(groupTests, GroupNames(ts[..j]), |old(tests)|)
        invariant !enablePoints ==> PlainSoFar(items + ItemsOf(ts)[..j], tests) && verdict == ACCEPTED
      {
        var r := RunTest(ts[j]);
        ghost var front, rest := ItemsOf(ts)[..j], ItemsOf(ts)[j + 1..];
        assert items + ItemsOf(ts)[..j + 1] == items + front + [Plain(r)];
        assert items + front + [Plain(r)] + rest == items + ItemsOf(ts);
        if !enablePoints {
          OneMoreItem(items + front, tests, Plain(r));
          LaterItemsDoNotMatter(items + front + [Plain(r)], rest, tests + if r.Some? then [Plain(r).value] else [],
                                if r.Some? then r.value.verdict else 0);
        }
        if r.None? {
          return false, false, groupTests;
        }
        var testReport := if enablePoints then r.value else r.value.(points := None);
        if enablePoints {
          assert ts[..j + 1] == ts[..j] + [ts[j]];
          assert GroupNames(ts[..j + 1]) == GroupNames(ts[..j]) + [ts[j].group];
          OneMoreName(groupTests, GroupNames(ts[..j]), |old(tests)|, ts[j].group);
          assert Reports(ts[..j + 1]) == Reports(ts[..j]) + [r.value];
        }
        groupTests := groupTests[ts[j].group := Lookup0(groupTests, ts[j].group) + [|tests|]];
        ghost var was := tests;
        Record(testReport);
        TotalGrows(was, testReport);
        if testReport.verdict != ACCEPTED {
          if enablePoints {
            verdict := PARTIALLY_ACCEPTED;
          } else {
            verdict := testReport.verdict;
            return true, true, groupTests;
          }
        }
        j := j + 1;
      }
      assert ts[..j] == ts && ItemsOf(ts)[..j] == ItemsOf(ts);
      return true, false, groupTests;
    }

    /** Without points: the tests up to the first that is not accepted. With points, if no group is
        named twice in its set: all tests, and the points they have left count where their group is listed. */
    method RunSolutionTests(sets: seq<TestSet>, enablePoints: bool) returns (ok: bool)
      requires tests == [] && points.None? && time == 0 && memory == 0
      modifies this
      ensures ok ==> IsUsage(tests, time, memory)
      ensures !enablePoints ==>
                && points.None?
                && if ok then StopsRight(Items(sets), tests, verdict) else FailsFirst(Items(sets))
      ensures enablePoints ==>
                && (ok <==> forall i :: 0 <= i < |sets| ==> Judges(sets[i]))
                && (ok ==> points.Some?)
                && (ok ==> verdict == if forall i :: 0 <= i < |tests| ==> tests[i].verdict == 1 then 1 else 9)
                && (ok && (forall i :: 0 <= i < |sets| ==> DistinctGroups(sets[i].groups.value)) ==>
                      tests == FinalTests(sets) && points.value == FinalPoints(sets))
    {
      hide IsUsage, FailsFirst, StopsRight, PlainSoFar, GroupsOf, Positions, DistinctGroups, Final, ListedSum, NamesOf,
           AllRun, Reports, Supported, PointsSoFar, Items, Total, SameButPoints;
      verdict := ACCEPTED;
      points := if enablePoints then Some(0.0) else None;
      NothingYet();
      assert sets[..0] == [];
      var i := 0;
      while i < |sets|
        invariant 0 <= i <= |sets| && IsUsage(tests, time, memory)
        invariant !enablePoints ==>
                    points.None? && PlainSoFar(Items(sets[..i]), tests) && verdict == ACCEPTED
        invariant enablePoints ==> PointsSoFar(sets[..i], tests, points, verdict) && points.Some? && verdict == Total(tests)
      {
        var s := sets[i];
        assert sets[..i + 1] == sets[..i] + [s];
        ghost var items, own := Items(sets[..i]), OwnItems(s);
        ghost var had, hadPoints, hadVerdict, base := tests, points, verdict, |tests|;
        ItemsOfNext(sets, i);
        ghost var more := ItemsGrow(sets, i + 1);
        if s.tests.None? {
          if !enablePoints {
            OneMoreItem(items, tests, None);
            LaterItemsDoNotMatter(items + own, more, [], 0);
          }
          return false;
        }
        var ran, stopped, groupTests := RunTests(s.tests.value, enablePoints, items);
        if !enablePoints {
          LaterItemsDoNotMatter(items + own, more, tests, verdict);
        }
        if !ran {
          return false;
        }
        if stopped {
          return true;
        }
        if enablePoints {
          ghost var was, names := tests, GroupNames(s.tests.value);
          NamesAt(groupTests, names, base);
          var added := CalculateTestSetPoints(s.groups, groupTests, base, names);
          SameVerdicts(tests, was, time, memory);
          if !added {
            return false;
          }
          OneMoreSet(sets[..i], had, hadPoints, hadVerdict, s, was, tests, points, verdict);
        }
        i := i + 1;
      }
      assert sets[..i] == sets;
      if enablePoints {
        AllJudged(sets, tests, points, verdict);
      } else {
        AllPlain(Items(sets), tests);
      }
      return true;
    }
  }
}
