/** The reference-counted single-flight cache (internal/pkg/cache/cache.go) as a transition system. A step
    is what one goroutine does between two points where others can run: a critical section of the
    manager's mutex, an atomic addition to a counter, a return of storage.Load, or the final release.
    A future and its resource are created together, so one number names both. */
module ResourceCache {
  import opened Options

  datatype Stage =
    | Loading   // storage.Load is running
    | Loaded    // it has returned, updateCache has not run
    | Stored    // updateCache has run
    | Done      // the done channel is closed

  datatype Entry<K, V> = Entry(
    key: K,
    counter: int,
    resource: Option<V>,   // the underlying resource, until it is released
    err: bool,
    stage: Stage,
    loaded: Option<V>,     // what storage.Load returned
    releases: nat)         // calls of the underlying Release

  // A future reference can be read once its future is done; a direct one at any time.
  datatype Ref = Direct(entry: nat) | Future(entry: nat)

  datatype State<K, V> = State(
    entries: seq<Entry<K, V>>,
    cache: map<K, nat>,
    futures: map<K, nat>,
    refs: map<int, Ref>,       // references whose field is not nil
    owed: map<int, nat>,       // releases that Delete or updateCache left to their caller
    finishing: set<nat>)       // counter reached 0, underlying Release not called yet

  datatype Step<K, V> =
    | HitCache(key: K, ref: int)
    | HitFuture(key: K, ref: int)
    | Miss(key: K, ref: int)
    | LoadReturns(entry: nat, value: Option<V>, err: bool)
    | UpdateCache(entry: nat, owe: int)
    | CloseDone(entry: nat)
    | Delete(key: K, owe: int)
    | ReleaseOwed(owe: int)
    | ReleaseRef(ref: int)
    | MakeSync(ref: int, sync: int)
    | Finish(entry: nat)

  function Acquired<K, V>(e: Entry<K, V>): Entry<K, V> {
    e.(counter := e.counter + 1)
  }

  // Whether resource.acquire panics.
  predicate Panics<K, V>(e: Entry<K, V>) {
    e.counter + 1 <= 1
  }

  // resource.Release up to the decision to release the underlying resource.
  function Decremented<K, V>(s: State<K, V>, n: nat): State<K, V>
    requires n < |s.entries|
  {
    var e := s.entries[n].(counter := s.entries[n].counter - 1);
    s.(entries := s.entries[n := e],
       finishing := if e.counter == 0 && e.resource.Some? then s.finishing + {n} else s.finishing)
  }

  // A reference may be read: its field is not nil, and a future has delivered a value.
  predicate Readable<K, V>(s: State<K, V>, ref: int) {
    && ref in s.refs && s.refs[ref].entry < |s.entries|
    && (s.refs[ref].Future? ==> s.entries[s.refs[ref].entry].stage.Done? && !s.entries[s.refs[ref].entry].err)
  }

  ghost predicate Next<K, V>(s: State<K, V>, step: Step<K, V>, s': State<K, V>) {
    match step
    case HitCache(k, ref) =>
      && k in s.cache && s.cache[k] < |s.entries| && ref !in s.refs
      && var n := s.cache[k];
      s' == s.(entries := s.entries[n := Acquired(s.entries[n])], refs := s.refs[ref := Direct(n)])
    case HitFuture(k, ref) =>
      && k !in s.cache && k in s.futures && s.futures[k] < |s.entries| && ref !in s.refs
      && var n := s.futures[k];
      s' == s.(entries := s.entries[n := Acquired(s.entries[n])], refs := s.refs[ref := Future(n)])
    case Miss(k, ref) =>
      && k !in s.cache && k !in s.futures && ref !in s.refs
      && var n := |s.entries|;
      s' == s.(entries := s.entries + [Entry(k, 2, None, false, Loading, None, 0)],
               futures := s.futures[k := n], refs := s.refs[ref := Future(n)])
    case LoadReturns(n, value, err) =>
      && n < |s.entries| && s.entries[n].stage.Loading?
      && s' == s.(entries := s.entries[n := s.entries[n].(resource := value, loaded := value, err := err, stage := Loaded)])
    case UpdateCache(n, owe) =>
      && n < |s.entries| && s.entries[n].stage.Loaded? && owe !in s.owed
      && var k := s.entries[n].key;
      && var futures := if k in s.futures && s.futures[k] == n then s.futures - {k} else s.futures;
      && var entries := s.entries[n := s.entries[n].(stage := Stored)];
      if s.entries[n].err then s' == s.(entries := entries, futures := futures, owed := s.owed[owe := n])
      else s' == s.(entries := entries, futures := futures, cache := s.cache[k := n],
                    owed := if k in s.cache then s.owed[owe := s.cache[k]] else s.owed)
    case CloseDone(n) =>
      && n < |s.entries| && s.entries[n].stage.Stored?
      && s' == s.(entries := s.entries[n := s.entries[n].(stage := Done)])
    case Delete(k, owe) =>
      && k in s.cache && owe !in s.owed
      && s' == s.(cache := s.cache - {k}, owed := s.owed[owe := s.cache[k]])
    case ReleaseOwed(owe) =>
      && owe in s.owed && s.owed[owe] < |s.entries|
      && s' == Decremented(s, s.owed[owe]).(owed := s.owed - {owe})
    case ReleaseRef(ref) =>
      && ref in s.refs && s.refs[ref].entry < |s.entries|
      && s' == Decremented(s, s.refs[ref].entry).(refs := s.refs - {ref})
    case MakeSync(ref, sync) =>
      && Readable(s, ref) && sync !in s.refs
      && s' == s.(refs := (s.refs - {ref})[sync := Direct(s.refs[ref].entry)])
    case Finish(n) =>
      && n in s.finishing && n < |s.entries|
      && s' == s.(entries := s.entries[n := s.entries[n].(resource := None, releases := s.entries[n].releases + 1)],
                  finishing := s.finishing - {n})
  }

  ghost predicate Initial<K, V>(s: State<K, V>) {
    s == State([], map[], map[], map[], map[], {})
  }

  // ---- The invariant ----

  function RefsOf(refs: map<int, Ref>, n: nat): set<int> {
    set r | r in refs && refs[r].entry == n
  }

  function OwedOf(owed: map<int, nat>, n: nat): set<int> {
    set o | o in owed && owed[o] == n
  }

  predicate Cached<K(==), V>(s: State<K, V>, n: nat) {
    n < |s.entries| && s.entries[n].key in s.cache && s.cache[s.entries[n].key] == n
  }

  predicate InFlight<K, V>(s: State<K, V>, n: nat) {
    n < |s.entries| && (s.entries[n].stage.Loading? || s.entries[n].stage.Loaded?)
  }

  /** The live references, plus one if cached or in flight, plus the releases not yet performed. */
  function Holders<K(==), V>(s: State<K, V>, n: nat): int {
    |RefsOf(s.refs, n)| + |OwedOf(s.owed, n)| + (if Cached(s, n) then 1 else 0) + (if InFlight(s, n) then 1 else 0)
  }

  ghost predicate Counted<K, V>(s: State<K, V>) {
    forall n :: 0 <= n < |s.entries| ==> s.entries[n].counter == Holders(s, n) && EntryInv(s, n)
  }

  /** The maps name entries of their keys, a load in flight is the one its key's future names, and no
      key is in both maps. */
  ghost predicate Linked<K(!new), V>(s: State<K, V>) {
    && (forall r :: r in s.refs ==> s.refs[r].entry < |s.entries|)
    && (forall o :: o in s.owed ==> s.owed[o] < |s.entries|)
    && (forall k :: k in s.cache ==> Cached(s, s.cache[k]) && s.entries[s.cache[k]].key == k)
    && (forall k :: k in s.futures ==> InFlight(s, s.futures[k]) && s.entries[s.futures[k]].key == k)
    && (forall n: nat :: InFlight(s, n) ==> s.entries[n].key in s.futures && s.futures[s.entries[n].key] == n)
    && s.cache.Keys !! s.futures.Keys
    && (forall n: nat :: n in s.finishing ==> n < |s.entries|)
    && (forall r :: r in s.refs && s.refs[r].Direct? ==>
          !s.entries[s.refs[r].entry].err && !InFlight(s, s.refs[r].entry))
  }

  ghost predicate EntryInv<K, V>(s: State<K, V>, n: nat)
    requires n < |s.entries|
  {
    var e := s.entries[n];
    && (e.stage.Loading? ==> e.resource.None? && e.loaded.None? && e.releases == 0 && !e.err)
    && (n in s.finishing ==> e.counter == 0 && e.resource.Some?)
    && (e.counter == 0 && e.resource.Some? ==> n in s.finishing)
    && e.releases == (if e.loaded.Some? && e.resource.None? then 1 else 0)
    && (e.resource.Some? ==> e.resource == e.loaded)
    && (e.releases == 1 ==> e.counter == 0)
    && (Cached(s, n) ==> !e.err && (e.stage.Stored? || e.stage.Done?))
  }

  ghost predicate Inv<K(!new), V>(s: State<K, V>) {
    Counted(s) && Linked(s)
  }

  lemma RefAdded(refs: map<int, Ref>, r: int, ref: Ref, n: nat)
    requires r !in refs
    ensures |RefsOf(refs[r := ref], n)| == |RefsOf(refs, n)| + if ref.entry == n then 1 else 0
  {
    assert RefsOf(refs[r := ref], n) == RefsOf(refs, n) + if ref.entry == n then {r} else {};
  }

  lemma RefRemoved(refs: map<int, Ref>, r: int, n: nat)
    requires r in refs
    ensures |RefsOf(refs, n)| == |RefsOf(refs - {r}, n)| + if refs[r].entry == n then 1 else 0
  {
    assert RefsOf(refs, n) == RefsOf(refs - {r}, n) + if refs[r].entry == n then {r} else {};
  }

  lemma OwedAdded(owed: map<int, nat>, o: int, m: nat, n: nat)
    requires o !in owed
    ensures |OwedOf(owed[o := m], n)| == |OwedOf(owed, n)| + if m == n then 1 else 0
  {
    assert OwedOf(owed[o := m], n) == OwedOf(owed, n) + if m == n then {o} else {};
  }

  lemma OwedRemoved(owed: map<int, nat>, o: int, n: nat)
    requires o in owed
    ensures |OwedOf(owed, n)| == |OwedOf(owed - {o}, n)| + if owed[o] == n then 1 else 0
  {
    assert OwedOf(owed, n) == OwedOf(owed - {o}, n) + if owed[o] == n then {o} else {};
  }

  lemma RefIsHolder<K, V>(s: State<K, V>, r: int)
    requires r in s.refs
    ensures Holders(s, s.refs[r].entry) >= 1
  {
    RefRemoved(s.refs, r, s.refs[r].entry);
  }

  lemma NewHasNoHolders<K(!new), V>(s: State<K, V>)
    requires Linked(s)
    ensures |RefsOf(s.refs, |s.entries|)| == 0 && |OwedOf(s.owed, |s.entries|)| == 0
  {
    var n := |s.entries|;
    forall r
      ensures r !in RefsOf(s.refs, n) && r !in OwedOf(s.owed, n)
    {
      assert r in s.refs ==> s.refs[r].entry < n;
      assert r in s.owed ==> s.owed[r] < n;
    }
    assert RefsOf(s.refs, n) == {} && OwedOf(s.owed, n) == {};
  }

  lemma CachedIsStored<K(!new), V>(s: State<K, V>, k: K)
    requires Inv(s) && k in s.cache
    ensures s.cache[k] < |s.entries| && !s.entries[s.cache[k]].err && !InFlight(s, s.cache[k])
  {
    assert EntryInv(s, s.cache[k]);
  }

  lemma AcquireLinks<K(!new), V>(s: State<K, V>, step: Step<K, V>, s': State<K, V>)
    requires Inv(s) && Next(s, step, s') && (step.HitCache? || step.HitFuture?)
    ensures Linked(s')
  {
    hide EntryInv, Holders;
    if step.HitCache? {
      CachedIsStored(s, step.key);
    }
  }

  lemma AcquireCounts<K(!new), V>(s: State<K, V>, step: Step<K, V>, s': State<K, V>)
    requires Inv(s) && Next(s, step, s') && (step.HitCache? || step.HitFuture?)
    ensures Counted(s')
  {
    hide RefsOf, OwedOf;
    var n := if step.HitCache? then s.cache[step.key] else s.futures[step.key];
    forall m | 0 <= m < |s'.entries|
      ensures s'.entries[m].counter == Holders(s', m) && EntryInv(s', m)
    {
      RefAdded(s.refs, step.ref, s'.refs[step.ref], m);
      assert EntryInv(s, m);
    }
  }

  lemma MissLinks<K(!new), V>(s: State<K, V>, step: Step<K, V>, s': State<K, V>)
    requires Inv(s) && Next(s, step, s') && step.Miss?
    ensures Linked(s')
  {
    hide EntryInv, Holders;
  }

  lemma MissCounts<K(!new), V>(s: State<K, V>, step: Step<K, V>, s': State<K, V>)
    requires Inv(s) && Next(s, step, s') && step.Miss?
    ensures Counted(s')
  {
    hide RefsOf, OwedOf;
    forall m | 0 <= m < |s'.entries|
      ensures s'.entries[m].counter == Holders(s', m) && EntryInv(s', m)
    {
      RefAdded(s.refs, step.ref, s'.refs[step.ref], m);
      if m == |s.entries| {
        NewHasNoHolders(s);
      } else {
        assert EntryInv(s, m);
      }
    }
  }

  lemma LoadLinks<K(!new), V>(s: State<K, V>, step: Step<K, V>, s': State<K, V>)
    requires Inv(s) && Next(s, step, s') && (step.LoadReturns? || step.CloseDone?)
    ensures Linked(s')
  {
    hide EntryInv, Holders;
  }

  lemma LoadCounts<K(!new), V>(s: State<K, V>, step: Step<K, V>, s': State<K, V>)
    requires Inv(s) && Next(s, step, s') && (step.LoadReturns? || step.CloseDone?)
    ensures Counted(s')
  {
    hide RefsOf, OwedOf;
    forall m | 0 <= m < |s'.entries|
      ensures s'.entries[m].counter == Holders(s', m) && EntryInv(s', m)
    {
      assert EntryInv(s, m);
      assert Holders(s', m) == Holders(s, m);
    }
  }

  /** updateCache finds the key in futures and nothing under it in the cache. */
  lemma UpdateReplacesNothing<K(!new), V>(s: State<K, V>, n: nat)
    requires Inv(s) && InFlight(s, n)
    ensures s.entries[n].key in s.futures && s.futures[s.entries[n].key] == n && s.entries[n].key !in s.cache
  {
    hide Counted;
  }

  lemma UpdateLinks<K(!new), V>(s: State<K, V>, step: Step<K, V>, s': State<K, V>)
    requires Inv(s) && Next(s, step, s') && step.UpdateCache?
    ensures Linked(s')
  {
    hide Counted;
    UpdateReplacesNothing(s, step.entry);
    if s.entries[step.entry].err {
      FailedLinks(s, step.entry, step.owe, s');
    } else {
      StoredLinks(s, step.entry, s');
    }
  }

  lemma FailedLinks<K(!new), V>(s: State<K, V>, n: nat, owe: int, s': State<K, V>)
    requires Linked(s) && InFlight(s, n)
    requires s' == s.(entries := s.entries[n := s.entries[n].(stage := Stored)],
                      futures := s.futures - {s.entries[n].key}, owed := s.owed[owe := n])
    ensures Linked(s')
  {
  }

  lemma StoredLinks<K(!new), V>(s: State<K, V>, n: nat, s': State<K, V>)
    requires Linked(s) && InFlight(s, n) && !s.entries[n].err && s.entries[n].key !in s.cache
    requires s' == s.(entries := s.entries[n := s.entries[n].(stage := Stored)],
                      futures := s.futures - {s.entries[n].key}, cache := s.cache[s.entries[n].key := n])
    ensures Linked(s')
  {
  }

  lemma UpdateCounts<K(!new), V>(s: State<K, V>, step: Step<K, V>, s': State<K, V>)
    requires Inv(s) && Next(s, step, s') && step.UpdateCache?
    ensures Counted(s')
  {
    hide RefsOf, OwedOf;
    var n := step.entry;
    UpdateReplacesNothing(s, n);
    forall m | 0 <= m < |s'.entries|
      ensures s'.entries[m].counter == Holders(s', m) && EntryInv(s', m)
    {
      OwedAdded(s.owed, step.owe, n, m);
      assert EntryInv(s, m);
      assert s.entries[m].counter == Holders(s, m);
    }
  }

  lemma DeleteLinks<K(!new), V>(s: State<K, V>, step: Step<K, V>, s': State<K, V>)
    requires Inv(s) && Next(s, step, s') && step.Delete?
    ensures Linked(s')
  {
    hide EntryInv, Holders;
  }

  lemma DeleteCounts<K(!new), V>(s: State<K, V>, step: Step<K, V>, s': State<K, V>)
    requires Inv(s) && Next(s, step, s') && step.Delete?
    ensures Counted(s')
  {
    hide RefsOf, OwedOf;
    forall m | 0 <= m < |s'.entries|
      ensures s'.entries[m].counter == Holders(s', m) && EntryInv(s', m)
    {
      OwedAdded(s.owed, step.owe, s.cache[step.key], m);
      assert EntryInv(s, m);
      assert s.entries[m].counter == Holders(s, m);
    }
  }

  lemma ReleaseLinks<K(!new), V>(s: State<K, V>, step: Step<K, V>, s': State<K, V>)
    requires Inv(s) && Next(s, step, s') && (step.ReleaseOwed? || step.ReleaseRef?)
    ensures Linked(s')
  {
    hide EntryInv, Holders, Counted, Linked, Decremented;
    if step.ReleaseOwed? {
      DecrementLinks(s, s.owed[step.owe]);
      FewerOwedLinks(Decremented(s, s.owed[step.owe]), step.owe);
      DecrementedKeeps(s, s.owed[step.owe]);
    } else {
      DecrementLinks(s, s.refs[step.ref].entry);
      FewerRefsLinks(Decremented(s, s.refs[step.ref].entry), step.ref);
      DecrementedKeeps(s, s.refs[step.ref].entry);
    }
  }

  lemma DecrementedKeeps<K, V>(s: State<K, V>, n: nat)
    requires n < |s.entries|
    ensures Decremented(s, n).owed == s.owed && Decremented(s, n).refs == s.refs
  {
  }

  lemma FewerOwedLinks<K(!new), V>(s: State<K, V>, owe: int)
    requires Linked(s)
    ensures Linked(s.(owed := s.owed - {owe}))
  {
    assert forall n: nat :: InFlight(s.(owed := s.owed - {owe}), n) <==> InFlight(s, n);
  }

  lemma FewerRefsLinks<K(!new), V>(s: State<K, V>, ref: int)
    requires Linked(s)
    ensures Linked(s.(refs := s.refs - {ref}))
  {
    assert forall n: nat :: InFlight(s.(refs := s.refs - {ref}), n) <==> InFlight(s, n);
  }

  lemma DecrementLinks<K(!new), V>(s: State<K, V>, n: nat)
    requires Linked(s) && n < |s.entries|
    ensures Linked(Decremented(s, n))
  {
  }

  lemma ReleaseCounts<K(!new), V>(s: State<K, V>, step: Step<K, V>, s': State<K, V>)
    requires Inv(s) && Next(s, step, s') && (step.ReleaseOwed? || step.ReleaseRef?)
    ensures Counted(s')
  {
    hide RefsOf, OwedOf;
    var n := if step.ReleaseOwed? then s.owed[step.owe] else s.refs[step.ref].entry;
    forall m | 0 <= m < |s'.entries|
      ensures s'.entries[m].counter == Holders(s', m) && EntryInv(s', m)
    {
      if step.ReleaseOwed? {
        OwedRemoved(s.owed, step.owe, m);
      } else {
        RefRemoved(s.refs, step.ref, m);
      }
      assert EntryInv(s, m);
      assert s.entries[m].counter == Holders(s, m);
    }
  }

  lemma MakeSyncLinks<K(!new), V>(s: State<K, V>, step: Step<K, V>, s': State<K, V>)
    requires Inv(s) && Next(s, step, s') && step.MakeSync?
    ensures Linked(s')
  {
    hide EntryInv, Holders;
  }

  lemma MakeSyncCounts<K(!new), V>(s: State<K, V>, step: Step<K, V>, s': State<K, V>)
    requires Inv(s) && Next(s, step, s') && step.MakeSync?
    ensures Counted(s')
  {
    hide RefsOf, OwedOf;
    var n := s.refs[step.ref].entry;
    forall m | 0 <= m < |s'.entries|
      ensures s'.entries[m].counter == Holders(s', m) && EntryInv(s', m)
    {
      RefRemoved(s.refs, step.ref, m);
      RefAdded(s.refs - {step.ref}, step.sync, Direct(n), m);
      assert EntryInv(s, m);
      assert s.entries[m].counter == Holders(s, m);
    }
  }

  lemma FinishLinks<K(!new), V>(s: State<K, V>, step: Step<K, V>, s': State<K, V>)
    requires Inv(s) && Next(s, step, s') && step.Finish?
    ensures Linked(s')
  {
    hide EntryInv, Holders;
  }

  lemma FinishCounts<K(!new), V>(s: State<K, V>, step: Step<K, V>, s': State<K, V>)
    requires Inv(s) && Next(s, step, s') && step.Finish?
    ensures Counted(s')
  {
    hide RefsOf, OwedOf;
    forall m | 0 <= m < |s'.entries|
      ensures s'.entries[m].counter == Holders(s', m) && EntryInv(s', m)
    {
      assert EntryInv(s, m);
      assert s.entries[m].counter == Holders(s, m);
      assert Holders(s', m) == Holders(s, m);
    }
  }

  lemma StepKeeps<K(!new), V>(s: State<K, V>, step: Step<K, V>, s': State<K, V>)
    requires Inv(s) && Next(s, step, s')
    ensures Inv(s')
  {
    hide Next, Counted, Linked;
    match step
    case HitCache(_, _) => AcquireLinks(s, step, s'); AcquireCounts(s, step, s');
    case HitFuture(_, _) => AcquireLinks(s, step, s'); AcquireCounts(s, step, s');
    case Miss(_, _) => MissLinks(s, step, s'); MissCounts(s, step, s');
    case LoadReturns(_, _, _) => LoadLinks(s, step, s'); LoadCounts(s, step, s');
    case UpdateCache(_, _) => UpdateLinks(s, step, s'); UpdateCounts(s, step, s');
    case CloseDone(_) => LoadLinks(s, step, s'); LoadCounts(s, step, s');
    case Delete(_, _) => DeleteLinks(s, step, s'); DeleteCounts(s, step, s');
    case ReleaseOwed(_) => ReleaseLinks(s, step, s'); ReleaseCounts(s, step, s');
    case ReleaseRef(_) => ReleaseLinks(s, step, s'); ReleaseCounts(s, step, s');
    case MakeSync(_, _) => MakeSyncLinks(s, step, s'); MakeSyncCounts(s, step, s');
    case Finish(_) => FinishLinks(s, step, s'); FinishCounts(s, step, s');
  }

  ghost predicate IsRun<K, V>(run: seq<State<K, V>>, steps: seq<Step<K, V>>) {
    && |run| == |steps| + 1 && Initial(run[0])
    && forall i :: 0 <= i < |steps| ==> Next(run[i], steps[i], run[i + 1])
  }

  /** In every state of every interleaving the counter of every resource is what it should be. */
  lemma {:induction false} RunKeeps<K(!new), V>(run: seq<State<K, V>>, steps: seq<Step<K, V>>, i: nat)
    requires IsRun(run, steps) && i < |run|
    ensures Inv(run[i])
  {
    if i > 0 {
      RunKeeps(run, steps, i - 1);
      StepKeeps(run[i - 1], steps[i - 1], run[i]);
    }
  }

  // ---- What the cache promises ----

  /** The counter of a resource is the number of its live references and owed releases, plus one if it is
      cached, plus one if its load is in flight. */
  lemma CounterIsHolders<K(!new), V>(run: seq<State<K, V>>, steps: seq<Step<K, V>>, i: nat, n: nat)
    requires IsRun(run, steps) && i < |run| && n < |run[i].entries|
    ensures run[i].entries[n].counter == Holders(run[i], n)
  {
    RunKeeps(run, steps, i);
  }

  /** acquire never panics: it does when adding one leaves a counter of at most one. */
  lemma AcquireNeverPanics<K(!new), V>(run: seq<State<K, V>>, steps: seq<Step<K, V>>, i: nat, k: K)
    requires IsRun(run, steps) && i < |run|
    ensures k in run[i].cache ==>
              run[i].cache[k] < |run[i].entries| && run[i].entries[run[i].cache[k]].counter >= 1
    ensures k in run[i].futures ==>
              run[i].futures[k] < |run[i].entries| && run[i].entries[run[i].futures[k]].counter >= 1
  {
    RunKeeps(run, steps, i);
  }

  /** A reference that can be read reads what storage.Load returned, which nobody has released and
      nobody is about to release. */
  lemma ReadableIsAlive<K(!new), V>(run: seq<State<K, V>>, steps: seq<Step<K, V>>, i: nat, ref: int)
    requires IsRun(run, steps) && i < |run| && Readable(run[i], ref)
    ensures var e := run[i].entries[run[i].refs[ref].entry];
            e.resource == e.loaded && e.releases == 0 && run[i].refs[ref].entry !in run[i].finishing && !e.err
  {
    RunKeeps(run, steps, i);
    RefIsHolder(run[i], ref);
    assert EntryInv(run[i], run[i].refs[ref].entry);
  }

  /** The underlying resource is released at most once; and exactly once, if it was loaded at all, when
      nobody holds it and no release is under way. */
  lemma ReleasedExactlyOnce<K(!new), V>(run: seq<State<K, V>>, steps: seq<Step<K, V>>, i: nat, n: nat)
    requires IsRun(run, steps) && i < |run| && n < |run[i].entries|
    ensures run[i].entries[n].releases <= 1
    ensures Holders(run[i], n) == 0 && n !in run[i].finishing ==>
              run[i].entries[n].releases == if run[i].entries[n].loaded.Some? then 1 else 0
    ensures Holders(run[i], n) > 0 ==> run[i].entries[n].releases == 0
  {
    RunKeeps(run, steps, i);
    assert EntryInv(run[i], n);
  }

  /** Single flight: two loads in flight are of different keys, a cached key is not being loaded. */
  lemma SingleFlight<K(!new), V>(run: seq<State<K, V>>, steps: seq<Step<K, V>>, i: nat, n: nat, m: nat)
    requires IsRun(run, steps) && i < |run| && InFlight(run[i], n)
    ensures InFlight(run[i], m) && n != m ==> run[i].entries[n].key != run[i].entries[m].key
    ensures run[i].entries[n].key !in run[i].cache
  {
    RunKeeps(run, steps, i);
  }

  /** After a load that failed, the key is in neither map: the next Load of it starts a new one. After a
      load that succeeded its resource is the cached one, and nothing was evicted. */
  lemma LoadOutcome<K(!new), V>(run: seq<State<K, V>>, steps: seq<Step<K, V>>, i: nat)
    requires IsRun(run, steps) && i < |steps| && steps[i].UpdateCache?
    ensures var s, s', n := run[i], run[i + 1], steps[i].entry;
            var k := s.entries[n].key;
            && k !in s'.futures && k !in s.cache
            && (if s.entries[n].err then k !in s'.cache else k in s'.cache && s'.cache[k] == n && s'.owed == s.owed)
  {
    RunKeeps(run, steps, i);
    assert Next(run[i], steps[i], run[i + 1]);
    UpdateReplacesNothing(run[i], steps[i].entry);
  }
}
