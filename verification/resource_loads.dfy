/** What a load returned decides what the cache does with it, over every run
    (internal/pkg/cache/cache.go). */
module ResourceLoads {
  import opened Options
  import opened ResourceCache

  // An entry keeps its key, and once its load has returned also what the load returned.
  lemma {:induction false} EntryStays<K(!new), V>(
      run: seq<State<K, V>>, steps: seq<Step<K, V>>, i: nat, j: nat, n: nat)
    requires IsRun(run, steps) && i <= j < |run| && n < |run[i].entries|
    ensures n < |run[j].entries| && run[j].entries[n].key == run[i].entries[n].key
    ensures !run[i].entries[n].stage.Loading? ==>
              && !run[j].entries[n].stage.Loading?
              && run[j].entries[n].loaded == run[i].entries[n].loaded && run[j].entries[n].err == run[i].entries[n].err
    decreases j
  {
    if i < j {
      EntryStays(run, steps, i, j - 1, n);
      assert Next(run[j - 1], steps[j - 1], run[j]);
    }
  }

  // From the return of the load on, its entry has the value and the error that were returned.
  lemma ReturnedStays<K(!new), V>(
      run: seq<State<K, V>>, steps: seq<Step<K, V>>, i: nat, j: nat, n: nat, v: Option<V>, err: bool)
    requires IsRun(run, steps) && i < j < |run| && steps[i] == LoadReturns(n, v, err)
    ensures n < |run[i].entries| && n < |run[j].entries|
    ensures run[j].entries[n].loaded == v && run[j].entries[n].err == err
    ensures run[j].entries[n].key == run[i].entries[n].key
  {
    assert Next(run[i], steps[i], run[i + 1]);
    EntryStays(run, steps, i + 1, j, n);
  }

  /** From the miss of a key to the end of its load: if the load returned an error, the key is in neither
      map, and the release of the entry is owed; otherwise the entry is the cached one. */
  lemma LoadIsStored<K(!new), V>(
      run: seq<State<K, V>>, steps: seq<Step<K, V>>, h: nat, i: nat, j: nat,
      key: K, ref: int, n: nat, v: Option<V>, err: bool, owe: int)
    requires IsRun(run, steps) && h < i < j < |steps|
    requires steps[h] == Miss(key, ref) && n == |run[h].entries|
    requires steps[i] == LoadReturns(n, v, err) && steps[j] == UpdateCache(n, owe)
    ensures var s := run[j + 1];
            && key !in s.futures
            && if err then key !in s.cache && owe in s.owed && s.owed[owe] == n
               else key in s.cache && s.cache[key] == n && s.entries[n].loaded == v
  {
    assert Next(run[h], steps[h], run[h + 1]);
    EntryStays(run, steps, h + 1, j, n);
    ReturnedStays(run, steps, i, j, n, v, err);
    ReturnedStays(run, steps, i, j + 1, n, v, err);
    LoadOutcome(run, steps, j);
    assert Next(run[j], steps[j], run[j + 1]);
  }

  /** Whoever can read a reference to the entry reads what the load returned, which was no error. */
  lemma ReadsWhatWasReturned<K(!new), V>(
      run: seq<State<K, V>>, steps: seq<Step<K, V>>, i: nat, j: nat, n: nat, v: Option<V>, err: bool, ref: int)
    requires IsRun(run, steps) && i < j < |run| && steps[i] == LoadReturns(n, v, err)
    requires Readable(run[j], ref) && run[j].refs[ref].entry == n
    ensures run[j].entries[n].resource == v && !err
  {
    ReturnedStays(run, steps, i, j, n, v, err);
    ReadableIsAlive(run, steps, j, ref);
  }

  /** What the load returned is released once nobody holds the entry, and not before; also when it came
      with an error. */
  lemma ReturnedIsReleased<K(!new), V>(
      run: seq<State<K, V>>, steps: seq<Step<K, V>>, i: nat, j: nat, n: nat, v: Option<V>, err: bool)
    requires IsRun(run, steps) && i < j < |run| && steps[i] == LoadReturns(n, v, err)
    ensures n < |run[j].entries|
    ensures Holders(run[j], n) > 0 ==> run[j].entries[n].releases == 0 && run[j].entries[n].resource == v
    ensures Holders(run[j], n) == 0 && n !in run[j].finishing ==>
              run[j].entries[n].releases == if v.Some? then 1 else 0
  {
    ReturnedStays(run, steps, i, j, n, v, err);
    ReleasedExactlyOnce(run, steps, j, n);
    RunKeeps(run, steps, j);
    assert EntryInv(run[j], n);
  }
}
