/** The code of the cache manager, one method an atomic step of ResourceCache
    (internal/pkg/cache/cache.go). Entries, references and owed releases are named by numbers, where the
    program has pointers. */
module CacheManager {
  import opened Options
  import opened ResourceCache

  class Manager<K(==, !new), V> {
    var entries: seq<Entry<K, V>>
    var cache: map<K, nat>
    var futures: map<K, nat>
    var refs: map<int, Ref>
    var owed: map<int, nat>
    var finishing: set<nat>
    var nextName: int

    ghost function Now(): State<K, V>
      reads this
    {
      State(entries, cache, futures, refs, owed, finishing)
    }

    /** The invariant of ResourceCache, and a supply of unused names. */
    ghost predicate Valid()
      reads this
    {
      && Inv(Now())
      && (forall r :: r in refs ==> r < nextName) && (forall o :: o in owed ==> o < nextName)
    }

    constructor ()
      ensures Valid() && ResourceCache.Initial(Now())
    {
      entries, cache, futures, refs, owed, finishing, nextName := [], map[], map[], map[], map[], {}, 0;
    }

    // resource.acquire: the addition, and the check that would panic.
    method Acquire(n: nat)
      requires n < |entries| && !Panics(entries[n])
      modifies this`entries
      ensures entries == old(entries)[n := Acquired(old(entries)[n])]
    {
      var e := entries[n];
      entries := entries[n := e.(counter := e.counter + 1)];
    }

    /** Under the read lock: a reference if the key is cached or being loaded. */
    method LoadFast(key: K) returns (ref: Option<int>)
      requires Valid()
      modifies this
      ensures Valid()
      ensures ref.None? <==> key !in old(cache) && key !in old(futures)
      ensures ref.None? ==> Now() == old(Now())
      ensures ref.Some? ==>
                ResourceCache.Next(old(Now()), if key in old(cache) then HitCache(key, ref.value) else HitFuture(key, ref.value), Now())
    {
      hide Inv;
      ghost var before := Now();
      ref := None;
      if key in cache {
        CachedCanBeAcquired(before, key);
        Acquire(cache[key]);
        refs := refs[nextName := Direct(cache[key])];
        ref, nextName := Some(nextName), nextName + 1;
        StepKeeps(before, HitCache(key, ref.value), Now());
      } else if key in futures {
        FutureCanBeAcquired(before, key);
        Acquire(futures[key]);
        refs := refs[nextName := Future(futures[key])];
        ref, nextName := Some(nextName), nextName + 1;
        StepKeeps(before, HitFuture(key, ref.value), Now());
      }
    }

    /** Under the write lock: looks again, and starts a load if the key is still nowhere. */
    method LoadSlow(key: K) returns (ref: int)
      requires Valid()
      modifies this
      ensures Valid()
      ensures ResourceCache.Next(old(Now()),
                if key in old(cache) then HitCache(key, ref)
                else if key in old(futures) then HitFuture(key, ref)
                else Miss(key, ref), Now())
    {
      hide Inv;
      ghost var before := Now();
      var found := LoadFast(key);
      if found.Some? {
        return found.value;
      }
      ref := nextName;
      nextName := nextName + 1;
      futures := futures[key := |entries|];
      refs := refs[ref := Future(|entries|)];
      entries := entries + [Entry(key, 2, None, false, Loading, None, 0)];
      StepKeeps(before, Miss(key, ref), Now());
    }

    /** LoadSync, when its wait is over: the reference of Load becomes one that is read directly, or is
        given back because the load failed or the context ended first. */
    method LoadSync(ref: int, gaveUp: bool) returns (sync: Option<int>)
      requires Valid() && ref in refs && refs[ref].entry < |entries|
      requires refs[ref].Future? && !entries[refs[ref].entry].stage.Done? ==> gaveUp
      modifies this
      ensures Valid()
      ensures var r := old(refs)[ref];
              sync.Some? <==> r.Direct? || (!gaveUp && !old(entries)[r.entry].err)
      ensures if sync.Some? then ResourceCache.Next(old(Now()), ResourceCache.Step.MakeSync(ref, sync.value), Now())
              else ResourceCache.Next(old(Now()), ResourceCache.Step.ReleaseRef(ref), Now())
    {
      hide Inv;
      ghost var before := Now();
      if refs[ref].Future? && (gaveUp || entries[refs[ref].entry].err) {
        ReleaseRef(ref);
        return None;
      }
      var name := nextName;
      nextName := nextName + 1;
      refs := (refs - {ref})[name := Direct(refs[ref].entry)];
      sync := Some(name);
      StepKeeps(before, ResourceCache.Step.MakeSync(ref, name), Now());
    }

    // The goroutine of the load, when storage.Load has returned.
    method LoadReturns(n: nat, value: Option<V>, err: bool)
      requires Valid() && n < |entries| && entries[n].stage.Loading?
      modifies this
      ensures Valid()
      ensures ResourceCache.Next(old(Now()), ResourceCache.Step.LoadReturns(n, value, err), Now())
    {
      hide Inv;
      ghost var before := Now();
      entries := entries[n := entries[n].(resource := value, loaded := value, err := err, stage := Loaded)];
      StepKeeps(before, ResourceCache.Step.LoadReturns(n, value, err), Now());
    }

    /** The goroutine of the load, after storage.Load returned: moves the future's resource to the cache,
        or hands it back for release if the load failed. */
    method UpdateCache(n: nat) returns (owe: Option<int>)
      requires Valid() && n < |entries| && entries[n].stage.Loaded?
      modifies this
      ensures Valid()
      ensures exists name :: ResourceCache.Next(old(Now()), ResourceCache.Step.UpdateCache(n, name), Now())
      ensures owe.Some? <==> old(entries)[n].err
      ensures owe.Some? ==> ResourceCache.Next(old(Now()), ResourceCache.Step.UpdateCache(n, owe.value), Now())
    {
      hide Inv;
      ghost var before := Now();
      UpdateReplacesNothing(before, n);
      var key := entries[n].key;
      if key in futures && futures[key] == n {
        futures := futures - {key};
      }
      entries := entries[n := entries[n].(stage := Stored)];
      owe := None;
      var name := nextName;
      nextName := nextName + 1;
      if entries[n].err {
        owed := owed[name := n];
        owe := Some(name);
      } else {
        // The program returns what stood under the key before; nothing did.
        assert key !in cache;
        cache := cache[key := n];
      }
      StepKeeps(before, ResourceCache.Step.UpdateCache(n, name), Now());
    }

    /** Takes the key out of the cache; the caller owes the release of what was there. */
    method Delete(key: K) returns (owe: Option<int>)
      requires Valid()
      modifies this
      ensures Valid()
      ensures owe.None? <==> key !in old(cache)
      ensures owe.None? ==> Now() == old(Now())
      ensures owe.Some? ==> ResourceCache.Next(old(Now()), ResourceCache.Step.Delete(key, owe.value), Now())
    {
      hide Inv;
      ghost var before := Now();
      owe := None;
      if key in cache {
        var name := nextName;
        nextName := nextName + 1;
        owed := owed[name := cache[key]];
        cache := cache - {key};
        owe := Some(name);
        StepKeeps(before, ResourceCache.Step.Delete(key, name), Now());
      }
    }

    // resource.Release: the subtraction, and the decision to release what lies below.
    method Release(n: nat)
      requires n < |entries|
      modifies this`entries, this`finishing
      ensures Now() == Decremented(old(Now()), n)
    {
      var e := entries[n];
      entries := entries[n := e.(counter := e.counter - 1)];
      if entries[n].counter == 0 && entries[n].resource.Some? {
        finishing := finishing + {n};
      }
    }

    /** The release that Delete or a failed load owes. */
    method ReleaseOwed(owe: int)
      requires Valid() && owe in owed
      modifies this
      ensures Valid()
      ensures ResourceCache.Next(old(Now()), ResourceCache.Step.ReleaseOwed(owe), Now())
    {
      hide Inv;
      ghost var before := Now();
      OwedAreEntries(before, owe);
      Release(owed[owe]);
      owed := owed - {owe};
      StepKeeps(before, ResourceCache.Step.ReleaseOwed(owe), Now());
    }

    // resource.Release, when the counter has reached 0: releases what lies below and forgets it.
    method Finish(n: nat)
      requires Valid() && n in finishing && n < |entries|
      modifies this
      ensures Valid()
      ensures ResourceCache.Next(old(Now()), ResourceCache.Step.Finish(n), Now())
    {
      hide Inv;
      ghost var before := Now();
      entries := entries[n := entries[n].(resource := None, releases := entries[n].releases + 1)];
      finishing := finishing - {n};
      StepKeeps(before, ResourceCache.Step.Finish(n), Now());
    }

    // The goroutine of the load, at its end: the future is done.
    method CloseDone(n: nat)
      requires Valid() && n < |entries| && entries[n].stage.Stored?
      modifies this
      ensures Valid()
      ensures ResourceCache.Next(old(Now()), ResourceCache.Step.CloseDone(n), Now())
    {
      hide Inv;
      ghost var before := Now();
      entries := entries[n := entries[n].(stage := Done)];
      StepKeeps(before, ResourceCache.Step.CloseDone(n), Now());
    }

    /** Release of a reference: the first one counts, later ones find the field nil. */
    method ReleaseRef(ref: int)
      requires Valid()
      modifies this
      ensures Valid()
      ensures if ref in old(refs) then ResourceCache.Next(old(Now()), ResourceCache.Step.ReleaseRef(ref), Now())
              else Now() == old(Now())
    {
      hide Inv;
      ghost var before := Now();
      if ref in refs {
        NamesAreEntries(before, ref);
        Release(refs[ref].entry);
        refs := refs - {ref};
        StepKeeps(before, ResourceCache.Step.ReleaseRef(ref), Now());
      }
    }
  }

  lemma CachedCanBeAcquired<K(!new), V>(s: State<K, V>, k: K)
    requires Inv(s) && k in s.cache
    ensures s.cache[k] < |s.entries| && !Panics(s.entries[s.cache[k]])
  {
  }

  lemma FutureCanBeAcquired<K(!new), V>(s: State<K, V>, k: K)
    requires Inv(s) && k in s.futures
    ensures s.futures[k] < |s.entries| && !Panics(s.entries[s.futures[k]])
  {
  }

  lemma NamesAreEntries<K(!new), V>(s: State<K, V>, ref: int)
    requires Inv(s) && ref in s.refs
    ensures s.refs[ref].entry < |s.entries|
  {
  }

  lemma OwedAreEntries<K(!new), V>(s: State<K, V>, owe: int)
    requires Inv(s) && owe in s.owed
    ensures s.owed[owe] < |s.entries|
  {
  }
}
