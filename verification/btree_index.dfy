/** Secondary indexes: (key, id) entries in order, iterators over one key, and ordered lookup over
    several keys by merging iterators (internal/models/btree_index.go). */
module BTreeIndex {
  import opened Options
  import opened SortedMap
  import opened Sets

  const MIN_INT64 := -0x8000_0000_0000_0000
  const MAX_INT64 := 0x7FFF_FFFF_FFFF_FFFF

  // beginID + 1 in 64-bit arithmetic.
  function Incr64(x: int): int {
    if x == MAX_INT64 then MIN_INT64 else x + 1
  }

  datatype Entry<K> = Entry(key: K, id: int)

  predicate EntryLess<K>(less: (K, K) -> bool, a: Entry<K>, b: Entry<K>) {
    less(a.key, b.key) || (!less(b.key, a.key) && a.id < b.id)
  }

  function EntryOrder<K>(less: (K, K) -> bool): (Entry<K>, Entry<K>) -> bool {
    (a, b) => EntryLess(less, a, b)
  }

  lemma EntryOrderTotal<K(!new)>(less: (K, K) -> bool)
    requires StrictTotal(less)
    ensures StrictTotal(EntryOrder(less))
  {
    var order := EntryOrder(less);
    forall a, b, c | order(a, b) && order(b, c)
      ensures order(a, c)
    {
      assert less(a.key, b.key) || a.key == b.key;
      assert less(b.key, c.key) || b.key == c.key;
    }
    forall a, b
      ensures order(a, b) || order(b, a) || a == b
    {
      assert less(a.key, b.key) || less(b.key, a.key) || a.key == b.key;
    }
  }

  // The order in which an iterator yields ids.
  predicate Before(reverse: bool, a: int, b: int) {
    if reverse then b < a else a < b
  }

  // The ids a lookup from beginID on may yield; beginID <= 0 means no limit, which in the reverse
  // direction still leaves out the largest 64-bit id.
  predicate InRange(reverse: bool, beginID: int, id: int) {
    if reverse then id < (if beginID > 0 then Incr64(beginID) else MAX_INT64)
    else id >= (if beginID > 0 then beginID else MIN_INT64)
  }

  /** For ids below the largest one the limit reads as it is meant: at least beginID going forward, at
      most beginID going backward. */
  lemma InRangeMeans(reverse: bool, beginID: int, id: int)
    requires -0x8000_0000_0000_0000 <= id < 0x7FFF_FFFF_FFFF_FFFF && beginID < 0x7FFF_FFFF_FFFF_FFFF
    ensures InRange(reverse, beginID, id) <==> beginID <= 0 || if reverse then id <= beginID else beginID <= id
  {
  }

  class BTreeIndex<K(==, !new), T> {
    const key: T -> Option<K>
    const less: (K, K) -> bool
    var m: seq<Entry<K>>

    ghost predicate Valid()
      reads this
    {
      StrictTotal(less) && Sorted(EntryOrder(less), m)
    }

    constructor (key: T -> Option<K>, less: (K, K) -> bool)
      requires StrictTotal(less)
      ensures Valid() && this.key == key && this.less == less && m == []
    {
      this.key, this.less, m := key, less, [];
    }

    method Reset()
      requires StrictTotal(less)
      modifies this`m
      ensures Valid() && m == []
    {
      m := [];
    }

    method Register(id: int, value: T)
      requires Valid()
      modifies this`m
      ensures Valid()
      ensures forall e :: e in m <==> e in old(m) || (key(value) == Some(e.key) && e.id == id)
    {
      var k := key(value);
      if k.Some? {
        EntryOrderTotal(less);
        InsertSorted(EntryOrder(less), m, Entry(k.value, id));
        m := Insert(EntryOrder(less), m, Entry(k.value, id));
      }
    }

    method Deregister(id: int, value: T)
      requires Valid()
      modifies this`m
      ensures Valid()
      ensures forall e :: e in m <==> e in old(m) && !(key(value) == Some(e.key) && e.id == id)
    {
      var k := key(value);
      if k.Some? {
        EntryOrderTotal(less);
        RemoveSorted(EntryOrder(less), m, Entry(k.value, id));
        m := Remove(EntryOrder(less), m, Entry(k.value, id));
      }
    }

    // Find and ReverseFind.
    method Find(k: K, beginID: int, reverse: bool) returns (it: IndexIter<K>)
      requires Valid()
      ensures fresh(it) && it.Valid() && !it.seeked && it.reverse == reverse
      ensures it.todo == set e | e in m && e.key == k && InRange(reverse, beginID, e.id) :: e.id
    {
      it := new IndexIter(m, less, k, beginID, reverse);
    }
  }

  /** Walks the entries of one key; the two directions differ in where they start and how they move. */
  class IndexIter<K(==, !new)> {
    const entries: seq<Entry<K>>
    const less: (K, K) -> bool
    const key: K
    const beginID: int
    const reverse: bool
    var pos: int
    var seeked: bool
    ghost var todo: set<int>  // the ids it has still to yield

    ghost predicate Matches(i: int) {
      0 <= i < |entries| && entries[i].key == key && InRange(reverse, beginID, entries[i].id)
    }

    // The matching ids at position p or later, in the direction of the walk.
    ghost function From(p: int): set<int> {
      set i | 0 <= i < |entries| && Matches(i) && (if reverse then i <= p else p <= i) :: entries[i].id
    }

    ghost predicate InOrder() {
      StrictTotal(less) && Sorted(EntryOrder(less), entries)
    }

    /** Before the first call, or standing on an entry. */
    ghost predicate Valid()
      reads this
    {
      && InOrder()
      && (!seeked ==> todo == set i | 0 <= i < |entries| && Matches(i) :: entries[i].id)
      && (seeked ==> Matches(pos) && todo == From(if reverse then pos - 1 else pos + 1))
      && (seeked ==> forall x :: x in todo ==> Before(reverse, entries[pos].id, x))
    }

    function ID(): int
      requires 0 <= pos < |entries|
      reads this
    {
      entries[pos].id
    }

    constructor (entries: seq<Entry<K>>, less: (K, K) -> bool, key: K, beginID: int, reverse: bool)
      requires StrictTotal(less) && Sorted(EntryOrder(less), entries)
      ensures Valid() && !seeked && this.reverse == reverse
      ensures todo == set e | e in entries && e.key == key && InRange(reverse, beginID, e.id) :: e.id
    {
      this.entries, this.less, this.key, this.beginID, this.reverse := entries, less, key, beginID, reverse;
      pos, seeked := -1, false;
      todo := set e | e in entries && e.key == key && InRange(reverse, beginID, e.id) :: e.id;
      new;
      forall id | id in todo
        ensures id in set i | 0 <= i < |entries| && Matches(i) :: entries[i].id
      {
        var i :| 0 <= i < |entries| && entries[i] == Entry(key, id);
        assert Matches(i);
      }
    }

    // Where the first call lands: at the first entry not below the limit, or just before it.
    method Start()
      requires Valid() && !seeked
      modifies this`pos, this`seeked
      ensures seeked && if reverse then -1 <= pos < |entries| else 0 <= pos <= |entries|
      ensures From(pos) == todo
      ensures 0 <= pos < |entries| && entries[pos].key == key ==> Matches(pos)
      ensures 0 <= pos < |entries| ==>
                if reverse then !less(key, entries[pos].key) else !less(entries[pos].key, key)
    {
      seeked := true;
      var limit := if reverse then if beginID > 0 then Incr64(beginID) else MAX_INT64
                   else if beginID > 0 then beginID else MIN_INT64;
      var target := Entry(key, limit);
      EntryOrderTotal(less);
      SeekSorted(EntryOrder(less), entries, target);
      pos := Seek(EntryOrder(less), entries, target);
      if reverse {
        // Prev, or Last when there is no such entry.
        pos := pos - 1;
      }
      LimitSplits(Seek(EntryOrder(less), entries, target), target);
    }

    // The entries of the key within the limit are those on one side of where the search ends.
    lemma LimitSplits(p: nat, target: Entry<K>)
      requires InOrder() && target.key == key && p <= |entries|
      requires target.id == if reverse then if beginID > 0 then Incr64(beginID) else MAX_INT64
                            else if beginID > 0 then beginID else MIN_INT64
      requires forall i :: 0 <= i < p ==> EntryLess(less, entries[i], target)
      requires forall i :: p <= i < |entries| ==> !EntryLess(less, entries[i], target)
      ensures forall i :: 0 <= i < |entries| && entries[i].key == key ==>
                (InRange(reverse, beginID, entries[i].id) <==> if reverse then i <= p - 1 else p <= i)
    {
    }

    // Entries are in order of key, those of one key in order of id.
    lemma Ordered(i: nat, j: nat)
      requires InOrder() && i < j < |entries|
      ensures entries[i].key == entries[j].key ==> entries[i].id < entries[j].id
      ensures entries[i].key == key && entries[j].key != key ==> less(key, entries[j].key)
      ensures entries[j].key == key && entries[i].key != key ==> less(entries[i].key, key)
      ensures !less(entries[j].key, entries[i].key)
    {
      assert EntryOrder(less)(entries[i], entries[j]);
    }

    // A walk at p that has not passed the key yields p next if p has the key, and nothing otherwise.
    lemma Landing(p: int)
      requires InOrder()
      requires 0 <= p < |entries| ==> if reverse then !less(key, entries[p].key) else !less(entries[p].key, key)
      ensures Matches(p) ==>
        && From(p) == {entries[p].id} + From(if reverse then p - 1 else p + 1)
        && forall x :: x in From(if reverse then p - 1 else p + 1) ==> Before(reverse, entries[p].id, x)
      ensures 0 <= p < |entries| && entries[p].key != key ==> From(p) == {}
    {
      forall i | 0 <= i < |entries| && Matches(i) && i != p && 0 <= p < |entries| && (if reverse then i <= p else p <= i)
        ensures entries[p].key == key && Before(reverse, entries[p].id, entries[i].id)
      {
        if i < p {
          Ordered(i, p);
        } else {
          Ordered(p, i);
        }
      }
    }

    // One step on from an entry of the key.
    lemma StepOn(p: int)
      requires InOrder() && Matches(p)
      ensures var q := if reverse then p - 1 else p + 1;
              0 <= q < |entries| ==>
                && (if reverse then !less(key, entries[q].key) else !less(entries[q].key, key))
                && (entries[q].key == key ==> Matches(q))
    {
      var q := if reverse then p - 1 else p + 1;
      if 0 <= q < |entries| {
        if reverse {
          Ordered(q, p);
        } else {
          Ordered(p, q);
        }
      }
    }

    /** Yields the next id in order, or reports that there is none. */
    method Next() returns (ok: bool)
      requires Valid()
      modifies this
      ensures ok <==> old(todo) != {}
      ensures ok ==> Valid() && seeked && 0 <= pos < |entries| && old(todo) == {ID()} + todo
      ensures ok ==> forall x :: x in todo ==> Before(reverse, ID(), x)
    {
      if !seeked {
        Start();
      } else {
        StepOn(pos);
        pos := if reverse then pos - 1 else pos + 1;
      }
      assert From(pos) == todo;
      Landing(pos);
      if pos < 0 || pos >= |entries| {
        return false;
      }
      ok := if reverse then !less(entries[pos].key, key) else !less(key, entries[pos].key);
      todo := From(if reverse then pos - 1 else pos + 1);
    }
  }

  /** What container/heap promises of Pop: an element of the heap that is first in the order. */
  method PopFirst<K(!new)>(iters: set<IndexIter<K>>, reverse: bool) returns (first: IndexIter<K>)
    requires iters != {} && forall it :: it in iters ==> 0 <= it.pos < |it.entries|
    ensures first in iters
    ensures forall it :: it in iters ==> !Before(reverse, it.ID(), first.ID())
  {
    first :| first in iters;
    var others := iters - {first};
    while others != {}
      invariant first in iters && others <= iters
      invariant forall it :: it in iters - others ==> !Before(reverse, it.ID(), first.ID())
    {
      var it :| it in others;
      if Before(reverse, it.ID(), first.ID()) {
        first := it;
      }
      others := others - {it};
    }
  }

  /** The rows of a lookup: the iterators of the keys, merged, and the objects they point at. */
  class IndexRows<K(==, !new), T> {
    const objects: map<int, T>
    const reverse: bool
    var iters: set<IndexIter<K>>
    var current: int
    ghost var owner: map<int, IndexIter<K>>  // the iterator that has an id still to be yielded

    ghost predicate Usable(it: IndexIter<K>)
      reads it
    {
      && it.Valid() && it.seeked && it.reverse == reverse && 0 <= it.pos < |it.entries|
      && forall x :: x in it.todo ==> Before(reverse, it.ID(), x)
    }

    ghost predicate Has(it: IndexIter<K>, id: int)
      requires 0 <= it.pos < |it.entries|
      reads it
    {
      id == it.ID() || id in it.todo
    }

    ghost predicate Valid()
      reads this, iters
    {
      && (forall it :: it in iters ==> Usable(it))
      && (forall it, id :: it in iters && Has(it, id) ==> id in owner && owner[id] == it)
      && (forall id :: id in owner ==> owner[id] in iters && Has(owner[id], id))
    }

    /** The ids the iterators have still to yield. */
    ghost function Left(): set<int>
      reads this
    {
      owner.Keys
    }

    constructor (objects: map<int, T>, reverse: bool)
      ensures Valid() && iters == {} && Left() == {} && this.objects == objects && this.reverse == reverse
    {
      this.objects, this.reverse := objects, reverse;
      current, owner, iters := 0, map[], {};
    }

    // Takes in the iterator of one more key, if it has anything to yield.
    method Add(it: IndexIter<K>)
      requires Valid() && it.Valid() && !it.seeked && it.reverse == reverse && it !in iters
      requires it.todo !! Left()
      modifies this, it
      ensures Valid() && Left() == old(Left()) + old(it.todo)
      ensures iters <= old(iters) + {it}
    {
      hide IndexIter.Valid;
      ghost var todo := it.todo;
      var ok := it.Next();
      if ok {
        assert forall id :: Has(it, id) <==> id in todo;
        iters := iters + {it};
        owner := map x | x in owner.Keys + todo :: if x in todo then it else owner[x];
      }
    }

    // The iterator on top of the heap stands on the first id left.
    method Top() returns (it: IndexIter<K>)
      requires Valid() && iters != {}
      ensures it in iters
      ensures forall x :: x in Left() ==> x == it.ID() || Before(reverse, it.ID(), x)
    {
      it := PopFirst(iters, reverse);
      forall x | x in Left()
        ensures x == it.ID() || Before(reverse, it.ID(), x)
      {
        var a := owner[x];
        assert !Before(reverse, a.ID(), it.ID());
      }
    }

    // Pops the first iterator, moves it on, and puts it back if it has more.
    method Advance() returns (id: int)
      requires Valid() && iters != {}
      modifies this, iters
      ensures Valid() && iters <= old(iters)
      ensures current == id && id in old(Left()) && Left() == old(Left()) - {id}
      ensures forall x :: x in Left() ==> Before(reverse, id, x)
    {
      hide IndexIter.Valid;
      var it := Top();
      id := it.ID();
      assert Has(it, id) && owner[id] == it;
      ghost var todo := it.todo;
      assert id !in todo;
      var more := it.Next();
      if more {
        assert forall x :: Has(it, x) <==> x in todo;
      } else {
        iters := iters - {it};
      }
      owner := owner - {id};
      current := id;
    }

    /** Stands on the next object in order whose entry is left, passing over entries without object. */
    method Next() returns (ok: bool)
      requires Valid()
      modifies this, iters
      ensures Valid() && iters <= old(iters)
      ensures ok <==> exists x :: x in old(Left()) && x in objects
      ensures ok ==> current in old(Left()) && current in objects
      ensures ok ==> forall x :: x in Left() <==> x in old(Left()) && Before(reverse, current, x)
      ensures ok ==> forall x :: x in old(Left()) && x in objects ==> x == current || Before(reverse, current, x)
    {
      hide Valid;
      while iters != {}
        invariant Valid() && iters <= old(iters) && Left() <= old(Left())
        invariant forall x :: x in old(Left()) && x !in Left() ==> x !in objects
        invariant forall x, y :: x in old(Left()) && x !in Left() && y in Left() ==> Before(reverse, x, y)
        decreases |Left()|
      {
        ghost var before := Left();
        var id := Advance();
        assert |Left()| < |before|;
        if id in objects {
          return true;
        }
      }
      EmptyHeap();
      ok := false;
    }

    lemma EmptyHeap()
      requires Valid() && iters == {}
      ensures Left() == {}
    {
      assert forall id :: id !in owner;
    }
  }

  /** btreeIndexFind and btreeIndexReverseFind. */
  method Find<K(!new), T>(
      index: BTreeIndex<K, T>, objects: map<int, T>, keys: seq<K>, beginID: int, reverse: bool)
    returns (rows: IndexRows<K, T>)
    requires index.Valid()
    requires forall i, j :: 0 <= i < j < |keys| ==> keys[i] != keys[j]
    requires forall e, f :: e in index.m && f in index.m && e.id == f.id ==> e == f
    ensures fresh(rows) && fresh(rows.iters) && rows.Valid() && rows.objects == objects && rows.reverse == reverse
    ensures rows.Left() == set e | e in index.m && e.key in keys && InRange(reverse, beginID, e.id) :: e.id
  {
    hide IndexRows.Valid, BTreeIndex.Valid, IndexIter.Valid;
    rows := new IndexRows(objects, reverse);
    for i := 0 to |keys|
      invariant fresh(rows) && fresh(rows.iters) && rows.Valid()
      invariant rows.objects == objects && rows.reverse == reverse
      invariant rows.Left() == set e | e in index.m && e.key in keys[..i] && InRange(reverse, beginID, e.id) :: e.id
    {
      var it := index.Find(keys[i], beginID, reverse);
      rows.Add(it);
    }
    assert keys[..|keys|] == keys;
  }

  /** Collects all rows, as CollectRows does. */
  method CollectRows<K(!new), T>(rows: IndexRows<K, T>) returns (ids: seq<int>)
    requires rows.Valid()
    modifies rows, rows.iters
    ensures forall i, j :: 0 <= i < j < |ids| ==> Before(rows.reverse, ids[i], ids[j])
    ensures forall id :: id in ids <==> id in old(rows.Left()) && id in rows.objects
  {
    hide IndexRows.Valid;
    ids := [];
    ghost var mine := rows.iters;
    ghost var all := rows.Left();
    while true
      invariant rows.Valid() && rows.iters <= mine
      invariant forall i, j :: 0 <= i < j < |ids| ==> Before(rows.reverse, ids[i], ids[j])
      invariant rows.Left() <= all
      invariant forall id :: id in ids ==> id in all && id in rows.objects
      invariant forall id :: id in all && id in rows.objects ==> id in ids || id in rows.Left()
      invariant forall id, x :: id in ids && x in rows.Left() ==> Before(rows.reverse, id, x)
      decreases |rows.Left()|
    {
      ghost var before := rows.Left();
      var ok := rows.Next();
      if !ok {
        return;
      }
      assert rows.current in before && rows.current !in rows.Left();
      assert forall x :: x in rows.Left() ==> x in before;
      SmallerSet(rows.Left(), before, rows.current);
      ids := ids + [rows.current];
    }
  }

  // ---- What a lookup means ----

  /** The index holds exactly one entry for every object that has a key. */
  ghost predicate Agrees<K(!new), T>(entries: set<Entry<K>>, key: T -> Option<K>, objects: map<int, T>) {
    forall e :: e in entries <==> e.id in objects && key(objects[e.id]) == Some(e.key)
  }

  ghost function Entries<K(!new), T>(index: BTreeIndex<K, T>): set<Entry<K>>
    reads index
  {
    set e | e in index.m
  }

  /** Filter and sort over all objects. */
  ghost predicate IsSelection<K, T>(
      ids: seq<int>, objects: map<int, T>, key: T -> Option<K>, keys: seq<K>, beginID: int, reverse: bool)
  {
    && (forall i, j :: 0 <= i < j < |ids| ==> Before(reverse, ids[i], ids[j]))
    && forall id :: id in ids <==>
         id in objects && key(objects[id]).Some? && key(objects[id]).value in keys && InRange(reverse, beginID, id)
  }

  /** There is only one such list. */
  lemma SortedUnique(a: seq<int>, b: seq<int>, reverse: bool)
    requires forall i, j :: 0 <= i < j < |a| ==> Before(reverse, a[i], a[j])
    requires forall i, j :: 0 <= i < j < |b| ==> Before(reverse, b[i], b[j])
    requires forall x :: x in a <==> x in b
    ensures a == b
  {
    forall i | 0 <= i < |a|
      ensures a[i] in b
    {
      var x := a[i];
      assert x in a;
    }
    forall i | 0 <= i < |b|
      ensures b[i] in a
    {
      var x := b[i];
      assert x in b;
    }
    SameSorted((x, y) => Before(reverse, x, y), a, b);
  }

  /** A lookup over distinct keys in an index that agrees with the objects is filter and sort. */
  method FindAll<K(!new), T(!new)>(
      index: BTreeIndex<K, T>, objects: map<int, T>, keys: seq<K>, beginID: int, reverse: bool)
    returns (ids: seq<int>)
    requires index.Valid() && Agrees(Entries(index), index.key, objects)
    requires forall i, j :: 0 <= i < j < |keys| ==> keys[i] != keys[j]
    ensures IsSelection(ids, objects, index.key, keys, beginID, reverse)
  {
    var rows := Find(index, objects, keys, beginID, reverse);
    ghost var left := rows.Left();
    ids := CollectRows(rows);
    forall id
      ensures id in left && id in objects <==>
        id in objects && index.key(objects[id]).Some? && index.key(objects[id]).value in keys &&
        InRange(reverse, beginID, id)
    {
      if id in objects && index.key(objects[id]).Some? {
        assert Entry(index.key(objects[id]).value, id) in Entries(index);
      }
    }
  }
}
