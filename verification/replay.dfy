/** What events do to a cached copy of a table: the object map and one index over it
    (internal/models/cached_store.go, the on*Object methods). */
module Replay {
  import opened Options
  import opened EventStore
  import opened BTreeIndex

  /** The object map and the entries of an index. */
  datatype Mirror<K(==), T> = Mirror(objects: map<int, T>, entries: set<Entry<K>>)

  function EntryOf<K(==), T>(key: T -> Option<K>, id: int, value: T): set<Entry<K>> {
    match key(value)
    case None => {}
    case Some(k) => {Entry(k, id)}
  }

  // onCreateObject registers the object without looking at what the map held before.
  function OnCreate<K(==), T>(m: Mirror<K, T>, key: T -> Option<K>, id: int, value: T): Mirror<K, T> {
    Mirror(m.objects[id := value], m.entries + EntryOf(key, id, value))
  }

  function OnDelete<K(==), T>(m: Mirror<K, T>, key: T -> Option<K>, id: int): Mirror<K, T> {
    if id in m.objects then Mirror(m.objects - {id}, m.entries - EntryOf(key, id, m.objects[id])) else m
  }

  function OnUpdate<K(==), T>(m: Mirror<K, T>, key: T -> Option<K>, id: int, value: T): Mirror<K, T> {
    OnCreate(OnDelete(m, key, id), key, id, value)
  }

  function Apply<K(==), T>(m: Mirror<K, T>, key: T -> Option<K>, e: Event<T>): Mirror<K, T> {
    match e.kind
    case Create => OnCreate(m, key, e.objectID, e.value)
    case Update => OnUpdate(m, key, e.objectID, e.value)
    case Delete => OnDelete(m, key, e.objectID)
    case Unknown(_) => m
  }

  function ApplyAll<K(==), T>(m: Mirror<K, T>, key: T -> Option<K>, es: seq<Event<T>>): Mirror<K, T> {
    if es == [] then m else Apply(ApplyAll(m, key, es[..|es| - 1]), key, es[|es| - 1])
  }

  lemma {:induction false} ApplyAllConcat<K, T>(m: Mirror<K, T>, key: T -> Option<K>, a: seq<Event<T>>, b: seq<Event<T>>)
    ensures ApplyAll(m, key, a + b) == ApplyAll(ApplyAll(m, key, a), key, b)
  {
    if b == [] {
      assert a + b == a;
    } else {
      assert (a + b)[..|a + b| - 1] == a + b[..|b| - 1];
      ApplyAllConcat(m, key, a, b[..|b| - 1]);
    }
  }

  // ---- The table: the same events on rows alone ----

  function ApplyRow<T>(table: map<int, T>, e: Event<T>): map<int, T> {
    match e.kind
    case Create => table[e.objectID := e.value]
    case Update => table[e.objectID := e.value]
    case Delete => table - {e.objectID}
    case Unknown(_) => table
  }

  function Table<T>(base: map<int, T>, es: seq<Event<T>>): map<int, T> {
    if es == [] then base else ApplyRow(Table(base, es[..|es| - 1]), es[|es| - 1])
  }

  /** The table after one more event. */
  lemma TableAfter<T>(base: map<int, T>, es: seq<Event<T>>, e: Event<T>, o: int)
    ensures var was, now := Table(base, es), Table(base, es + [e]);
            && (o != e.objectID ==> Lookup(now, o) == Lookup(was, o))
            && (e.kind.Create? || e.kind.Update? ==> Lookup(now, e.objectID) == Some(e.value))
            && (e.kind.Delete? ==> e.objectID !in now)
  {
    assert (es + [e])[..|es|] == es;
  }

  // ---- One object at a time ----

  /** What a mirror says of one object: its value, and the keys under which the index lists it. */
  datatype View<K(==), T> = View(val: Option<T>, keys: set<K>)

  ghost function ViewOf<K, T>(m: Mirror<K, T>, o: int): View<K, T> {
    View(Lookup(m.objects, o), set e | e in m.entries && e.id == o :: e.key)
  }

  function KeyOf<K(==), T>(key: T -> Option<K>, val: Option<T>): set<K> {
    if val.Some? && key(val.value).Some? then {key(val.value).value} else {}
  }

  /** The index lists the object under its own key and nothing else. */
  ghost predicate Exact<K, T>(v: View<K, T>, key: T -> Option<K>) {
    v.keys == KeyOf(key, v.val)
  }

  function ViewDelete<K(==), T>(v: View<K, T>, key: T -> Option<K>): View<K, T> {
    View(None, v.keys - KeyOf(key, v.val))
  }

  function ViewStep<K(==), T>(v: View<K, T>, key: T -> Option<K>, e: Event<T>): View<K, T> {
    match e.kind
    case Create => View(Some(e.value), v.keys + KeyOf(key, Some(e.value)))
    case Update => View(Some(e.value), ViewDelete(v, key).keys + KeyOf(key, Some(e.value)))
    case Delete => ViewDelete(v, key)
    case Unknown(_) => v
  }

  function ViewFold<K(==), T>(v: View<K, T>, key: T -> Option<K>, es: seq<Event<T>>): View<K, T> {
    if es == [] then v else ViewStep(ViewFold(v, key, es[..|es| - 1]), key, es[|es| - 1])
  }

  function ValueAfter<T>(val: Option<T>, es: seq<Event<T>>): Option<T> {
    if es == [] then val
    else match es[|es| - 1].kind
      case Create => Some(es[|es| - 1].value)
      case Update => Some(es[|es| - 1].value)
      case Delete => None
      case Unknown(_) => ValueAfter(val, es[..|es| - 1])
  }

  /** The events of one object, in order. */
  function Of<T>(es: seq<Event<T>>, o: int): seq<Event<T>> {
    if es == [] then []
    else Of(es[..|es| - 1], o) + if es[|es| - 1].objectID == o then [es[|es| - 1]] else []
  }

  lemma {:induction false} OfConcat<T>(a: seq<Event<T>>, b: seq<Event<T>>, o: int)
    ensures Of(a + b, o) == Of(a, o) + Of(b, o)
  {
    if b == [] {
      assert a + b == a;
    } else {
      assert (a + b)[..|a + b| - 1] == a + b[..|b| - 1];
      OfConcat(a, b[..|b| - 1], o);
    }
  }

  lemma {:induction false} OfMember<T>(es: seq<Event<T>>, o: int, e: Event<T>)
    ensures e in Of(es, o) <==> e in es && e.objectID == o
  {
    if es != [] {
      OfMember(es[..|es| - 1], o, e);
      assert es == es[..|es| - 1] + [es[|es| - 1]];
    }
  }

  lemma StepProjects<K, T>(m: Mirror<K, T>, key: T -> Option<K>, e: Event<T>, o: int)
    ensures e.objectID == o ==> ViewOf(Apply(m, key, e), o) == ViewStep(ViewOf(m, o), key, e)
    ensures e.objectID != o ==> ViewOf(Apply(m, key, e), o) == ViewOf(m, o)
  {
    var m' := Apply(m, key, e);
    var was, now := ViewOf(m, o), ViewOf(m', o);
    forall k
      ensures e.objectID != o ==> (k in now.keys <==> k in was.keys)
      ensures e.objectID == o ==> (k in now.keys <==> k in ViewStep(was, key, e).keys)
    {
      assert k in now.keys <==> Entry(k, o) in m'.entries;
      assert k in was.keys <==> Entry(k, o) in m.entries;
    }
  }

  /** Replaying events on a mirror does to each object what its own events do. */
  lemma {:induction false} FoldProjects<K, T>(m: Mirror<K, T>, key: T -> Option<K>, es: seq<Event<T>>, o: int)
    ensures ViewOf(ApplyAll(m, key, es), o) == ViewFold(ViewOf(m, o), key, Of(es, o))
  {
    if es != [] {
      var front, last := es[..|es| - 1], es[|es| - 1];
      FoldProjects(m, key, front, o);
      StepProjects(ApplyAll(m, key, front), key, last, o);
      if last.objectID == o {
        assert Of(es, o)[..|Of(es, o)| - 1] == Of(front, o);
      } else {
        assert Of(es, o) == Of(front, o);
      }
    }
  }

  lemma {:induction false} TableProjects<T>(base: map<int, T>, es: seq<Event<T>>, o: int)
    ensures Lookup(Table(base, es), o) == ValueAfter(Lookup(base, o), Of(es, o))
  {
    if es != [] {
      var front, last := es[..|es| - 1], es[|es| - 1];
      TableProjects(base, front, o);
      assert Table(base, es) == ApplyRow(Table(base, front), last);
      if last.objectID == o {
        assert Of(es, o) == Of(front, o) + [last];
        assert Of(es, o)[..|Of(es, o)| - 1] == Of(front, o);
      } else {
        assert Of(es, o) == Of(front, o);
        assert Lookup(Table(base, es), o) == Lookup(Table(base, front), o);
      }
    }
  }

  lemma {:induction false} ValueAfterConcat<T>(val: Option<T>, a: seq<Event<T>>, b: seq<Event<T>>)
    ensures ValueAfter(val, a + b) == ValueAfter(ValueAfter(val, a), b)
  {
    if b == [] {
      assert a + b == a;
    } else {
      assert (a + b)[..|a + b| - 1] == a + b[..|b| - 1];
      ValueAfterConcat(val, a, b[..|b| - 1]);
    }
  }

  /** The value after a replay is that of the events, whatever the index holds. */
  lemma {:induction false} FoldValue<K, T>(v: View<K, T>, key: T -> Option<K>, es: seq<Event<T>>)
    ensures ViewFold(v, key, es).val == ValueAfter(v.val, es)
  {
    if es != [] {
      FoldValue(v, key, es[..|es| - 1]);
    }
  }

  /** The life of one object: created at most once, as its first event and only if it was not there
      before; nothing follows its deletion. */
  ghost predicate Life<T>(val: Option<T>, es: seq<Event<T>>) {
    && (forall i :: 0 <= i < |es| ==> !es[i].kind.Unknown?)
    && (forall i :: 0 <= i < |es| && es[i].kind.Create? ==> i == 0 && val.None?)
    && (forall i :: 0 <= i < |es| && es[i].kind.Delete? ==> i == |es| - 1)
  }

  /** Replaying, on top of a snapshot, the events b the snapshot already contains: the index may list
      the snapshot's key besides the replayed one until the replay has passed the snapshot. */
  lemma {:induction false} StaleOnlyUnderSnapshotKey<K, T>(
      snap: Option<T>, key: T -> Option<K>, val: Option<T>, a: seq<Event<T>>, b: seq<Event<T>>)
    requires forall i :: 0 <= i < |a + b| && (a + b)[i].kind.Create? ==> i == 0 && val.None?
    requires forall i :: 0 <= i < |a + b| ==> !(a + b)[i].kind.Unknown?
    ensures var v := ViewFold(View(snap, KeyOf(key, snap)), key, b);
            KeyOf(key, v.val) <= v.keys <= KeyOf(key, v.val) + KeyOf(key, snap)
  {
    if b != [] {
      var front, last := b[..|b| - 1], b[|b| - 1];
      assert a + b == (a + front) + [last];
      assert forall i :: 0 <= i < |a + front| ==> (a + b)[i] == (a + front)[i];
      StaleOnlyUnderSnapshotKey(snap, key, val, a, front);
      assert last == (a + b)[|a + b| - 1];
    }
  }

  lemma {:induction false} ExactStaysExact<K, T>(v: View<K, T>, key: T -> Option<K>, es: seq<Event<T>>)
    requires Exact(v, key) && Life(v.val, es)
    ensures Exact(ViewFold(v, key, es), key)
  {
    if es != [] {
      ExactStaysExact(v, key, es[..|es| - 1]);
    }
  }

  // ---- Exactly when a replay leaves the right entry ----

  /** The keys of the values that the events bring. */
  function KeysOf<K(==), T>(key: T -> Option<K>, es: seq<Event<T>>): set<K> {
    if es == [] then {}
    else
      var last := es[|es| - 1];
      KeysOf(key, es[..|es| - 1]) +
      if last.kind.Create? || last.kind.Update? then KeyOf(key, Some(last.value)) else {}
  }

  /** The keys that the first event does not take away. */
  function LeftBy<K(==), T>(v: View<K, T>, key: T -> Option<K>, e: Event<T>): set<K> {
    if e.kind.Create? then v.keys else v.keys - KeyOf(key, v.val)
  }

  lemma {:induction false} KeysAfter<K, T>(v: View<K, T>, key: T -> Option<K>, es: seq<Event<T>>)
    requires es != [] && forall i :: 0 <= i < |es| ==> !es[i].kind.Unknown?
    requires forall i :: 0 <= i < |es| && es[i].kind.Create? ==> i == 0
    requires forall i :: 0 <= i < |es| && es[i].kind.Delete? ==> i == |es| - 1
    ensures var w := ViewFold(v, key, es);
            && w.keys == (LeftBy(v, key, es[0]) - KeysOf(key, es)) + KeyOf(key, w.val)
            && (w.val.Some? ==> KeyOf(key, w.val) <= KeysOf(key, es))
  {
    var front, last := es[..|es| - 1], es[|es| - 1];
    if front == [] {
      assert ViewFold(v, key, front) == v;
      assert KeysOf(key, front) == {};
    } else {
      KeysAfter(v, key, front);
      assert front[0] == es[0];
      assert !front[|front| - 1].kind.Delete?;
      LastIsAlive(v, key, front);
    }
  }

  lemma LastIsAlive<K, T>(v: View<K, T>, key: T -> Option<K>, es: seq<Event<T>>)
    requires es != [] && (es[|es| - 1].kind.Create? || es[|es| - 1].kind.Update?)
    ensures ViewFold(v, key, es).val == Some(es[|es| - 1].value)
  {
  }

  /** Replaying events leaves the object listed under exactly its key if and only if every key that the
      first of them does not take away is the key of one of the values they bring. */
  lemma ExactAfterReplay<K, T>(v: View<K, T>, key: T -> Option<K>, es: seq<Event<T>>)
    requires es != [] && forall i :: 0 <= i < |es| ==> !es[i].kind.Unknown?
    requires forall i :: 0 <= i < |es| && es[i].kind.Create? ==> i == 0
    requires forall i :: 0 <= i < |es| && es[i].kind.Delete? ==> i == |es| - 1
    ensures Exact(ViewFold(v, key, es), key) <==> LeftBy(v, key, es[0]) <= KeysOf(key, es)
  {
    KeysAfter(v, key, es);
  }

  /** The object's events are a, b, c: a was visible when the position was fixed, a and b when the
      snapshot was taken. Replaying b and c on the snapshot gives the value after all of them, and an
      index that lists the object under exactly its key. */
  lemma ReplayOverNewerSnapshot<K, T>(
      val: Option<T>, key: T -> Option<K>, a: seq<Event<T>>, b: seq<Event<T>>, c: seq<Event<T>>)
    requires Life(val, a + b + c)
    ensures var snap := ValueAfter(val, a + b);
            var v := ViewFold(View(snap, KeyOf(key, snap)), key, b + c);
            v.val == ValueAfter(val, a + b + c) && Exact(v, key)
  {
    var snap := ValueAfter(val, a + b);
    var start := View(snap, KeyOf(key, snap));
    var mid := ViewFold(start, key, b);
    var all := a + b + c;
    assert forall i :: 0 <= i < |a + b| ==> (a + b)[i] == all[i];
    assert forall i :: 0 <= i < |b| ==> b[i] == all[|a| + i];
    assert forall i :: 0 <= i < |c| ==> c[i] == all[|a + b| + i];
    StaleOnlyUnderSnapshotKey(snap, key, val, a, b);
    FoldValue(start, key, b);
    SnapshotIsPassed(val, a, b);
    assert mid.val == snap && Exact(mid, key);
    FoldConcat(start, key, b, c);
    if |a + b| == 0 {
      assert a + b == [];
    }
    ExactStaysExact(mid, key, c);
    FoldValue(start, key, b + c);
    ValueAfterConcat(snap, b, c);
    ValueAfterConcat(val, a + b, c);
  }

  // Replaying what the snapshot has seen ends at the snapshot's value.
  lemma SnapshotIsPassed<T>(val: Option<T>, a: seq<Event<T>>, b: seq<Event<T>>)
    requires forall i :: 0 <= i < |b| ==> !b[i].kind.Unknown?
    ensures ValueAfter(ValueAfter(val, a + b), b) == ValueAfter(val, a + b)
  {
    if b != [] {
      assert (a + b)[|a + b| - 1] == b[|b| - 1];
    }
  }

  lemma {:induction false} FoldConcat<K, T>(v: View<K, T>, key: T -> Option<K>, a: seq<Event<T>>, b: seq<Event<T>>)
    ensures ViewFold(v, key, a + b) == ViewFold(ViewFold(v, key, a), key, b)
  {
    if b == [] {
      assert a + b == a;
    } else {
      assert (a + b)[..|a + b| - 1] == a + b[..|b| - 1];
      FoldConcat(v, key, a, b[..|b| - 1]);
    }
  }
}
