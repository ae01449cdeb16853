/** Writers: each changes rows and appends events in one transaction (createObjectEvent in
    internal/models/cached_store.go). A row stays locked from its change to the end of the transaction;
    event ids are taken from one counter when the event is inserted, so transactions publish them out of
    order and aborted ones leave gaps. */
module Transactions {
  import opened Options
  import opened EventStore
  import opened EventDelivery
  import opened Replay
  import opened Replica

  datatype Write<T> = Write(kind: EventKind, objectID: int, value: T)

  datatype Tx<T> = Tx(
    rows: map<int, Option<T>>,   // the rows it has locked, as it sees them
    events: seq<Event<T>>,       // inserted, not yet visible
    pending: Option<Write<T>>)   // a row changed whose event is not inserted yet

  datatype DB<T> = DB(
    trace: seq<Event<T>>,        // committed events in commit order
    nextEvent: int,
    used: set<int>,              // object ids ever taken
    open: map<int, Tx<T>>)

  datatype Action<T> =
    | Begin(tx: int)
    | ChangeRow(tx: int, write: Write<T>)
    | InsertEvent(tx: int)
    | Commit(tx: int)
    | Abort(tx: int)

  // The row as the transaction sees it.
  function Seen<T>(base: map<int, T>, db: DB<T>, t: Tx<T>, o: int): Option<T> {
    if o in t.rows then t.rows[o] else Lookup(Table(base, db.trace), o)
  }

  function After<T>(w: Write<T>): Option<T> {
    if w.kind.Delete? then None else Some(w.value)
  }

  /** Creating takes an id that was never used; updating and deleting need the row. */
  predicate Allowed<T>(base: map<int, T>, db: DB<T>, t: Tx<T>, w: Write<T>) {
    match w.kind
    case Create => w.objectID !in db.used
    case Update => Seen(base, db, t, w.objectID).Some?
    case Delete => Seen(base, db, t, w.objectID).Some?
    case Unknown(_) => false
  }

  ghost predicate Does<T>(base: map<int, T>, db: DB<T>, a: Action<T>, db': DB<T>) {
    if a.Begin? then
      a.tx !in db.open && db' == db.(open := db.open[a.tx := Tx(map[], [], None)])
    else
      && a.tx in db.open
      && var t := db.open[a.tx];
      match a
      case ChangeRow(tx, w) =>
        && t.pending.None? && Allowed(base, db, t, w)
        && (forall u :: u in db.open && u != tx ==> w.objectID !in db.open[u].rows)
        && db' == db.(used := db.used + {w.objectID},
                      open := db.open[tx := t.(rows := t.rows[w.objectID := After(w)], pending := Some(w))])
      case InsertEvent(tx) =>
        && t.pending.Some?
        && var w := t.pending.value;
        && var e := Event(db.nextEvent, w.kind, w.objectID, w.value);
        && db' == db.(nextEvent := db.nextEvent + 1,
                      open := db.open[tx := t.(events := t.events + [e], pending := None)])
      case Commit(tx) =>
        && t.pending.None?
        && db' == db.(trace := db.trace + t.events, open := db.open - {tx})
      case Abort(tx) => db' == db.(open := db.open - {tx})
  }

  ghost predicate Start<T(!new)>(base: map<int, T>, db: DB<T>) {
    db.trace == [] && db.nextEvent >= 1 && base.Keys <= db.used && db.open == map[]
  }

  // ---- What every action keeps ----

  // The events of an object as they would be if the transaction committed now.
  function History<T>(db: DB<T>, t: Tx<T>, o: int): seq<Event<T>> {
    Of(db.trace + t.events, o)
  }

  ghost predicate Extends<T(!new)>(base: map<int, T>, trace: seq<Event<T>>, es: seq<Event<T>>) {
    WellFormed(base, trace + es)
  }

  /** One open transaction: it could commit now; it holds the rows it wrote; it sees them as its own
      events leave them. */
  ghost predicate TxInv<T(!new)>(base: map<int, T>, db: DB<T>, t: Tx<T>) {
    && Extends(base, db.trace, t.events)
    && (forall e :: e in t.events ==> e.id < db.nextEvent && e.objectID in t.rows)
    && t.rows.Keys <= db.used
    && (t.pending.Some? ==>
          && t.pending.value.objectID in t.rows && !t.pending.value.kind.Unknown?
          && t.rows[t.pending.value.objectID] == After(t.pending.value)
          && MayFollow(base, t.pending.value, History(db, t, t.pending.value.objectID)))
    && (forall o :: o in t.rows && (t.pending.Some? ==> o != t.pending.value.objectID) ==>
          t.rows[o] == ValueAfter(Lookup(base, o), History(db, t, o)))
  }

  // The write may be the next event of its object.
  ghost predicate MayFollow<T>(base: map<int, T>, w: Write<T>, es: seq<Event<T>>) {
    if w.kind.Create? then es == [] && w.objectID !in base
    else es != [] ==> !es[|es| - 1].kind.Delete?
  }

  ghost predicate DBInv<T(!new)>(base: map<int, T>, db: DB<T>) {
    && WellFormed(base, db.trace) && base.Keys <= db.used && db.nextEvent >= 1
    && (forall e :: e in db.trace ==> e.id < db.nextEvent && e.objectID in db.used)
    && (forall t :: t in db.open ==> TxInv(base, db, db.open[t]))
    && (forall t, u :: t in db.open && u in db.open && t != u ==> Apart(db.open[t], db.open[u]))
  }

  // No two transactions hold the same row, and their events have different ids.
  ghost predicate Apart<T>(t: Tx<T>, u: Tx<T>) {
    && t.rows.Keys !! u.rows.Keys
    && forall e, f :: e in t.events && f in u.events ==> e.id != f.id
  }

  // Inserting the pending event.
  lemma InsertExtends<T(!new)>(base: map<int, T>, es: seq<Event<T>>, e: Event<T>)
    requires WellFormed(base, es) && e.id >= 1 && (forall x :: x in es ==> x.id < e.id)
    requires !e.kind.Unknown? && MayFollow(base, Write(e.kind, e.objectID, e.value), Of(es, e.objectID))
    ensures WellFormed(base, es + [e])
  {
    forall i | 0 <= i < |es|
      ensures es[i].id < e.id
    {
      assert es[i] in es;
    }
    forall o
      ensures Ascending(Of(es + [e], o)) && Life(Lookup(base, o), Of(es + [e], o))
    {
      InsertLife(base, es, e, o);
    }
  }

  lemma InsertLife<T(!new)>(base: map<int, T>, es: seq<Event<T>>, e: Event<T>, o: int)
    requires WellFormed(base, es) && (forall x :: x in es ==> x.id < e.id)
    requires !e.kind.Unknown? && MayFollow(base, Write(e.kind, e.objectID, e.value), Of(es, e.objectID))
    ensures Ascending(Of(es + [e], o)) && Life(Lookup(base, o), Of(es + [e], o))
  {
    assert (es + [e])[..|es|] == es;
    var was := Of(es, o);
    assert Ascending(was) && Life(Lookup(base, o), was);
    forall i | 0 <= i < |was|
      ensures was[i].id < e.id
    {
      var x := was[i];
      assert x in was;
      OfMember(es, o, x);
    }
  }

  /** Two extensions on different objects can be made one after the other. */
  lemma DisjointExtensions<T(!new)>(base: map<int, T>, trace: seq<Event<T>>, es: seq<Event<T>>, fs: seq<Event<T>>)
    requires WellFormed(base, trace + es) && WellFormed(base, trace + fs)
    requires forall e, f :: e in es && f in fs ==> e.objectID != f.objectID && e.id != f.id
    ensures WellFormed(base, trace + es + fs)
  {
    var all := trace + es + fs;
    forall i, j | 0 <= i < j < |all|
      ensures all[i].id != all[j].id
    {
      DistinctAt(trace, es, fs, i, j);
    }
    forall i | 0 <= i < |all|
      ensures all[i].id >= 1
    {
      if i < |trace + es| {
        assert all[i] == (trace + es)[i];
      } else {
        assert all[i] == (trace + fs)[i - |es|];
      }
    }
    forall o
      ensures Ascending(Of(all, o)) && Life(Lookup(base, o), Of(all, o))
    {
      OneSideOnly(trace, es, fs, o);
      assert Ascending(Of(trace + es, o)) && Life(Lookup(base, o), Of(trace + es, o));
      assert Ascending(Of(trace + fs, o)) && Life(Lookup(base, o), Of(trace + fs, o));
    }
  }

  lemma DistinctAt<T>(trace: seq<Event<T>>, es: seq<Event<T>>, fs: seq<Event<T>>, i: nat, j: nat)
    requires Distinct(trace + es) && Distinct(trace + fs) && i < j < |trace + es + fs|
    requires forall e, f :: e in es && f in fs ==> e.id != f.id
    ensures (trace + es + fs)[i].id != (trace + es + fs)[j].id
  {
    var n, m := |trace|, |es|;
    if j < n + m {
      assert (trace + es)[i].id != (trace + es)[j].id;
    } else if i < n || i >= n + m {
      var k := if i < n then i else i - m;
      assert (trace + fs)[k].id != (trace + fs)[j - m].id;
    } else {
      assert es[i - n] in es && fs[j - n - m] in fs;
    }
  }

  lemma NoneOf<T>(es: seq<Event<T>>, o: int)
    requires forall e :: e in es ==> e.objectID != o
    ensures Of(es, o) == []
  {
    if Of(es, o) != [] {
      var e := Of(es, o)[0];
      assert e in Of(es, o);
      OfMember(es, o, e);
    }
  }

  lemma OneSideOnly<T>(trace: seq<Event<T>>, es: seq<Event<T>>, fs: seq<Event<T>>, o: int)
    requires forall e, f :: e in es && f in fs ==> e.objectID != f.objectID
    ensures Of(trace + es + fs, o) == Of(trace + es, o) || Of(trace + es + fs, o) == Of(trace + fs, o)
  {
    OfConcat(trace + es, fs, o);
    OfConcat(trace, es, o);
    OfConcat(trace, fs, o);
    if e :| e in es && e.objectID == o {
      NoneOf(fs, o);
    } else {
      NoneOf(es, o);
    }
  }

  // A commit of one transaction leaves the histories of the rows of another as they are.
  lemma HistoryKept<T>(trace: seq<Event<T>>, es: seq<Event<T>>, fs: seq<Event<T>>, o: int)
    requires forall e :: e in es ==> e.objectID != o
    ensures Of(trace + es + fs, o) == Of(trace + fs, o)
  {
    OfConcat(trace + es, fs, o);
    OfConcat(trace, es, o);
    OfConcat(trace, fs, o);
    NoneOf(es, o);
  }

  lemma CommitKeepsOther<T(!new)>(base: map<int, T>, db: DB<T>, tx: int, other: int, db': DB<T>)
    requires DBInv(base, db) && Does(base, db, Commit(tx), db') && other in db'.open
    ensures TxInv(base, db', db'.open[other])
  {
    var t, u := db.open[tx], db.open[other];
    assert TxInv(base, db, t) && TxInv(base, db, u) && Apart(t, u);
    assert forall e, f :: e in t.events && f in u.events ==> e.objectID != f.objectID;
    DisjointExtensions(base, db.trace, t.events, u.events);
    forall o | o in u.rows
      ensures History(db', u, o) == History(db, u, o)
    {
      HistoryKept(db.trace, t.events, u.events, o);
    }
  }

  lemma CommitKeeps<T(!new)>(base: map<int, T>, db: DB<T>, tx: int, db': DB<T>)
    requires DBInv(base, db) && Does(base, db, Commit(tx), db')
    ensures DBInv(base, db')
  {
    assert TxInv(base, db, db.open[tx]);
    forall other | other in db'.open
      ensures TxInv(base, db', db'.open[other])
    {
      CommitKeepsOther(base, db, tx, other, db');
    }
  }

  // A transaction is not affected by what others do short of committing.
  lemma Unaffected<T(!new)>(base: map<int, T>, db: DB<T>, t: Tx<T>, db': DB<T>)
    requires TxInv(base, db, t)
    requires db'.trace == db.trace && db.nextEvent <= db'.nextEvent && db.used <= db'.used
    ensures TxInv(base, db', t)
  {
    hide WellFormed;
    assert forall o :: History(db', t, o) == History(db, t, o);
  }

  // Replacing one transaction.
  lemma ReplaceOne<T(!new)>(base: map<int, T>, db: DB<T>, tx: int, t': Tx<T>, db': DB<T>)
    requires DBInv(base, db)
    requires db'.trace == db.trace && db'.open == db.open[tx := t']
    requires db.nextEvent <= db'.nextEvent && db.used <= db'.used
    requires TxInv(base, db', t')
    requires forall u :: u in db.open && u != tx ==> Apart(t', db.open[u]) && Apart(db.open[u], t')
    ensures DBInv(base, db')
  {
    hide WellFormed, TxInv, Apart;
    forall u | u in db'.open
      ensures TxInv(base, db', db'.open[u])
    {
      if u != tx {
        Unaffected(base, db, db.open[u], db');
      }
    }
  }

  function Inserted<T>(t: Tx<T>, id: int): Tx<T>
    requires t.pending.Some?
  {
    var w := t.pending.value;
    t.(events := t.events + [Event(id, w.kind, w.objectID, w.value)], pending := None)
  }

  lemma InsertOwn<T(!new)>(base: map<int, T>, db: DB<T>, t: Tx<T>, db': DB<T>)
    requires TxInv(base, db, t) && t.pending.Some? && db.nextEvent >= 1
    requires forall e :: e in db.trace ==> e.id < db.nextEvent
    requires db'.trace == db.trace && db'.used == db.used && db'.nextEvent == db.nextEvent + 1
    ensures TxInv(base, db', Inserted(t, db.nextEvent))
  {
    hide WellFormed;
    var t' := Inserted(t, db.nextEvent);
    var w := t.pending.value;
    var e := Event(db.nextEvent, w.kind, w.objectID, w.value);
    assert db.trace + t'.events == (db.trace + t.events) + [e];
    InsertExtends(base, db.trace + t.events, e);
    forall o
      ensures History(db', t', o) == History(db, t, o) + if e.objectID == o then [e] else []
      ensures e.objectID != o ==> History(db', t', o) == History(db, t, o)
    {
      OfConcat(db.trace + t.events, [e], o);
      assert [e][..0] == [];
    }
  }

  lemma InsertApart<T(!new)>(base: map<int, T>, db: DB<T>, tx: int, db': DB<T>, u: int)
    requires DBInv(base, db) && Does(base, db, InsertEvent(tx), db') && u in db.open && u != tx
    ensures Apart(db'.open[tx], db.open[u]) && Apart(db.open[u], db'.open[tx])
  {
    hide WellFormed, Extends;
    assert TxInv(base, db, db.open[u]) && Apart(db.open[tx], db.open[u]);
  }

  lemma InvOf<T(!new)>(base: map<int, T>, db: DB<T>, tx: int)
    requires DBInv(base, db) && tx in db.open
    ensures TxInv(base, db, db.open[tx]) && db.nextEvent >= 1 && forall e :: e in db.trace ==> e.id < db.nextEvent
  {
  }

  lemma InsertKeeps<T(!new)>(base: map<int, T>, db: DB<T>, tx: int, db': DB<T>)
    requires DBInv(base, db) && Does(base, db, InsertEvent(tx), db')
    ensures DBInv(base, db')
  {
    hide DBInv, TxInv, Apart;
    assert TxInv(base, db, db.open[tx]) && db.nextEvent >= 1 && forall e :: e in db.trace ==> e.id < db.nextEvent by {
      InvOf(base, db, tx);
    }
    InsertOwn(base, db, db.open[tx], db');
    forall u | u in db.open && u != tx
      ensures Apart(db'.open[tx], db.open[u]) && Apart(db.open[u], db'.open[tx])
    {
      InsertApart(base, db, tx, db', u);
    }
    ReplaceOne(base, db, tx, db'.open[tx], db');
  }

  // A row the transaction sees has not been deleted last.
  lemma SeenIsAlive<T(!new)>(base: map<int, T>, db: DB<T>, t: Tx<T>, o: int)
    requires TxInv(base, db, t) && t.pending.None?
    ensures Seen(base, db, t, o) == ValueAfter(Lookup(base, o), History(db, t, o))
    ensures Seen(base, db, t, o).Some? ==>
              History(db, t, o) != [] ==> !History(db, t, o)[|History(db, t, o)| - 1].kind.Delete?
  {
    if o !in t.rows {
      OfConcat(db.trace, t.events, o);
      NoneOf(t.events, o);
      TableProjects(base, db.trace, o);
    }
  }

  lemma ChangeOwn<T(!new)>(base: map<int, T>, db: DB<T>, tx: int, w: Write<T>, db': DB<T>)
    requires DBInv(base, db) && Does(base, db, ChangeRow(tx, w), db')
    ensures TxInv(base, db', db'.open[tx])
  {
    hide WellFormed, Apart;
    var t, t' := db.open[tx], db'.open[tx];
    assert TxInv(base, db, t);
    SeenIsAlive(base, db, t, w.objectID);
    if w.kind.Create? {
      assert forall e :: e in db.trace + t.events ==> e.objectID in db.used;
      NoneOf(db.trace + t.events, w.objectID);
    }
    assert forall o :: History(db', t', o) == History(db, t, o);
  }

  lemma ChangeKeeps<T(!new)>(base: map<int, T>, db: DB<T>, tx: int, w: Write<T>, db': DB<T>)
    requires DBInv(base, db) && Does(base, db, ChangeRow(tx, w), db')
    ensures DBInv(base, db')
  {
    hide TxInv, WellFormed;
    ChangeOwn(base, db, tx, w, db');
    forall u | u in db.open && u != tx
      ensures Apart(db'.open[tx], db.open[u]) && Apart(db.open[u], db'.open[tx])
    {
      assert Apart(db.open[tx], db.open[u]) && Apart(db.open[u], db.open[tx]);
    }
    ReplaceOne(base, db, tx, db'.open[tx], db');
  }

  lemma BeginKeeps<T(!new)>(base: map<int, T>, db: DB<T>, tx: int, db': DB<T>)
    requires DBInv(base, db) && Does(base, db, Begin(tx), db')
    ensures DBInv(base, db')
  {
    hide TxInv, WellFormed;
    EmptyTx(base, db');
    ReplaceOne(base, db, tx, db'.open[tx], db');
  }

  lemma EmptyTx<T(!new)>(base: map<int, T>, db: DB<T>)
    requires WellFormed(base, db.trace)
    ensures TxInv(base, db, Tx(map[], [], None))
  {
    assert db.trace + [] == db.trace;
  }

  lemma AbortKeeps<T(!new)>(base: map<int, T>, db: DB<T>, tx: int, db': DB<T>)
    requires DBInv(base, db) && Does(base, db, Abort(tx), db')
    ensures DBInv(base, db')
  {
    hide TxInv, WellFormed, Apart;
    forall u | u in db'.open
      ensures TxInv(base, db', db'.open[u])
    {
      Unaffected(base, db, db.open[u], db');
    }
  }

  lemma ActionKeeps<T(!new)>(base: map<int, T>, db: DB<T>, a: Action<T>, db': DB<T>)
    requires DBInv(base, db) && Does(base, db, a, db')
    ensures DBInv(base, db')
  {
    hide DBInv;
    match a
    case Begin(tx) => BeginKeeps(base, db, tx, db');
    case ChangeRow(tx, w) => ChangeKeeps(base, db, tx, w, db');
    case InsertEvent(tx) => InsertKeeps(base, db, tx, db');
    case Commit(tx) => CommitKeeps(base, db, tx, db');
    case Abort(tx) => AbortKeeps(base, db, tx, db');
  }

  /** Over every run of any number of writers, a commit is a Publish of the replica's system: the
      events of one object become visible in order of id, and every other action leaves the log alone. */
  lemma {:induction false} WritersPublish<K(!new), T(!new)>(
      base: map<int, T>, key: T -> Option<K>, dbs: seq<DB<T>>, actions: seq<Action<T>>, i: nat, s: State<K, T>)
    requires |dbs| == |actions| + 1 && Start(base, dbs[0]) && i < |actions|
    requires forall k :: 0 <= k < |actions| ==> Does(base, dbs[k], actions[k], dbs[k + 1])
    requires s.trace == dbs[i].trace
    ensures actions[i].Commit? ==> actions[i].tx in dbs[i].open
    ensures if actions[i].Commit?
            then Next(base, key, s, Publish(dbs[i].open[actions[i].tx].events), s.(trace := dbs[i + 1].trace))
            else dbs[i + 1].trace == dbs[i].trace
  {
    ReachableInv(base, dbs, actions, i + 1);
    assert Does(base, dbs[i], actions[i], dbs[i + 1]);
  }

  lemma {:induction false} ReachableInv<T(!new)>(base: map<int, T>, dbs: seq<DB<T>>, actions: seq<Action<T>>, i: nat)
    requires |dbs| == |actions| + 1 && Start(base, dbs[0]) && i < |dbs|
    requires forall k :: 0 <= k < |actions| ==> Does(base, dbs[k], actions[k], dbs[k + 1])
    ensures DBInv(base, dbs[i])
  {
    if i > 0 {
      ReachableInv(base, dbs, actions, i - 1);
      ActionKeeps(base, dbs[i - 1], actions[i - 1], dbs[i]);
    }
  }
}
