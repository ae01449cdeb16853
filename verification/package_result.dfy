/** Applying a planned package update, in any order, leaves exactly the wanted rows
    (internal/invoker/update_problem_package.go). */
module PackageResult {
  import opened Options
  import opened PackageDiff
  import opened PackagePatch

  // ---- Old rows ----

  /** The last row of a key. */
  function OldRow(rows: seq<Row>, key: Key): Option<Row> {
    if rows == [] then None
    else if KeyOf(rows[|rows| - 1].config) == Some(key) then Some(rows[|rows| - 1])
    else OldRow(rows[..|rows| - 1], key)
  }

  lemma {:induction false} OldRowIsARow(rows: seq<Row>, key: Key)
    ensures OldRow(rows, key).Some? ==>
              OldRow(rows, key).value in rows && KeyOf(OldRow(rows, key).value.config) == Some(key)
    ensures OldRow(rows, key).None? ==> forall row :: row in rows ==> KeyOf(row.config) != Some(key)
  {
    if rows != [] {
      OldRowIsARow(rows[..|rows| - 1], key);
      assert rows == rows[..|rows| - 1] + [rows[|rows| - 1]];
    }
  }

  ghost predicate DistinctRows(rows: seq<Row>) {
    forall i, j :: 0 <= i < j < |rows| ==> rows[i].id != rows[j].id
  }

  // A row of a key that is not the last of its key.
  ghost predicate IsDuplicate(rows: seq<Row>, row: Row) {
    row in rows && KeyOf(row.config).Some? && OldRow(rows, KeyOf(row.config).value) != Some(row)
  }

  ghost predicate IsCollected(c: Collected, rows: seq<Row>) {
    && (forall key :: Lookup(c.events, key) == FirstCell(OldRow(rows, key)).change)
    && (forall row :: row in c.duplicates <==> IsDuplicate(rows, row))
    && DistinctRows(c.duplicates)
  }

  lemma CollectOneMore(c: Collected, rows: seq<Row>, row: Row)
    requires IsCollected(c, rows) && DistinctRows(rows + [row])
    ensures IsCollected(CollectOne(c, row), rows + [row])
  {
    var all, d := rows + [row], CollectOne(c, row);
    assert all[..|all| - 1] == rows && all[|all| - 1] == row;
    assert DistinctRows(rows) by {
      assert forall i :: 0 <= i < |rows| ==> rows[i] == all[i];
    }
    forall r | r in rows
      ensures r.id != row.id
    {
      var i :| 0 <= i < |rows| && rows[i] == r;
      assert all[i].id != all[|rows|].id;
    }
    forall key
      ensures Lookup(d.events, key) == FirstCell(OldRow(all, key)).change
    {
      assert Lookup(c.events, key) == FirstCell(OldRow(rows, key)).change;
    }
    match KeyOf(row.config)
    case None =>
      forall r
        ensures r in d.duplicates <==> IsDuplicate(all, r)
      {
        assert r in c.duplicates <==> IsDuplicate(rows, r);
      }
    case Some(k) =>
      OldRowIsARow(rows, k);
      assert Lookup(c.events, k) == FirstCell(OldRow(rows, k)).change;
      var was := OldRow(rows, k);
      assert d.duplicates == c.duplicates + if was.Some? then [was.value] else [];
      forall r
        ensures r in d.duplicates <==> IsDuplicate(all, r)
      {
        assert r in c.duplicates <==> IsDuplicate(rows, r);
      }
      if was.Some? {
        forall i | 0 <= i < |c.duplicates|
          ensures c.duplicates[i].id != was.value.id
        {
          assert c.duplicates[i] in c.duplicates && !IsDuplicate(rows, was.value);
          SameRow(rows, c.duplicates[i], was.value);
        }
      }
  }

  lemma SameRow(rows: seq<Row>, a: Row, b: Row)
    requires DistinctRows(rows) && a in rows && b in rows
    ensures a.id == b.id ==> a == b
  {
  }

  lemma {:induction false} CollectsAll(c: Collected, done: seq<Row>, rest: seq<Row>)
    requires IsCollected(c, done) && DistinctRows(done + rest)
    ensures IsCollected(CollectFrom(c, rest), done + rest)
    decreases |rest|
  {
    if rest == [] {
      assert done + rest == done;
    } else {
      var all := done + rest;
      assert done + [rest[0]] == all[..|done| + 1];
      assert done + [rest[0]] + rest[1..] == all;
      CollectOneMore(c, done, rest[0]);
      hide IsCollected, DistinctRows;
      CollectsAll(CollectOne(c, rest[0]), done + [rest[0]], rest[1..]);
    }
  }

  // ---- Rows of a table, by key ----

  ghost predicate HasKey(row: Row, pid: int, key: Key) {
    row.problemID == pid && KeyOf(row.config) == Some(key)
  }

  /** The rows of one key. */
  ghost function Slot(rows: map<int, Row>, pid: int, key: Key): map<int, Row> {
    map id | id in rows && HasKey(rows[id], pid, key) :: rows[id]
  }

  /** The rows an update has no business with: those of other problems and those that do not parse. */
  ghost function Rest(rows: map<int, Row>, pid: int): map<int, Row> {
    map id | id in rows && !(rows[id].problemID == pid && KeyOf(rows[id].config).Some?) :: rows[id]
  }

  ghost predicate Fits(rows: map<int, Row>, change: Change, pid: int, key: Key) {
    HasKey(change.row, pid, key) && (change.Create? || Broken(change) || change.row.id in Slot(rows, pid, key))
  }

  ghost function SlotAfter(slot: map<int, Row>, change: Change, next: int): map<int, Row> {
    match change
    case Create(row) => slot[next := row.(id := next)]
    case Update(row) => slot[row.id := row]
    case Delete(row) => slot - {row.id}
  }

  /** Ids in use are positive and below the next one. */
  ghost predicate Fresh<V>(m: map<int, V>, next: int) {
    next >= 1 && forall id :: id in m ==> 1 <= id < next
  }

  lemma ApplyOneAtKey(t: Table, change: Change, pid: int, k: Key, key: Key)
    requires Fits(t.rows, change, pid, k) && Fresh(t.rows, t.next)
    ensures ApplyOne(t, change).None? <==> Broken(change)
    ensures ApplyOne(t, change).Some? ==>
              var u := ApplyOne(t, change).value;
              && Fresh(u.rows, u.next) && t.next <= u.next
              && Rest(u.rows, pid) == Rest(t.rows, pid)
              && Slot(u.rows, pid, key) ==
                 if key == k then SlotAfter(Slot(t.rows, pid, key), change, t.next) else Slot(t.rows, pid, key)
  {
  }

  lemma StillFits(t: Table, change: Change, pid: int, k: Key, other: Change, key: Key)
    requires Fits(t.rows, change, pid, k) && Fresh(t.rows, t.next) && key != k
    requires Fits(t.rows, other, pid, key) && ApplyOne(t, change).Some?
    ensures Fits(ApplyOne(t, change).value.rows, other, pid, key)
  {
    ApplyOneAtKey(t, change, pid, k, key);
  }

  /** The changes of a plan, one a key, do not disturb each other: in any order each key gets its own. */
  lemma {:induction false} ApplyAtKey(t: Table, events: map<Key, Change>, order: seq<Key>, pid: int, key: Key)
    requires forall k :: k in order ==> k in events && Fits(t.rows, events[k], pid, k)
    requires Fresh(t.rows, t.next)
    requires forall i, j :: 0 <= i < j < |order| ==> order[i] != order[j]
    ensures ApplyFrom(t, events, order).None? <==> exists k :: k in order && Broken(events[k])
    ensures ApplyFrom(t, events, order).Some? ==>
              var rows := ApplyFrom(t, events, order).value.rows;
              && Rest(rows, pid) == Rest(t.rows, pid)
              && (key !in order ==> Slot(rows, pid, key) == Slot(t.rows, pid, key))
              && (key in order ==>
                    exists n :: t.next <= n && Slot(rows, pid, key) == SlotAfter(Slot(t.rows, pid, key), events[key], n))
    decreases |order|
  {
    hide Fits, Fresh, Slot, Rest, SlotAfter, Broken;
    if order != [] {
      var k, rest := order[0], order[1..];
      assert forall x :: x in order <==> x == k || x in rest;
      assert k !in rest;
      ApplyOneAtKey(t, events[k], pid, k, key);
      if ApplyOne(t, events[k]).Some? {
        var u := ApplyOne(t, events[k]).value;
        forall x | x in rest
          ensures Fits(u.rows, events[x], pid, x)
        {
          StillFits(t, events[k], pid, k, events[x], x);
        }
        ApplyAtKey(u, events, rest, pid, key);
        assert ApplyFrom(t, events, order) == ApplyFrom(u, events, rest);
      }
    }
  }

  // ---- Uploads ----

  /** Each entry of the plan that has a reader gets a new file with the content of the reader. */
  lemma {:induction false} UploadAtKey(u: Uploaded, readers: map<Key, string>, order: seq<Key>, key: Key)
    requires forall k :: k in order ==> k in readers
    requires forall i, j :: 0 <= i < j < |order| ==> order[i] != order[j]
    requires Fresh(u.files.hashes, u.files.next)
    ensures var v := UploadFrom(u, readers, order);
            && Fresh(v.files.hashes, v.files.next)
            && (forall f :: f in u.files.hashes ==> f in v.files.hashes && v.files.hashes[f] == u.files.hashes[f])
            && (key in v.events <==> key in u.events)
            && (key in u.events && key !in order ==> v.events[key] == u.events[key])
            && (key in u.events && key in order ==>
                  && var f := v.events[key].row.fileID;
                  && v.events[key] == u.events[key].(row := u.events[key].row.(fileID := f))
                  && f in v.files.hashes && v.files.hashes[f] == readers[key])
    decreases |order|
  {
    if order != [] {
      var k := order[0];
      assert forall x :: x in order <==> x == k || x in order[1..];
      assert k !in order[1..];
      UploadAtKey(UploadOne(u, k, readers[k]), readers, order[1..], key);
    }
  }

  // ---- The whole update ----

  datatype Job = Job(pid: int, resources: seq<Row>, table: Table, files: Files, package: seq<Statement>)

  /** The rows read are the rows of the problem, ids are in order, and the package can be read. */
  ghost predicate Runs(job: Job, plan: Plan) {
    && DistinctRows(job.resources)
    && (forall row :: row in job.resources ==>
          row.problemID == job.pid && row.id in job.table.rows && job.table.rows[row.id] == row)
    && (forall id :: id in job.table.rows && job.table.rows[id].problemID == job.pid ==>
          job.table.rows[id] in job.resources && job.table.rows[id].id == id)
    && Fresh(job.table.rows, job.table.next) && Fresh(job.files.hashes, job.files.next)
    && AddStatements(Plan(Old(job).events, map[]), job.pid, job.files.hashes, job.package) == Some(plan)
  }

  function Old(job: Job): Collected {
    CollectFrom(Collected(map[], []), job.resources)
  }

  ghost function OldSlot(was: Option<Row>): map<int, Row> {
    if was.None? then map[] else map[was.value.id := was.value]
  }

  /** What the package asks for under a key does no harm. */
  ghost predicate AsksWell(job: Job, key: Key) {
    Harmless(job.files.hashes, key, OldRow(job.resources, key), WantsFor(key, job.package))
  }

  /** There is one row for a key the package has, with the content last asked for, and none for another.
      An old row keeps its id, and is left as it was when it had the wanted file. */
  ghost predicate Right(job: Job, rows: map<int, Row>, hashes: map<int, string>, key: Key) {
    var slot, was, wants := Slot(rows, job.pid, key), OldRow(job.resources, key), WantsFor(key, job.package);
    if wants == [] then slot == map[]
    else
      var want := wants[|wants| - 1];
      && |slot| == 1
      && forall id :: id in slot ==>
           && slot[id].id == id && slot[id].problemID == job.pid
           && (match key
               case StatementKey(locale) => slot[id].config == StatementConfig(locale, want)
               case ResourceKey(locale, name) => slot[id].config == ResourceConfig(locale, name))
           && (key.ResourceKey? ==> slot[id].fileID in hashes && hashes[slot[id].fileID] == want)
           && (was.Some? ==> id == was.value.id)
           && (was.Some? && key.StatementKey? ==> slot[id].fileID == was.value.fileID)
           && (was.Some? && HasFile(job.files.hashes, key, was.value, want) ==> slot[id] == was.value)
  }

  lemma {:induction false} DeletesAll(t: Table, rows: seq<Row>)
    requires DistinctRows(rows) && forall row :: row in rows ==> row.id in t.rows
    ensures DeleteFrom(t, rows).Some? && DeleteFrom(t, rows).value.next == t.next
    ensures var left := DeleteFrom(t, rows).value.rows;
            && (forall id :: id in left <==> id in t.rows && forall row :: row in rows ==> row.id != id)
            && (forall id :: id in left ==> left[id] == t.rows[id])
    decreases |rows|
  {
    if rows != [] {
      assert forall row :: row in rows <==> row == rows[0] || row in rows[1..];
      forall row | row in rows[1..]
        ensures row.id != rows[0].id
      {
        var i :| 0 < i < |rows| && rows[i] == row;
      }
      DeletesAll(Table(t.rows - {rows[0].id}, t.next), rows[1..]);
    }
  }

  // The duplicates are gone, and nothing else.
  lemma WithoutDuplicates(job: Job, plan: Plan)
    requires Runs(job, plan)
    ensures IsCollected(Old(job), job.resources)
    ensures var left := DeleteFrom(job.table, Old(job).duplicates);
            && left.Some? && left.value.next == job.table.next
            && (forall id :: id in left.value.rows <==>
                  id in job.table.rows && !IsDuplicate(job.resources, job.table.rows[id]))
            && (forall id :: id in left.value.rows ==> left.value.rows[id] == job.table.rows[id])
  {
    var rows, dups := job.resources, Old(job).duplicates;
    assert [] + rows == rows;
    CollectsAll(Collected(map[], []), [], rows);
    assert forall row :: row in dups <==> IsDuplicate(rows, row);
    hide IsCollected;
    DeletesAll(job.table, dups);
    var left := DeleteFrom(job.table, dups).value.rows;
    forall id | id in job.table.rows
      ensures id in left <==> !IsDuplicate(rows, job.table.rows[id])
    {
      var row := job.table.rows[id];
      if d :| d in dups && d.id == id {
        assert d in rows && row == d;
      }
      if IsDuplicate(rows, row) {
        assert row in dups && row.id == id;
      }
    }
  }

  lemma RestWithoutDuplicates(job: Job, plan: Plan)
    requires Runs(job, plan)
    ensures var left := DeleteFrom(job.table, Old(job).duplicates);
            left.Some? && Rest(left.value.rows, job.pid) == Rest(job.table.rows, job.pid)
  {
    hide IsCollected, OldRow, AddStatements, CollectFrom, DeleteFrom;
    WithoutDuplicates(job, plan);
    var left := DeleteFrom(job.table, Old(job).duplicates).value.rows;
    forall id | id in job.table.rows && id !in left
      ensures job.table.rows[id].problemID == job.pid && KeyOf(job.table.rows[id].config).Some?
    {
      assert IsDuplicate(job.resources, job.table.rows[id]);
    }
    var a, b := Rest(left, job.pid), Rest(job.table.rows, job.pid);
    assert forall id :: id in a ==> id in b && a[id] == b[id];
    assert forall id :: id in b ==> id in a;
  }

  /** Once the duplicates are gone a key has its last old row. */
  lemma OneOldRow(job: Job, plan: Plan, key: Key)
    requires Runs(job, plan)
    ensures IsCollected(Old(job), job.resources)
    ensures var left := DeleteFrom(job.table, Old(job).duplicates);
            && left.Some? && left.value.next == job.table.next && Fresh(left.value.rows, left.value.next)
            && Rest(left.value.rows, job.pid) == Rest(job.table.rows, job.pid)
            && Slot(left.value.rows, job.pid, key) == OldSlot(OldRow(job.resources, key))
  {
    hide IsCollected, Rest, Harmless, AddStatements, CollectFrom, DeleteFrom;
    var rows := job.resources;
    WithoutDuplicates(job, plan);
    RestWithoutDuplicates(job, plan);
    var left := DeleteFrom(job.table, Old(job).duplicates).value.rows;
    OldRowIsARow(rows, key);
    forall id
      ensures id in left && HasKey(left[id], job.pid, key) <==> id in OldSlot(OldRow(rows, key))
    {
      if id in job.table.rows && HasKey(job.table.rows[id], job.pid, key) {
        assert job.table.rows[id] in rows && job.table.rows[id].id == id;
      }
    }
    assert Slot(left, job.pid, key) == OldSlot(OldRow(rows, key));
  }

  /** What is done for a key: nothing, or the planned change with the uploaded file. */
  ghost predicate IsUploaded(job: Job, plan: Plan, u: Uploaded, key: Key) {
    var cell := CellOf(plan, key);
    && (key in u.events <==> cell.change.Some?)
    && (cell.change.Some? && cell.reader.None? ==> u.events[key] == cell.change.value)
    && (cell.change.Some? && cell.reader.Some? ==>
          && var f := u.events[key].row.fileID;
          && u.events[key] == cell.change.value.(row := cell.change.value.row.(fileID := f))
          && f in u.files.hashes && u.files.hashes[f] == cell.reader.value)
  }

  lemma UploadedAtKey(job: Job, plan: Plan, order: seq<Key>, key: Key)
    requires Runs(job, plan) && Visits(order, plan.readers)
    ensures var u := UploadFrom(Uploaded(plan.events, job.files), plan.readers, order);
            && IsUploaded(job, plan, u, key)
            && Fresh(u.files.hashes, u.files.next)
            && forall f :: f in job.files.hashes ==>
                 f in u.files.hashes && u.files.hashes[f] == job.files.hashes[f]
  {
    UploadAtKey(Uploaded(plan.events, job.files), plan.readers, order, key);
  }

  ghost function PlannedCell(job: Job, key: Key): Cell {
    CellFold(key, job.pid, job.files.hashes, FirstCell(OldRow(job.resources, key)), WantsFor(key, job.package))
  }

  /** The plan at one key. */
  lemma CellAtKey(job: Job, plan: Plan, key: Key)
    requires Runs(job, plan)
    ensures CellOf(plan, key) == PlannedCell(job, key)
    ensures var was := OldRow(job.resources, key);
            was.Some? ==> was.value.id >= 1 && HasKey(was.value, job.pid, key)
  {
    WithoutDuplicates(job, plan);
    OldRowIsARow(job.resources, key);
    PlanAtKey(Plan(Old(job).events, map[]), job.pid, job.files.hashes, job.package, key);
    assert CellOf(Plan(Old(job).events, map[]), key) == FirstCell(OldRow(job.resources, key));
  }

  // The change of every key fits its slot.
  lemma EventFits(job: Job, plan: Plan, u: Uploaded, key: Key, rows: map<int, Row>)
    requires Runs(job, plan) && IsUploaded(job, plan, u, key) && key in u.events
    requires Slot(rows, job.pid, key) == OldSlot(OldRow(job.resources, key))
    ensures Fits(rows, u.events[key], job.pid, key)
    ensures AsksWell(job, key) ==> !Broken(u.events[key])
    ensures !AsksWell(job, key) ==>
              Broken(u.events[key]) || (u.events[key].Create? && OldRow(job.resources, key).Some?)
  {
    CellAtKey(job, plan, key);
    hide Runs, Harmless, Slot;
    var was, wants := OldRow(job.resources, key), WantsFor(key, job.package);
    PlannedChange(key, job.pid, job.files.hashes, was, wants);
    CellHasKey(key, job.pid, job.files.hashes, FirstCell(was), wants);
    CellHasRow(key, job.pid, job.files.hashes, FirstCell(was), was, wants);
  }

  lemma {:induction false} CellHasKey(key: Key, pid: int, hashes: map<int, string>, cell: Cell, wants: seq<string>)
    requires cell.change.Some? ==> HasKey(cell.change.value.row, pid, key)
    ensures var c := CellFold(key, pid, hashes, cell, wants).change; c.Some? ==> HasKey(c.value.row, pid, key)
    decreases |wants|
  {
    if wants != [] {
      CellHasKey(key, pid, hashes, CellStep(key, pid, hashes, cell, wants[0]), wants[1..]);
    }
  }

  ghost predicate RowOf(change: Option<Change>, was: Option<Row>) {
    change.Some? ==>
      || (!change.value.Delete? && change.value.row.id == 0)
      || (was.Some? && change.value.row.id == was.value.id && !change.value.Create?)
  }

  lemma {:induction false} CellHasRow(
      key: Key, pid: int, hashes: map<int, string>, cell: Cell, was: Option<Row>, wants: seq<string>)
    requires RowOf(cell.change, was)
    ensures RowOf(CellFold(key, pid, hashes, cell, wants).change, was)
    decreases |wants|
  {
    if wants != [] {
      CellHasRow(key, pid, hashes, CellStep(key, pid, hashes, cell, wants[0]), was, wants[1..]);
    }
  }

  // Where asking does no harm, the slot of the key ends up right.
  lemma WellAskedIsRight(job: Job, plan: Plan, u: Uploaded, key: Key, rows: map<int, Row>, n: int)
    requires Runs(job, plan) && IsUploaded(job, plan, u, key) && AsksWell(job, key)
    requires forall f :: f in job.files.hashes ==> f in u.files.hashes && u.files.hashes[f] == job.files.hashes[f]
    requires var slot := OldSlot(OldRow(job.resources, key));
             Slot(rows, job.pid, key) == if key in u.events then SlotAfter(slot, u.events[key], n) else slot
    ensures Right(job, rows, u.files.hashes, key)
  {
    hide Runs, Harmless, Slot, CellFold, WantsFor, OldRow, KeyOf, Right, HasFile, CellOf;
    CellAtKey(job, plan, key);
    var was, wants := OldRow(job.resources, key), WantsFor(key, job.package);
    var cell := CellOf(plan, key);
    PlannedChange(key, job.pid, job.files.hashes, was, wants);
    if key.StatementKey? || wants == [] {
      StatementsReadNoFile(key, job.pid, job.files.hashes, FirstCell(was), wants);
    } else if cell.change.Some? {
      ReaderIsLast(key, job.pid, job.files.hashes, FirstCell(was), wants);
    }
    if wants == [] {
      assert Slot(rows, job.pid, key) == map[];
      UnwantedIsRight(job, key, rows, u.files.hashes);
    } else if cell.change.None? {
      KeptIsRight(job, key, rows, u.files.hashes, was.value);
    } else {
      var row := u.events[key].row;
      ChangedIsRight(job, key, rows, u.files.hashes, if was.None? then row.(id := n) else row);
    }
  }

  lemma UnwantedIsRight(job: Job, key: Key, rows: map<int, Row>, hashes: map<int, string>)
    requires WantsFor(key, job.package) == [] && Slot(rows, job.pid, key) == map[]
    ensures Right(job, rows, hashes, key)
  {
  }

  lemma KeptIsRight(job: Job, key: Key, rows: map<int, Row>, hashes: map<int, string>, row: Row)
    requires OldRow(job.resources, key) == Some(row) && HasKey(row, job.pid, key)
    requires Slot(rows, job.pid, key) == map[row.id := row]
    requires var wants := WantsFor(key, job.package);
             wants != [] && HasFile(job.files.hashes, key, row, wants[|wants| - 1])
    requires forall f :: f in job.files.hashes ==> f in hashes && hashes[f] == job.files.hashes[f]
    ensures Right(job, rows, hashes, key)
  {
    hide WantsFor, OldRow, Slot;
  }

  lemma ChangedIsRight(job: Job, key: Key, rows: map<int, Row>, hashes: map<int, string>, row: Row)
    requires Slot(rows, job.pid, key) == map[row.id := row] && row.problemID == job.pid
    requires var was, wants := OldRow(job.resources, key), WantsFor(key, job.package);
             && wants != [] && row.config == ConfigFor(key, wants[|wants| - 1])
             && (key.ResourceKey? ==> row.fileID in hashes && hashes[row.fileID] == wants[|wants| - 1])
             && (was.Some? ==> row.id == was.value.id)
             && (was.Some? && key.StatementKey? ==> row.fileID == was.value.fileID)
             && (was.Some? ==> !HasFile(job.files.hashes, key, was.value, wants[|wants| - 1]))
    ensures Right(job, rows, hashes, key)
  {
    hide WantsFor, OldRow, Slot, HasFile;
  }

  // Where it does, and nothing failed, there are two rows.
  lemma IllAskedIsWrong(job: Job, plan: Plan, u: Uploaded, key: Key, rows: map<int, Row>, n: int)
    requires Runs(job, plan) && IsUploaded(job, plan, u, key) && !AsksWell(job, key) && job.table.next <= n
    requires key in u.events && !Broken(u.events[key])
    requires Slot(rows, job.pid, key) == SlotAfter(OldSlot(OldRow(job.resources, key)), u.events[key], n)
    ensures !Right(job, rows, u.files.hashes, key)
  {
    OneOldRow(job, plan, key);
    CellAtKey(job, plan, key);
    OldRowIsARow(job.resources, key);
    var was, wants := OldRow(job.resources, key), WantsFor(key, job.package);
    PlannedChange(key, job.pid, job.files.hashes, was, wants);
    var slot := Slot(rows, job.pid, key);
    assert u.events[key].Create? && was.Some?;
    assert slot == map[was.value.id := was.value, n := u.events[key].row.(id := n)];
    assert was.value.id < job.table.next;
    assert |slot| == 2 by {
      assert slot.Keys == {was.value.id, n};
    }
  }

  lemma PatchedAtKey(job: Job, plan: Plan, u: Uploaded, order: seq<Key>, key: Key)
    requires Runs(job, plan) && (forall k :: IsUploaded(job, plan, u, k)) && Visits(order, u.events)
    requires forall f :: f in job.files.hashes ==> f in u.files.hashes && u.files.hashes[f] == job.files.hashes[f]
    ensures var r := ApplyAll(job.table, Old(job).duplicates, u.events, order);
            && (r.None? ==> exists k :: !AsksWell(job, k))
            && (r.Some? ==> Rest(r.value.rows, job.pid) == Rest(job.table.rows, job.pid) &&
                            (Right(job, r.value.rows, u.files.hashes, key) <==> AsksWell(job, key)))
  {
    OneOldRow(job, plan, key);
    var left := DeleteFrom(job.table, Old(job).duplicates).value;
    forall k | k in order
      ensures Fits(left.rows, u.events[k], job.pid, k)
      ensures Broken(u.events[k]) ==> !AsksWell(job, k)
    {
      OneOldRow(job, plan, k);
      EventFits(job, plan, u, k, left.rows);
    }
    hide IsCollected, Slot, Rest, SlotAfter, Fits, Right, AsksWell;
    ApplyAtKey(left, u.events, order, job.pid, key);
    var r := ApplyFrom(left, u.events, order);
    if r.Some? {
      if AsksWell(job, key) {
        var n := if key in order then var n :| Slot(r.value.rows, job.pid, key) ==
          SlotAfter(Slot(left.rows, job.pid, key), u.events[key], n); n else 0;
        WellAskedIsRight(job, plan, u, key, r.value.rows, n);
      } else {
        NotAskedWellHasEvent(job, plan, u, key);
        var n :| left.next <= n && Slot(r.value.rows, job.pid, key) ==
          SlotAfter(Slot(left.rows, job.pid, key), u.events[key], n);
        IllAskedIsWrong(job, plan, u, key, r.value.rows, n);
      }
    }
  }

  lemma NotAskedWellHasEvent(job: Job, plan: Plan, u: Uploaded, key: Key)
    requires Runs(job, plan) && IsUploaded(job, plan, u, key) && !AsksWell(job, key)
    ensures key in u.events
  {
    CellAtKey(job, plan, key);
    PlannedChange(key, job.pid, job.files.hashes, OldRow(job.resources, key), WantsFor(key, job.package));
  }

  /** Whatever the orders in which files are uploaded and changes applied: the update goes through and
      every key ends up right exactly when no key is asked for in a harmful way. Rows of other problems
      and rows that do not parse stay. */
  lemma PatchedExactly(job: Job, plan: Plan, uploads: seq<Key>, order: seq<Key>)
    requires Runs(job, plan) && Visits(uploads, plan.readers)
    requires Visits(order, UploadFrom(Uploaded(plan.events, job.files), plan.readers, uploads).events)
    ensures var u := UploadFrom(Uploaded(plan.events, job.files), plan.readers, uploads);
            var r := ApplyAll(job.table, Old(job).duplicates, u.events, order);
            && (r.Some? && (forall key :: Right(job, r.value.rows, u.files.hashes, key)) <==>
                forall key :: AsksWell(job, key))
            && (r.Some? ==> Rest(r.value.rows, job.pid) == Rest(job.table.rows, job.pid))
  {
    var u := UploadFrom(Uploaded(plan.events, job.files), plan.readers, uploads);
    hide AsksWell, Right, Rest, Runs;
    forall key
      ensures IsUploaded(job, plan, u, key)
    {
      UploadedAtKey(job, plan, uploads, key);
    }
    UploadedAtKey(job, plan, uploads, StatementKey(""));
    var r := ApplyAll(job.table, Old(job).duplicates, u.events, order);
    PatchedAtKey(job, plan, u, order, StatementKey(""));
    if r.Some? {
      forall key
        ensures Right(job, r.value.rows, u.files.hashes, key) <==> AsksWell(job, key)
      {
        PatchedAtKey(job, plan, u, order, key);
      }
    }
  }

  /** When the files of the old rows exist, an update runs exactly if the package can be read. */
  lemma RunsWhenReadable(job: Job, plan: Plan)
    requires Runs(job.(package := []), plan)
    requires forall row :: row in job.resources ==> row.fileID == 0 || row.fileID in job.files.hashes
    ensures (exists p :: Runs(job, p)) <==> Readable(job.package)
  {
    var start := Plan(Old(job).events, map[]);
    assert Old(job.(package := [])) == Old(job);
    WithoutDuplicates(job.(package := []), plan);
    forall k | k in start.events
      ensures start.events[k].row.fileID == 0 || start.events[k].row.fileID in job.files.hashes
    {
      OldRowIsARow(job.resources, k);
      assert Lookup(Old(job).events, k) == FirstCell(OldRow(job.resources, k)).change;
    }
    hide IsCollected;
    PlanIsMadeWhenReadable(start, job.pid, job.files.hashes, job.package);
    var made := AddStatements(start, job.pid, job.files.hashes, job.package);
    if made.Some? {
      assert Runs(job, made.value);
    }
  }

  /** A package with two statements of one locale, and no old row. */
  function RepeatedLocale(pid: int): Job {
    Job(pid, [], Table(map[], 1), Files(map[], 1),
        [Statement("en", Some("a"), Some([])), Statement("en", Some("b"), Some([]))])
  }

  // The second statement asks to update the row that the first is only about to create.
  function RepeatedLocalePlan(pid: int): Plan {
    Plan(map[StatementKey("en") := Update(Row(0, pid, StatementConfig("en", "b"), 0))], map[])
  }

  /** Its update can run, asks harmfully, and does not go through. */
  lemma RepeatedLocaleFails(pid: int)
    ensures var job, plan, key := RepeatedLocale(pid), RepeatedLocalePlan(pid), StatementKey("en");
            && Runs(job, plan) && Visits([], plan.readers) && Visits([key], plan.events)
            && WantsFor(key, job.package) == ["a", "b"] && !AsksWell(job, key)
            && UploadFrom(Uploaded(plan.events, job.files), plan.readers, []) == Uploaded(plan.events, job.files)
            && ApplyAll(job.table, Old(job).duplicates, plan.events, [key]).None?
  {
    var job, plan, key := RepeatedLocale(pid), RepeatedLocalePlan(pid), StatementKey("en");
    var ss := job.package;
    var none := Plan(map[], map[]);
    var one := AddStatement(none, pid, "en", "a");
    assert ss[1..] == [ss[1]] && [ss[1]][1..] == [];
    assert AddStatement(one, pid, "en", "b") == plan;
    assert AddStatements(none, pid, map[], ss) == AddStatements(one, pid, map[], [ss[1]]) == Some(plan);
    assert WantsFor(key, [ss[1]]) == ["b"];
  }

  // ---- Packages that name nothing twice ----

  ghost predicate NamesOnce(ss: seq<Statement>) {
    && (forall i, j :: 0 <= i < j < |ss| ==> ss[i].locale != ss[j].locale)
    && forall i :: 0 <= i < |ss| && ss[i].resources.Some? ==> NamedOnce(ss[i].resources.value)
  }

  ghost predicate NamedOnce(rs: seq<Resource>) {
    forall i, j :: 0 <= i < j < |rs| ==> rs[i].name != rs[j].name
  }

  lemma {:induction false} AskedOnceIn(key: Key, locale: string, rs: seq<Resource>)
    requires NamedOnce(rs)
    ensures |ResourcesFor(key, locale, rs)| <= 1
    ensures ResourcesFor(key, locale, rs) != [] ==>
              key.ResourceKey? && key.locale == locale && exists i :: 0 <= i < |rs| && rs[i].name == key.name
  {
    if rs != [] {
      AskedOnceIn(key, locale, rs[1..]);
    }
  }

  lemma {:induction false} AskedOnce(key: Key, ss: seq<Statement>)
    requires NamesOnce(ss)
    ensures |WantsFor(key, ss)| <= 1
    ensures WantsFor(key, ss) != [] ==> exists i :: 0 <= i < |ss| && ss[i].locale == key.locale
  {
    if ss != [] {
      AskedOnce(key, ss[1..]);
      if ss[0].resources.Some? {
        AskedOnceIn(key, ss[0].locale, ss[0].resources.value);
      }
    }
  }

  /** A package with distinct locales, and distinct names for each, is applied exactly. */
  lemma DistinctNamesArePatched(job: Job, plan: Plan, uploads: seq<Key>, order: seq<Key>)
    requires Runs(job, plan) && Visits(uploads, plan.readers) && NamesOnce(job.package)
    requires Visits(order, UploadFrom(Uploaded(plan.events, job.files), plan.readers, uploads).events)
    ensures var u := UploadFrom(Uploaded(plan.events, job.files), plan.readers, uploads);
            var r := ApplyAll(job.table, Old(job).duplicates, u.events, order);
            && r.Some? && Rest(r.value.rows, job.pid) == Rest(job.table.rows, job.pid)
            && forall key :: Right(job, r.value.rows, u.files.hashes, key)
  {
    forall key
      ensures AsksWell(job, key)
    {
      AskedOnce(key, job.package);
    }
    PatchedExactly(job, plan, uploads, order);
  }

  // ---- The task ----

  /** A way to range over the keys of a map. */
  ghost predicate IsOrder(visit: set<Key> -> seq<Key>) {
    forall keys :: (forall k :: k in visit(keys) <==> k in keys) &&
                   forall i, j :: 0 <= i < j < |visit(keys)| ==> visit(keys)[i] != visit(keys)[j]
  }

  /** The whole update. `resources` are the rows of the problem read before; `package` is None when its
      statements cannot be listed. A failure of any kind leaves the rows as they were. */
  method UpdatePackage(
      db: Database, pid: int, resources: seq<Row>, package: Option<seq<Statement>>,
      uploads: set<Key> -> seq<Key>, order: set<Key> -> seq<Key>, commitFails: bool) returns (ok: bool)
    requires IsOrder(uploads) && IsOrder(order)
    modifies db
    ensures !ok ==> db.rows == old(db.rows)
    ensures ok ==> package.Some? && !commitFails
    ensures package.Some? && !commitFails ==>
              var job := Job(pid, resources, Table(old(db.rows), old(db.nextRow)),
                             Files(old(db.hashes), old(db.nextFile)), package.value);
              forall plan :: Runs(job, plan) ==>
                && (ok && (forall key :: Right(job, db.rows, db.hashes, key)) <==> forall key :: AsksWell(job, key))
                && Rest(db.rows, pid) == Rest(old(db.rows), pid)
  {
    hide Runs, Right, AsksWell, Rest, AddStatements, ApplyAll, CollectFrom, UploadFrom;
    var events, duplicates := Collect(resources);
    if package.None? {
      return false;
    }
    ghost var job := Job(pid, resources, Table(db.rows, db.nextRow), Files(db.hashes, db.nextFile), package.value);
    var plan := MakePlan(events, pid, db.hashes, package.value);
    if plan.None? {
      forall p | Runs(job, p)
        ensures false
      {
        PlanIsMade(job, p);
      }
      return false;
    }
    var us := uploads(plan.value.readers.Keys);
    events := db.Upload(plan.value, us);
    var ks := order(events.Keys);
    ok := db.Apply(duplicates, events, ks, commitFails);
    ghost var u := Uploaded(events, Files(db.hashes, db.nextFile));
    assert ok ==> db.rows == ApplyAll(job.table, duplicates, events, ks).value.rows;
    forall p | Runs(job, p) && !commitFails
      ensures ok && (forall key :: Right(job, db.rows, db.hashes, key)) <==> forall key :: AsksWell(job, key)
      ensures Rest(db.rows, pid) == Rest(old(db.rows), pid)
    {
      PlanIsMade(job, p);
      PatchedExactly(job, p, us, ks);
    }
  }

  lemma PlanIsMade(job: Job, plan: Plan)
    requires Runs(job, plan)
    ensures AddStatements(Plan(Old(job).events, map[]), job.pid, job.files.hashes, job.package) == Some(plan)
  {
  }
}
