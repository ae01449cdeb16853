/** What the rows of a problem are after its package was updated
    (internal/invoker/update_problem_package.go). */
module PackagePatch {
  import opened Options
  import opened PackageDiff

  // ---- What the package asks for under one key, in the order it is read ----

  function ResourcesFor(key: Key, locale: string, rs: seq<Resource>): seq<string> {
    if rs == [] then []
    else (if key == ResourceKey(locale, rs[0].name) then [rs[0].hash] else []) + ResourcesFor(key, locale, rs[1..])
  }

  function StatementFor(key: Key, s: Statement): seq<string> {
    (if key == StatementKey(s.locale) && s.body.Some? then [s.body.value] else []) +
    (if s.resources.Some? then ResourcesFor(key, s.locale, s.resources.value) else [])
  }

  function WantsFor(key: Key, ss: seq<Statement>): seq<string> {
    if ss == [] then [] else StatementFor(key, ss[0]) + WantsFor(key, ss[1..])
  }

  /** The row has the file that is wanted. */
  predicate HasFile(hashes: map<int, string>, key: Key, row: Row, want: string) {
    key.ResourceKey? && row.fileID != 0 && row.fileID in hashes && hashes[row.fileID] == want
  }

  // ---- The plan, seen at one key ----

  datatype Cell = Cell(change: Option<Change>, reader: Option<string>)

  function CellOf(p: Plan, key: Key): Cell {
    Cell(Lookup(p.events, key), Lookup(p.readers, key))
  }

  function CellStep(key: Key, pid: int, hashes: map<int, string>, cell: Cell, want: string): Cell {
    if cell.change.Some? && HasFile(hashes, key, cell.change.value.row, want) then cell.(change := None)
    else
      var change := if cell.change.None? then Create(Row(0, pid, ConfigFor(key, want), 0))
                    else Update(cell.change.value.row.(config := ConfigFor(key, want)));
      Cell(Some(change), if key.ResourceKey? then Some(want) else cell.reader)
  }

  function CellFold(key: Key, pid: int, hashes: map<int, string>, cell: Cell, wants: seq<string>): Cell
    decreases |wants|
  {
    if wants == [] then cell else CellFold(key, pid, hashes, CellStep(key, pid, hashes, cell, wants[0]), wants[1..])
  }

  lemma {:induction false} CellFoldConcat(
      key: Key, pid: int, hashes: map<int, string>, cell: Cell, a: seq<string>, b: seq<string>)
    ensures CellFold(key, pid, hashes, cell, a + b) ==
            CellFold(key, pid, hashes, CellFold(key, pid, hashes, cell, a), b)
    decreases |a|
  {
    if a == [] {
      assert a + b == b;
    } else {
      assert (a + b)[1..] == a[1..] + b;
      CellFoldConcat(key, pid, hashes, CellStep(key, pid, hashes, cell, a[0]), a[1..], b);
    }
  }

  lemma {:induction false} ResourcesAtKey(
      p: Plan, pid: int, hashes: map<int, string>, locale: string, rs: seq<Resource>, key: Key)
    requires AddResources(p, pid, hashes, locale, rs).Some?
    ensures CellOf(AddResources(p, pid, hashes, locale, rs).value, key) ==
            CellFold(key, pid, hashes, CellOf(p, key), ResourcesFor(key, locale, rs))
    decreases |rs|
  {
    if rs != [] {
      var q := AddResource(p, pid, hashes, locale, rs[0]).value;
      var one := if key == ResourceKey(locale, rs[0].name) then [rs[0].hash] else [];
      assert CellOf(q, key) == CellFold(key, pid, hashes, CellOf(p, key), one);
      CellFoldConcat(key, pid, hashes, CellOf(p, key), one, ResourcesFor(key, locale, rs[1..]));
      ResourcesAtKey(q, pid, hashes, locale, rs[1..], key);
    }
  }

  /** Over all keys at once the plan does what it does at each key. */
  lemma {:induction false} PlanAtKey(p: Plan, pid: int, hashes: map<int, string>, ss: seq<Statement>, key: Key)
    requires AddStatements(p, pid, hashes, ss).Some?
    ensures CellOf(AddStatements(p, pid, hashes, ss).value, key) ==
            CellFold(key, pid, hashes, CellOf(p, key), WantsFor(key, ss))
    decreases |ss|
  {
    if ss != [] {
      var s, q := ss[0], AddAll(p, pid, hashes, ss[0]).value;
      var p1 := AddStatement(p, pid, s.locale, s.body.value);
      var text := if key == StatementKey(s.locale) then [s.body.value] else [];
      var files := ResourcesFor(key, s.locale, s.resources.value);
      assert CellOf(p1, key) == CellFold(key, pid, hashes, CellOf(p, key), text);
      ResourcesAtKey(p1, pid, hashes, s.locale, s.resources.value, key);
      CellFoldConcat(key, pid, hashes, CellOf(p, key), text, files);
      CellFoldConcat(key, pid, hashes, CellOf(p, key), text + files, WantsFor(key, ss[1..]));
      PlanAtKey(q, pid, hashes, ss[1..], key);
    }
  }

  // ---- When there is a plan ----

  ghost predicate Readable(ss: seq<Statement>) {
    forall i :: 0 <= i < |ss| ==> ss[i].body.Some? && ss[i].resources.Some? && AllReadable(ss[i].resources.value)
  }

  ghost predicate AllReadable(rs: seq<Resource>) {
    forall j :: 0 <= j < |rs| ==> rs[j].readable
  }

  // The files of the rows in the plan are there.
  ghost predicate FilesAreThere(p: Plan, hashes: map<int, string>) {
    forall k :: k in p.events ==> p.events[k].row.fileID == 0 || p.events[k].row.fileID in hashes
  }

  lemma AddKeepsFiles(p: Plan, pid: int, hashes: map<int, string>, locale: string, body: string, r: Resource)
    requires FilesAreThere(p, hashes)
    ensures FilesAreThere(AddStatement(p, pid, locale, body), hashes)
    ensures AddResource(p, pid, hashes, locale, r).Some? <==> r.readable
    ensures r.readable ==> FilesAreThere(AddResource(p, pid, hashes, locale, r).value, hashes)
  {
  }

  lemma {:induction false} ResourcesAreAdded(
      p: Plan, pid: int, hashes: map<int, string>, locale: string, rs: seq<Resource>)
    requires FilesAreThere(p, hashes)
    ensures AddResources(p, pid, hashes, locale, rs).Some? <==> AllReadable(rs)
    ensures AllReadable(rs) ==> FilesAreThere(AddResources(p, pid, hashes, locale, rs).value, hashes)
    decreases |rs|
  {
    hide FilesAreThere, AddResource, AddStatement;
    if rs != [] {
      AddKeepsFiles(p, pid, hashes, locale, "", rs[0]);
      assert AllReadable(rs) <==> rs[0].readable && AllReadable(rs[1..]) by {
        assert forall j :: 0 < j < |rs| ==> rs[j] == rs[1..][j - 1];
      }
      if rs[0].readable {
        ResourcesAreAdded(AddResource(p, pid, hashes, locale, rs[0]).value, pid, hashes, locale, rs[1..]);
      }
    }
  }

  /** When the files of the old rows exist, a plan is made exactly if everything in the package can be
      read. */
  lemma {:induction false} PlanIsMadeWhenReadable(p: Plan, pid: int, hashes: map<int, string>, ss: seq<Statement>)
    requires FilesAreThere(p, hashes)
    ensures AddStatements(p, pid, hashes, ss).Some? <==> Readable(ss)
    decreases |ss|
  {
    hide FilesAreThere, AddResources, AddStatement, AllReadable;
    if ss != [] {
      var s := ss[0];
      assert Readable(ss) <==> s.body.Some? && s.resources.Some? && AllReadable(s.resources.value) && Readable(ss[1..]) by {
        assert forall j :: 0 < j < |ss| ==> ss[j] == ss[1..][j - 1];
      }
      if s.body.Some? && s.resources.Some? {
        var none := Resource("", "", false);
        AddKeepsFiles(p, pid, hashes, s.locale, s.body.value, none);
        var p1 := AddStatement(p, pid, s.locale, s.body.value);
        ResourcesAreAdded(p1, pid, hashes, s.locale, s.resources.value);
        if AllReadable(s.resources.value) {
          PlanIsMadeWhenReadable(AddResources(p1, pid, hashes, s.locale, s.resources.value).value, pid, hashes, ss[1..]);
        }
      }
    }
  }

  // ---- Wanted once, or more often ----

  function FirstCell(was: Option<Row>): Cell {
    Cell(if was.None? then None else Some(Delete(was.value)), None)
  }

  /** Asking for one key again does no harm when there is an old row and no file but the last asked for
      is the one it has. */
  predicate Harmless(hashes: map<int, string>, key: Key, was: Option<Row>, wants: seq<string>) {
    |wants| <= 1 || (was.Some? && forall i :: 0 <= i < |wants| - 1 ==> !HasFile(hashes, key, was.value, wants[i]))
  }

  // An update of a row that does not exist.
  predicate Broken(change: Change) {
    change.Update? && change.row.id == 0
  }

  lemma {:induction false} ReaderIsLast(key: Key, pid: int, hashes: map<int, string>, cell: Cell, wants: seq<string>)
    requires wants != [] && key.ResourceKey? && CellFold(key, pid, hashes, cell, wants).change.Some?
    ensures CellFold(key, pid, hashes, cell, wants).reader == Some(wants[|wants| - 1])
    decreases |wants|
  {
    if |wants| > 1 {
      ReaderIsLast(key, pid, hashes, CellStep(key, pid, hashes, cell, wants[0]), wants[1..]);
    } else {
      assert CellFold(key, pid, hashes, cell, wants) == CellStep(key, pid, hashes, cell, wants[0]);
    }
  }

  lemma {:induction false} StatementsReadNoFile(
      key: Key, pid: int, hashes: map<int, string>, cell: Cell, wants: seq<string>)
    requires key.StatementKey? || wants == []
    ensures CellFold(key, pid, hashes, cell, wants).reader == cell.reader
    decreases |wants|
  {
    if wants != [] {
      StatementsReadNoFile(key, pid, hashes, CellStep(key, pid, hashes, cell, wants[0]), wants[1..]);
    }
  }

  lemma {:induction false} FoldOfOldRow(
      key: Key, pid: int, hashes: map<int, string>, cell: Cell, row: Row, wants: seq<string>)
    requires cell.change.Some? && !cell.change.value.Create? && cell.change.value.row.(config := row.config) == row
    requires wants != [] && forall i :: 0 <= i < |wants| - 1 ==> !HasFile(hashes, key, row, wants[i])
    ensures var want := wants[|wants| - 1];
            CellFold(key, pid, hashes, cell, wants).change ==
              if HasFile(hashes, key, row, want) then None else Some(Update(row.(config := ConfigFor(key, want))))
    decreases |wants|
  {
    var next := CellStep(key, pid, hashes, cell, wants[0]);
    if |wants| > 1 {
      FoldOfOldRow(key, pid, hashes, next, row, wants[1..]);
    } else {
      assert CellFold(key, pid, hashes, cell, wants) == next;
    }
  }

  lemma {:induction false} FoldOfNewRow(key: Key, pid: int, hashes: map<int, string>, cell: Cell, wants: seq<string>)
    requires cell.change.Some? && cell.change.value.row.id == 0 && cell.change.value.row.fileID == 0
    requires wants != []
    ensures var c := CellFold(key, pid, hashes, cell, wants).change; c.Some? && Broken(c.value)
    decreases |wants|
  {
    var next := CellStep(key, pid, hashes, cell, wants[0]);
    if |wants| > 1 {
      FoldOfNewRow(key, pid, hashes, next, wants[1..]);
    } else {
      assert CellFold(key, pid, hashes, cell, wants) == next;
    }
  }

  lemma FoldOfNothing(key: Key, pid: int, hashes: map<int, string>, cell: Cell, wants: seq<string>)
    requires cell.change.None? && wants != []
    ensures var c := CellFold(key, pid, hashes, cell, wants).change;
            c.Some? && if |wants| == 1 then c.value == Create(Row(0, pid, ConfigFor(key, wants[0]), 0))
                       else Broken(c.value)
  {
    var next := CellStep(key, pid, hashes, cell, wants[0]);
    if |wants| > 1 {
      FoldOfNewRow(key, pid, hashes, next, wants[1..]);
    } else {
      assert CellFold(key, pid, hashes, cell, wants) == next;
    }
  }

  // A file kept because of an earlier resource of the same name: its entry is gone when the next one comes.
  lemma {:induction false} FoldOfKeptFile(
      key: Key, pid: int, hashes: map<int, string>, cell: Cell, row: Row, wants: seq<string>, i: nat)
    requires cell.change.Some? && !cell.change.value.Create? && cell.change.value.row.(config := row.config) == row
    requires i < |wants| - 1 && HasFile(hashes, key, row, wants[i])
    requires forall j :: 0 <= j < i ==> !HasFile(hashes, key, row, wants[j])
    ensures var c := CellFold(key, pid, hashes, cell, wants).change; c.Some? && (Broken(c.value) || c.value.Create?)
    decreases i
  {
    var next := CellStep(key, pid, hashes, cell, wants[0]);
    if i == 0 {
      FoldOfNothing(key, pid, hashes, next, wants[1..]);
    } else {
      FoldOfKeptFile(key, pid, hashes, next, row, wants[1..], i - 1);
    }
  }

  ghost predicate IsChange(c: Option<Change>, pid: int, key: Key, was: Option<Row>, hashes: map<int, string>, wants: seq<string>) {
    if wants == [] then c == FirstCell(was).change
    else
      var config := ConfigFor(key, wants[|wants| - 1]);
      match was
      case None => c == Some(Create(Row(0, pid, config, 0)))
      case Some(row) =>
        c == if HasFile(hashes, key, row, wants[|wants| - 1]) then None else Some(Update(row.(config := config)))
  }

  /** The planned change of a key is the right one exactly when asking does no harm; otherwise it updates
      a row that does not exist or creates a second row. */
  lemma PlannedChange(key: Key, pid: int, hashes: map<int, string>, was: Option<Row>, wants: seq<string>)
    requires was.Some? ==> was.value.id != 0
    ensures var c := CellFold(key, pid, hashes, FirstCell(was), wants).change;
            if Harmless(hashes, key, was, wants) then IsChange(c, pid, key, was, hashes, wants)
            else c.Some? && (Broken(c.value) || (c.value.Create? && was.Some?))
  {
    if wants != [] {
      if was.None? {
        FoldOfNothing(key, pid, hashes, FirstCell(was), wants);
      } else if Harmless(hashes, key, was, wants) {
        FoldOfOldRow(key, pid, hashes, FirstCell(was), was.value, wants);
      } else {
        var i := FirstKept(hashes, key, was.value, wants);
        FoldOfKeptFile(key, pid, hashes, FirstCell(was), was.value, wants, i);
      }
    }
  }

  lemma {:induction false} FirstKept(hashes: map<int, string>, key: Key, row: Row, wants: seq<string>) returns (i: nat)
    requires !Harmless(hashes, key, Some(row), wants)
    ensures i < |wants| - 1 && HasFile(hashes, key, row, wants[i])
    ensures forall j :: 0 <= j < i ==> !HasFile(hashes, key, row, wants[j])
  {
    i := 0;
    while !HasFile(hashes, key, row, wants[i])
      invariant i < |wants| - 1
      invariant forall j :: 0 <= j < i ==> !HasFile(hashes, key, row, wants[j])
      decreases |wants| - i
    {
      i := i + 1;
    }
  }
}
