/** Updating the statements and statement files of a problem from a new package
    (internal/invoker/update_problem_package.go). */
module PackageDiff {
  import opened Options

  datatype Key = StatementKey(locale: string) | ResourceKey(locale: string, name: string)

  /** Kind and content of a row. A row of another kind, or whose content does not parse, is `OtherConfig`. */
  datatype Config =
    | StatementConfig(locale: string, body: string)
    | ResourceConfig(locale: string, name: string)
    | OtherConfig(raw: string)

  datatype Row = Row(id: int, problemID: int, config: Config, fileID: int)

  datatype Change = Create(row: Row) | Update(row: Row) | Delete(row: Row)

  function KeyOf(config: Config): Option<Key> {
    match config
    case StatementConfig(locale, _) => Some(StatementKey(locale))
    case ResourceConfig(locale, name) => Some(ResourceKey(locale, name))
    case OtherConfig(_) => None
  }

  // ---- The package. What it holds may turn out unreadable. ----

  /** A file, known by the hash of its content. */
  datatype Resource = Resource(name: string, hash: string, readable: bool)
  datatype Statement = Statement(locale: string, body: Option<string>, resources: Option<seq<Resource>>)

  /** Stored files by id, each known by its hash, and the next free id. */
  datatype Files = Files(hashes: map<int, string>, next: int)
  datatype Table = Table(rows: map<int, Row>, next: int)

  // ---- Old rows ----

  datatype Collected = Collected(events: map<Key, Change>, duplicates: seq<Row>)

  function CollectFrom(c: Collected, rows: seq<Row>): Collected
    decreases |rows|
  {
    if rows == [] then c else CollectFrom(CollectOne(c, rows[0]), rows[1..])
  }

  function CollectOne(c: Collected, row: Row): Collected {
    match KeyOf(row.config)
    case None => c
    case Some(k) =>
      Collected(c.events[k := Delete(row)],
                if k in c.events then c.duplicates + [c.events[k].row] else c.duplicates)
  }

  /** Every old row is first taken for unwanted. */
  method Collect(rows: seq<Row>) returns (events: map<Key, Change>, duplicates: seq<Row>)
    ensures Collected(events, duplicates) == CollectFrom(Collected(map[], []), rows)
  {
    events, duplicates := map[], [];
    var i := 0;
    while i < |rows|
      invariant 0 <= i <= |rows|
      invariant CollectFrom(Collected(events, duplicates), rows[i..]) == CollectFrom(Collected(map[], []), rows)
    {
      assert rows[i..][1..] == rows[i + 1..];
      match KeyOf(rows[i].config) {
        case None =>
        case Some(key) =>
          if key in events {
            duplicates := duplicates + [events[key].row];
          }
          events := events[key := Delete(rows[i])];
      }
      i := i + 1;
    }
  }

  // ---- The plan ----

  datatype Plan = Plan(events: map<Key, Change>, readers: map<Key, string>)

  function ConfigFor(key: Key, want: string): Config {
    match key
    case StatementKey(locale) => StatementConfig(locale, want)
    case ResourceKey(locale, name) => ResourceConfig(locale, name)
  }

  function AddStatement(p: Plan, pid: int, locale: string, body: string): Plan {
    var key := StatementKey(locale);
    var change := if key in p.events then Update(p.events[key].row.(config := StatementConfig(locale, body)))
                  else Create(Row(0, pid, StatementConfig(locale, body), 0));
    p.(events := p.events[key := change])
  }

  function AddResource(p: Plan, pid: int, hashes: map<int, string>, locale: string, r: Resource): Option<Plan> {
    var key, config := ResourceKey(locale, r.name), ResourceConfig(locale, r.name);
    if key !in p.events then
      if !r.readable then None
      else Some(Plan(p.events[key := Create(Row(0, pid, config, 0))], p.readers[key := r.hash]))
    else
      var row := p.events[key].row;
      if (row.fileID != 0 && row.fileID !in hashes) || !r.readable then None
      else if row.fileID != 0 && hashes[row.fileID] == r.hash then Some(p.(events := p.events - {key}))
      else Some(Plan(p.events[key := Update(row.(config := config))], p.readers[key := r.hash]))
  }

  function AddResources(p: Plan, pid: int, hashes: map<int, string>, locale: string, rs: seq<Resource>): Option<Plan>
    decreases |rs|
  {
    if rs == [] then Some(p)
    else
      match AddResource(p, pid, hashes, locale, rs[0])
      case None => None
      case Some(q) => AddResources(q, pid, hashes, locale, rs[1..])
  }

  function AddAll(p: Plan, pid: int, hashes: map<int, string>, s: Statement): Option<Plan> {
    if s.body.None? || s.resources.None? then None
    else AddResources(AddStatement(p, pid, s.locale, s.body.value), pid, hashes, s.locale, s.resources.value)
  }

  function AddStatements(p: Plan, pid: int, hashes: map<int, string>, ss: seq<Statement>): Option<Plan>
    decreases |ss|
  {
    if ss == [] then Some(p)
    else
      match AddAll(p, pid, hashes, ss[0])
      case None => None
      case Some(q) => AddStatements(q, pid, hashes, ss[1..])
  }

  /** Old rows become updates where the package wants them, and lose their entry where their file has
      the wanted content already. */
  method MakePlan(events: map<Key, Change>, pid: int, hashes: map<int, string>, statements: seq<Statement>)
    returns (r: Option<Plan>)
    ensures r == AddStatements(Plan(events, map[]), pid, hashes, statements)
  {
    var plan := Plan(events, map[]);
    var i := 0;
    while i < |statements|
      invariant 0 <= i <= |statements|
      invariant AddStatements(plan, pid, hashes, statements[i..]) ==
                AddStatements(Plan(events, map[]), pid, hashes, statements)
    {
      var s := statements[i];
      assert statements[i..][1..] == statements[i + 1..];
      if s.body.None? {
        return None;
      }
      var before := plan;
      plan := AddStatement(plan, pid, s.locale, s.body.value);
      if s.resources.None? {
        return None;
      }
      var rs, j := s.resources.value, 0;
      while j < |rs|
        invariant 0 <= j <= |rs|
        invariant AddResources(plan, pid, hashes, s.locale, rs[j..]) == AddAll(before, pid, hashes, s)
      {
        assert rs[j..][1..] == rs[j + 1..];
        var added := AddResource(plan, pid, hashes, s.locale, rs[j]);
        if added.None? {
          return None;
        }
        plan, j := added.value, j + 1;
      }
      i := i + 1;
    }
    return Some(plan);
  }

  // ---- Uploads ----

  datatype Uploaded = Uploaded(events: map<Key, Change>, files: Files)

  function UploadOne(u: Uploaded, key: Key, hash: string): Uploaded {
    if key !in u.events then u
    else
      var change := u.events[key];
      Uploaded(u.events[key := change.(row := change.row.(fileID := u.files.next))],
               Files(u.files.hashes[u.files.next := hash], u.files.next + 1))
  }

  function UploadFrom(u: Uploaded, readers: map<Key, string>, order: seq<Key>): Uploaded
    requires forall k :: k in order ==> k in readers
    decreases |order|
  {
    if order == [] then u else UploadFrom(UploadOne(u, order[0], readers[order[0]]), readers, order[1..])
  }

  // ---- Applying ----

  function ApplyOne(t: Table, change: Change): Option<Table> {
    match change
    case Create(row) => Some(Table(t.rows[t.next := row.(id := t.next)], t.next + 1))
    case Update(row) => if row.id in t.rows then Some(t.(rows := t.rows[row.id := row])) else None
    case Delete(row) => if row.id in t.rows then Some(t.(rows := t.rows - {row.id})) else None
  }

  function ApplyFrom(t: Table, events: map<Key, Change>, order: seq<Key>): Option<Table>
    requires forall k :: k in order ==> k in events
    decreases |order|
  {
    if order == [] then Some(t)
    else
      match ApplyOne(t, events[order[0]])
      case None => None
      case Some(u) => ApplyFrom(u, events, order[1..])
  }

  function DeleteFrom(t: Table, duplicates: seq<Row>): Option<Table>
    decreases |duplicates|
  {
    if duplicates == [] then Some(t)
    else
      match ApplyOne(t, Delete(duplicates[0]))
      case None => None
      case Some(u) => DeleteFrom(u, duplicates[1..])
  }

  function ApplyAll(t: Table, duplicates: seq<Row>, events: map<Key, Change>, order: seq<Key>): Option<Table>
    requires forall k :: k in order ==> k in events
  {
    match DeleteFrom(t, duplicates)
    case None => None
    case Some(u) => ApplyFrom(u, events, order)
  }

  /** `order` visits every key of the map once. */
  ghost predicate Visits<V>(order: seq<Key>, m: map<Key, V>) {
    && (forall k :: k in order <==> k in m)
    && forall i, j :: 0 <= i < j < |order| ==> order[i] != order[j]
  }

  /** The tables of problem resources and of files. */
  class Database {
    var rows: map<int, Row>
    var nextRow: int
    var hashes: map<int, string>
    var nextFile: int

    constructor ()
      ensures rows == map[] && hashes == map[] && nextRow == 1 && nextFile == 1
    {
      rows, hashes, nextRow, nextFile := map[], map[], 1, 1;
    }

    /** Uploads the files that are still needed, in any order. */
    method Upload(plan: Plan, order: seq<Key>) returns (events: map<Key, Change>)
      requires Visits(order, plan.readers)
      modifies this`hashes, this`nextFile
      ensures Uploaded(events, Files(hashes, nextFile)) ==
              UploadFrom(Uploaded(plan.events, Files(old(hashes), old(nextFile))), plan.readers, order)
    {
      events := plan.events;
      var i := 0;
      while i < |order|
        invariant 0 <= i <= |order|
        invariant forall k :: k in order[i..] ==> k in plan.readers
        invariant UploadFrom(Uploaded(events, Files(hashes, nextFile)), plan.readers, order[i..]) ==
                  UploadFrom(Uploaded(plan.events, Files(old(hashes), old(nextFile))), plan.readers, order)
      {
        var key := order[i];
        assert order[i..][0] == key && order[i..][1..] == order[i + 1..];
        if key in events {
          hashes := hashes[nextFile := plan.readers[key]];
          events := events[key := events[key].(row := events[key].row.(fileID := nextFile))];
          nextFile := nextFile + 1;
        }
        i := i + 1;
      }
    }

    /** One transaction: all of the changes, in any order of the keys, or none of them. */
    method Apply(duplicates: seq<Row>, events: map<Key, Change>, order: seq<Key>, commitFails: bool)
      returns (ok: bool)
      requires Visits(order, events)
      modifies this`rows, this`nextRow
      ensures !ok ==> rows == old(rows)
      ensures var r := ApplyAll(Table(old(rows), old(nextRow)), duplicates, events, order);
              && ok == (r.Some? && !commitFails)
              && (ok ==> Table(rows, nextRow) == r.value)
    {
      var before := rows;
      var i := 0;
      while i < |duplicates|
        invariant 0 <= i <= |duplicates|
        invariant DeleteFrom(Table(rows, nextRow), duplicates[i..]) ==
                  DeleteFrom(Table(old(rows), old(nextRow)), duplicates)
      {
        assert duplicates[i..][1..] == duplicates[i + 1..];
        if duplicates[i].id !in rows {
          rows := before;
          return false;
        }
        rows := rows - {duplicates[i].id};
        i := i + 1;
      }
      i := 0;
      while i < |order|
        invariant 0 <= i <= |order|
        invariant forall k :: k in order[i..] ==> k in events
        invariant ApplyFrom(Table(rows, nextRow), events, order[i..]) ==
                  ApplyAll(Table(old(rows), old(nextRow)), duplicates, events, order)
      {
        var key := order[i];
        assert order[i..][0] == key && order[i..][1..] == order[i + 1..];
        match events[key] {
          case Create(row) =>
            rows := rows[nextRow := row.(id := nextRow)];
            nextRow := nextRow + 1;
          case Update(row) =>
            if row.id !in rows {
              rows := before;
              return false;
            }
            rows := rows[row.id := row];
          case Delete(row) =>
            if row.id !in rows {
              rows := before;
              return false;
            }
            rows := rows - {row.id};
        }
        i := i + 1;
      }
      if commitFails {
        rows := before;
        return false;
      }
      return true;
    }
  }
}
