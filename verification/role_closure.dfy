/** The permissions of an account: a search over the graph of roles, which may have cycles
    (internal/managers/account.go). */
module RoleClosure {
  import opened Options
  import opened Sets
  import opened Index = BTreeIndex

  datatype Edge = Edge(roleID: int, childID: int)

  /** The roles by id, each with its name, the edges by id from roles to the roles they include, and the
      names that are built in. */
  datatype Graph = Graph(roles: map<int, string>, rows: map<int, Edge>, builtIn: set<string>) {
    ghost function Edges(): set<Edge> {
      set x | x in rows :: rows[x]
    }
  }

  // ---- What the search is to find ----

  ghost predicate IsPath(edges: set<Edge>, path: seq<int>) {
    forall i :: 0 <= i < |path| - 1 ==> Edge(path[i], path[i + 1]) in edges
  }

  ghost predicate PathTo(edges: set<Edge>, start: set<int>, path: seq<int>, id: int) {
    path != [] && path[0] in start && path[|path| - 1] == id && IsPath(edges, path)
  }

  ghost predicate Reachable(edges: set<Edge>, start: set<int>, id: int) {
    exists path :: PathTo(edges, start, path, id)
  }

  /** The built-in names of the roles that can be reached. */
  ghost predicate IsClosure(g: Graph, start: set<int>, permissions: set<string>) {
    forall name :: name in permissions <==>
      exists id :: Reachable(g.Edges(), start, id) && id in g.roles && g.roles[id] == name && name in g.builtIn
  }

  lemma StartIsReachable(edges: set<Edge>, start: set<int>, id: int)
    requires id in start
    ensures Reachable(edges, start, id)
  {
    assert PathTo(edges, start, [id], id);
  }

  lemma ChildIsReachable(edges: set<Edge>, start: set<int>, edge: Edge)
    requires Reachable(edges, start, edge.roleID) && edge in edges
    ensures Reachable(edges, start, edge.childID)
  {
    var path :| PathTo(edges, start, path, edge.roleID);
    assert PathTo(edges, start, path + [edge.childID], edge.childID);
  }

  /** A set with the start that no edge leaves has everything reachable. */
  lemma {:induction false} ClosedSetHasAll(edges: set<Edge>, start: set<int>, all: set<int>, path: seq<int>, id: int)
    requires start <= all && forall e :: e in edges && e.roleID in all ==> e.childID in all
    requires PathTo(edges, start, path, id)
    ensures id in all
    decreases |path|
  {
    if |path| > 1 {
      var front := path[..|path| - 1];
      ClosedSetHasAll(edges, start, all, front, front[|front| - 1]);
      assert Edge(path[|path| - 2], path[|path| - 1]) in edges;
    }
  }

  // ---- The search ----

  function ParentOf(e: Edge): Option<int> {
    Some(e.roleID)
  }

  /** The index of edges by their parent, and ids that are 64-bit. */
  ghost predicate IsIndexOf(index: BTreeIndex<int, Edge>, rows: map<int, Edge>)
    reads index
  {
    && index.Valid() && index.key == ParentOf && Agrees(Entries(index), ParentOf, rows)
    && forall id :: id in rows ==> MIN_INT64 <= id
  }

  /** The rows of a lookup: iterators that are read as the rows are asked for. A key that was given twice
      has two iterators. */
  class EdgeRows {
    const rows: map<int, Edge>
    var iters: set<IndexIter<int>>
    var current: int
    ghost var pairs: set<(IndexIter<int>, int)>  // what each iterator has still to yield

    ghost predicate Has(it: IndexIter<int>, id: int)
      requires 0 <= it.pos < |it.entries|
      reads it
    {
      id == it.ID() || id in it.todo
    }

    ghost predicate Usable(it: IndexIter<int>)
      reads it
    {
      it.Valid() && it.seeked && 0 <= it.pos < |it.entries| && it.ID() !in it.todo
    }

    ghost predicate Valid()
      reads this, iters
    {
      && (forall it :: it in iters ==> Usable(it))
      && (forall it, id :: it in iters ==> ((it, id) in pairs <==> Has(it, id)))
      && (forall p :: p in pairs ==> p.0 in iters)
    }

    /** The ids to come. */
    ghost function Left(): set<int>
      reads this
    {
      set p | p in pairs :: p.1
    }

    constructor (rows: map<int, Edge>)
      ensures Valid() && iters == {} && Left() == {} && this.rows == rows
    {
      this.rows, iters, current, pairs := rows, {}, 0, {};
    }

    method Add(it: IndexIter<int>)
      requires Valid() && it !in iters && it.Valid() && !it.seeked && !it.reverse
      modifies this, it
      ensures Valid() && iters <= old(iters) + {it}
      ensures Left() == old(Left()) + old(it.todo)
    {
      hide IndexIter.Valid;
      ghost var ids := it.todo;
      var more := it.Next();
      if more {
        assert forall id :: Has(it, id) <==> id in ids;
        iters := iters + {it};
        pairs := pairs + set id | id in ids :: (it, id);
      }
      forall id
        ensures id in Left() <==> id in old(Left()) || id in ids
      {
        assert (exists p :: p in old(pairs) && p.1 == id) ==> id in Left();
        if id in ids {
          assert (it, id) in pairs && (it, id).1 == id;
        }
      }
    }

    /** Stands on the next row, or reports that there is none. Ids without a row are passed over. */
    method Next() returns (ok: bool)
      requires Valid()
      modifies this, iters
      ensures Valid() && iters <= old(iters) && pairs <= old(pairs)
      ensures ok ==> current in old(Left()) && current in rows && |pairs| < |old(pairs)|
      ensures ok ==> forall id :: id in old(Left()) && id in rows && id != current ==> id in Left()
      ensures !ok ==> forall id :: id in old(Left()) ==> id !in rows
    {
      hide IndexIter.Valid;
      while iters != {}
        invariant Valid() && iters <= old(iters) && pairs <= old(pairs)
        invariant forall id :: id in old(Left()) && id in rows ==> id in Left()
        decreases |pairs|
      {
        var id := Advance();
        if id in rows {
          current := id;
          return true;
        }
      }
      ok := false;
    }

    // Pops the first iterator, moves it on, and puts it back if it has more.
    method Advance() returns (id: int)
      requires Valid() && iters != {}
      modifies this, iters
      ensures Valid() && iters <= old(iters)
      ensures pairs < old(pairs) && |pairs| < |old(pairs)|
      ensures id in old(Left()) && forall x :: x in old(Left()) && x != id ==> x in Left()
    {
      hide IndexIter.Valid;
      var it := PopFirst(iters, false);
      id := it.ID();
      ghost var ids, was := it.todo, pairs;
      assert (it, id) in pairs;
      var more := it.Next();
      if more {
        assert forall x :: Has(it, x) <==> x in ids;
      } else {
        iters := iters - {it};
      }
      pairs := pairs - {(it, id)};
      assert forall p :: p in was ==> p == (p.0, p.1);
      assert forall x :: (it, x) in pairs <==> x in ids;
      SmallerSet(pairs, was, (it, id));
    }
  }

  lemma EdgesOfRole(index: BTreeIndex<int, Edge>, rows: map<int, Edge>, role: int, ids: set<int>)
    requires IsIndexOf(index, rows)
    requires ids == set e | e in index.m && e.key == role && InRange(false, 0, e.id) :: e.id
    ensures forall id :: id in rows ==> (id in ids <==> rows[id].roleID == role)
  {
    forall id | id in rows
      ensures id in ids <==> rows[id].roleID == role
    {
      assert Entry(rows[id].roleID, id) in Entries(index);
    }
  }

  /** The edges out of any of the roles of the slice. The keys are read now, the rows later. */
  method FindByRole(index: BTreeIndex<int, Edge>, rows: map<int, Edge>, buffer: array<int>, n: nat)
    returns (found: EdgeRows)
    requires IsIndexOf(index, rows) && n <= buffer.Length
    ensures fresh(found) && fresh(found.iters) && found.Valid() && found.rows == rows
    ensures forall id :: id in rows ==> (id in found.Left() <==> rows[id].roleID in buffer[..n])
  {
    hide EdgeRows.Valid, IndexIter.Valid;
    found := new EdgeRows(rows);
    for i := 0 to n
      invariant fresh(found) && fresh(found.iters) && found.Valid() && found.rows == rows
      invariant forall id :: id in rows ==> (id in found.Left() <==> rows[id].roleID in buffer[..i])
    {
      var it := index.Find(buffer[i], 0, false);
      ghost var was := found.Left();
      EdgesOfRole(index, rows, buffer[i], it.todo);
      found.Add(it);
      assert buffer[..i + 1] == buffer[..i] + [buffer[i]];
    }
  }

  /** A slice: the first elements of a buffer. */
  method Append(buffer: array<int>, n: nat, id: int) returns (next: array<int>)
    requires n <= buffer.Length
    modifies buffer
    ensures next == buffer || fresh(next)
    ensures n + 1 <= next.Length && next[..n + 1] == old(buffer[..n]) + [id]
  {
    next := buffer;
    if n == buffer.Length {
      next := new int[2 * n + 1];
      for i := 0 to n
        invariant next[..i] == buffer[..i] && buffer[..] == old(buffer[..])
        invariant fresh(next) && next.Length == 2 * n + 1
      {
        next[i] := buffer[i];
      }
    }
    next[n] := id;
  }

  ghost function Children(edges: set<Edge>): set<int> {
    set e | e in edges :: e.childID
  }

  /** What holds before each round: `seen` is the start and its reachable descendants so far, of which all
      but the current round have been looked at, with their edges. */
  ghost predicate Searching(g: Graph, start: set<int>, seen: set<int>, todo: set<int>, permissions: set<string>) {
    && start <= seen && todo <= seen && seen <= start + Children(g.Edges())
    && (forall id :: id in seen ==> Reachable(g.Edges(), start, id))
    && (forall id :: id in seen - todo ==> id in g.roles)
    && (forall e :: e in g.Edges() && e.roleID in seen - todo ==> e.childID in seen)
    && forall name :: name in permissions <==>
         exists id :: id in seen - todo && id in g.roles && g.roles[id] == name && name in g.builtIn
  }

  function Members(s: seq<int>): set<int> {
    set id | id in s
  }

  ghost function BuiltInNames(g: Graph, ids: set<int>): set<string> {
    set id | id in ids && id in g.roles && g.roles[id] in g.builtIn :: g.roles[id]
  }

  /** One round looks at the roles of the slice and collects the children not seen before. */
  lemma RoundKeeps(
      g: Graph, start: set<int>, seen: set<int>, todo: set<int>, permissions: set<string>,
      seen': set<int>, todo': set<int>, permissions': set<string>)
    requires Searching(g, start, seen, todo, permissions)
    requires forall id :: id in todo ==> id in g.roles
    requires permissions' == permissions + BuiltInNames(g, todo)
    requires seen' == seen + todo' && todo' !! seen
    requires forall id :: id in seen' <==> id in seen || HasParent(g.Edges(), todo, id)
    ensures Searching(g, start, seen', todo', permissions')
  {
    forall id | id in seen'
      ensures Reachable(g.Edges(), start, id)
    {
      if id !in seen {
        var e :| e in g.Edges() && e.roleID in todo && e.childID == id;
        ChildIsReachable(g.Edges(), start, e);
        assert e.childID in Children(g.Edges());
      }
    }
    forall id | id in seen'
      ensures id in start + Children(g.Edges())
    {
      if id !in seen {
        var e :| e in g.Edges() && e.roleID in todo && e.childID == id;
      }
    }
    assert seen' - todo' == seen;
  }

  // The rows of a round are the edges out of its roles.
  lemma ChildrenOfRound(g: Graph, left: set<int>, todo: set<int>)
    requires forall x :: x in g.rows ==> (x in left <==> g.rows[x].roleID in todo)
    ensures forall id :: HasParent(g.Edges(), todo, id) <==>
              exists x :: x in left && x in g.rows && g.rows[x].childID == id
  {
    forall id | HasParent(g.Edges(), todo, id)
      ensures exists x :: x in left && x in g.rows && g.rows[x].childID == id
    {
      var e :| e in g.Edges() && e.roleID in todo && e.childID == id;
      var x :| x in g.rows && g.rows[x] == e;
    }
    forall x | x in left && x in g.rows
      ensures HasParent(g.Edges(), todo, g.rows[x].childID)
    {
      assert g.rows[x] in g.Edges();
    }
  }

  ghost predicate HasParent(edges: set<Edge>, from: set<int>, id: int) {
    exists e :: e in edges && e.roleID in from && e.childID == id
  }

  lemma DoneIsClosure(g: Graph, start: set<int>, seen: set<int>, permissions: set<string>)
    requires Searching(g, start, seen, {}, permissions)
    ensures forall id :: Reachable(g.Edges(), start, id) <==> id in seen
    ensures IsClosure(g, start, permissions)
  {
    forall id | Reachable(g.Edges(), start, id)
      ensures id in seen
    {
      var path :| PathTo(g.Edges(), start, path, id);
      ClosedSetHasAll(g.Edges(), start, seen, path, id);
    }
  }

  lemma SearchStarts(g: Graph, start: set<int>)
    ensures Searching(g, start, start, start, {})
  {
    forall id | id in start
      ensures Reachable(g.Edges(), start, id)
    {
      StartIsReachable(g.Edges(), start, id);
    }
  }

  lemma MissingIsReachable(g: Graph, start: set<int>, seen: set<int>, todo: set<int>, permissions: set<string>, id: int)
    requires Searching(g, start, seen, todo, permissions) && id in todo
    ensures Reachable(g.Edges(), start, id)
  {
  }

  lemma RoundShrinks(
      g: Graph, start: set<int>, seen: set<int>, permissions: set<string>, seen': set<int>, next: seq<int>)
    requires Searching(g, start, seen', Members(next), permissions)
    requires seen' == seen + Members(next) && Members(next) !! seen
    ensures var all := start + Children(g.Edges());
            if next == [] then seen' == seen else |all - seen'| < |all - seen|
  {
    var all := start + Children(g.Edges());
    if next != [] {
      assert next[0] in Members(next) && next[0] in seen';
      assert next[0] in all - seen && next[0] !in all - seen';
      SmallerSet(all - seen', all - seen, next[0]);
    }
  }

  /** The permissions of one round, or None when one of the roles does not exist. */
  method AddPermissions(g: Graph, ids: array<int>, n: nat, permissions: set<string>) returns (r: Option<set<string>>)
    requires n <= ids.Length
    ensures r.None? <==> exists id :: id in Members(ids[..n]) && id !in g.roles
    ensures r.Some? ==> r.value == permissions + BuiltInNames(g, Members(ids[..n]))
  {
    var all := permissions;
    for i := 0 to n
      invariant forall id :: id in Members(ids[..i]) ==> id in g.roles
      invariant all == permissions + BuiltInNames(g, Members(ids[..i]))
    {
      var id := ids[i];
      assert Members(ids[..i + 1]) == Members(ids[..i]) + {id};
      if id !in g.roles {
        assert id in Members(ids[..n]);
        return None;
      }
      if g.roles[id] in g.builtIn {
        all := all + {g.roles[id]};
      }
    }
    return Some(all);
  }

  /** The children not seen before, written over the roles of the round while the edges are read. */
  method NextRound(found: EdgeRows, buffer: array<int>, seen: set<int>)
    returns (next: array<int>, n: nat, all: set<int>)
    requires found.Valid()
    modifies buffer, found, found.iters
    ensures next == buffer || fresh(next)
    ensures n <= next.Length
    ensures all == seen + Members(next[..n]) && Members(next[..n]) !! seen
    ensures forall id :: id in all <==>
              id in seen || exists x :: x in old(found.Left()) && x in found.rows && found.rows[x].childID == id
  {
    hide EdgeRows.Valid;
    next, n, all := buffer, 0, seen;
    while true
      invariant next == buffer || fresh(next)
      invariant found.Valid() && found.iters <= old(found.iters) && found.pairs <= old(found.pairs)
      invariant n <= next.Length
      invariant all == seen + Members(next[..n]) && Members(next[..n]) !! seen
      invariant forall id :: id in all ==>
        id in seen || exists x :: x in old(found.Left()) && x in found.rows && found.rows[x].childID == id
      invariant forall x :: x in old(found.Left()) && x in found.rows ==> x in found.Left() || found.rows[x].childID in all
      decreases |found.pairs|
    {
      var ok := found.Next();
      if !ok {
        return;
      }
      var child := found.rows[found.current].childID;
      assert found.current in old(found.Left());
      if child !in all {
        ghost var ids := next[..n];
        next := Append(next, n, child);
        n := n + 1;
        all := all + {child};
        assert Members(next[..n]) == Members(ids) + {child};
      }
    }
  }

  /** Ends on every graph. It fails exactly when a role that can be reached does not exist; otherwise it
      returns the built-in names of the roles that can be reached. The slice is used again for the next
      round while the edges of this one are read. */
  method GetRecursivePermissions(g: Graph, index: BTreeIndex<int, Edge>, roleIDs: array<int>)
    returns (r: Option<set<string>>)
    requires IsIndexOf(index, g.rows)
    modifies roleIDs
    ensures var start := Members(old(roleIDs[..]));
            && (r.None? <==> exists id :: Reachable(g.Edges(), start, id) && id !in g.roles)
            && (r.Some? ==> IsClosure(g, start, r.value))
  {
    hide Searching, Reachable, IsClosure, IsIndexOf, EdgeRows.Valid, HasParent;
    var buffer, n := roleIDs, roleIDs.Length;
    var seen: set<int> := {};
    for i := 0 to n
      invariant seen == Members(buffer[..i])
    {
      seen := seen + {buffer[i]};
    }
    assert buffer[..n] == buffer[..];
    ghost var start := seen;
    var permissions: set<string> := {};
    SearchStarts(g, start);
    while n > 0
      invariant n <= buffer.Length && (buffer == roleIDs || fresh(buffer))
      invariant Searching(g, start, seen, Members(buffer[..n]), permissions)
      decreases |start + Children(g.Edges()) - seen|, n
    {
      ghost var todo, before, had := Members(buffer[..n]), seen, permissions;
      var added := AddPermissions(g, buffer, n, permissions);
      if added.None? {
        ghost var id :| id in todo && id !in g.roles;
        MissingIsReachable(g, start, seen, todo, permissions, id);
        return None;
      }
      permissions := added.value;
      var found := FindByRole(index, g.rows, buffer, n);
      ghost var left := found.Left();
      buffer, n, seen := NextRound(found, buffer, seen);
      ChildrenOfRound(g, left, todo);
      RoundKeeps(g, start, before, todo, had, seen, Members(buffer[..n]), permissions);
      RoundShrinks(g, start, before, permissions, seen, buffer[..n]);
    }
    assert Members(buffer[..n]) == {};
    DoneIsClosure(g, start, seen, permissions);
    NothingIsMissing(g, start, seen, permissions);
    return Some(permissions);
  }

  lemma NothingIsMissing(g: Graph, start: set<int>, seen: set<int>, permissions: set<string>)
    requires Searching(g, start, seen, {}, permissions)
    ensures forall id :: id in seen ==> id in g.roles
  {
  }
}
