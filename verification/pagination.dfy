/** Pages of contest solutions, newest first (internal/api/contests.go). */
module Pagination {
  import opened Options
  import Index = BTreeIndex

  const DEFAULT_LIMIT := 100
  const MAX_LIMIT := 5000

  datatype Solution = Solution(id: int, contestID: int, problemID: int, participantID: int)

  datatype Filter = Filter(problemID: int, participantID: int, beginID: int, limit: int)

  /** Replaces what makes no sense in a request. */
  function Parse(f: Filter): Filter {
    var beginID := if f.beginID < 0 || f.beginID == Index.MAX_INT64 then 0 else f.beginID;
    var limit := if f.limit <= 0 then DEFAULT_LIMIT else f.limit;
    f.(beginID := beginID, limit := if limit < MAX_LIMIT then limit else MAX_LIMIT)
  }

  /** A begin id that is negative or the largest one means the start; no limit means 100, and no limit goes
      above 5000. */
  lemma ParseMeans(f: Filter)
    ensures var p := Parse(f);
            && p.problemID == f.problemID && p.participantID == f.participantID
            && p.beginID == (if f.beginID < 0 || f.beginID == 0x7FFF_FFFF_FFFF_FFFF then 0 else f.beginID)
            && (f.limit <= 0 ==> p.limit == 100) && (1 <= f.limit <= 5000 ==> p.limit == f.limit)
            && (f.limit > 5000 ==> p.limit == 5000)
  {
  }

  predicate Passes(f: Filter, s: Solution) {
    && (f.beginID != 0 ==> s.id <= f.beginID)
    && (f.problemID != 0 ==> s.problemID == f.problemID)
    && (f.participantID != 0 ==> s.participantID == f.participantID)
  }

  /** The store: solutions by id, in the order they were given. */
  ghost predicate IsStore(objects: map<int, Solution>) {
    forall id :: id in objects ==> 1 <= id < Index.MAX_INT64 && objects[id].id == id
  }

  ghost predicate Descending(ids: seq<int>) {
    forall i, j :: 0 <= i < j < |ids| ==> ids[j] < ids[i]
  }

  ghost predicate Known(objects: map<int, Solution>, ids: seq<int>) {
    forall i :: 0 <= i < |ids| ==> ids[i] in objects
  }

  // ---- One page ----

  datatype Page = Page(items: seq<int>, next: int)

  /** The page over the rows from here on, after `count` rows of which `taken` were shown. */
  function PageOf(
      objects: map<int, Solution>, ids: seq<int>, f: Filter, may: Solution -> bool, count: nat, taken: nat): Page
    requires Known(objects, ids)
    decreases |ids|
  {
    if ids == [] then Page([], 0)
    else if count >= MAX_LIMIT || taken >= f.limit then Page([], ids[0])
    else if Passes(f, objects[ids[0]]) && may(objects[ids[0]]) then
      var rest := PageOf(objects, ids[1..], f, may, count + 1, taken + 1);
      Page([ids[0]] + rest.items, rest.next)
    else PageOf(objects, ids[1..], f, may, count + 1, taken)
  }

  /** Fills one page, until it is full or enough rows were looked at. */
  method FillPage(objects: map<int, Solution>, rows: seq<int>, f: Filter, may: Solution -> bool)
    returns (items: seq<int>, next: int)
    requires Known(objects, rows)
    ensures Page(items, next) == PageOf(objects, rows, f, may, 0, 0)
  {
    items, next := [], 0;
    var count := 0;
    while count < |rows|
      invariant 0 <= count <= |rows| && Known(objects, rows[count..])
      invariant PageOf(objects, rows, f, may, 0, 0) ==
                var rest := PageOf(objects, rows[count..], f, may, count, |items|);
                Page(items + rest.items, rest.next)
    {
      var solution := objects[rows[count]];
      assert rows[count..][1..] == rows[count + 1..];
      if count >= MAX_LIMIT || |items| >= f.limit {
        next := rows[count];
        return;
      }
      if Passes(f, solution) && may(solution) {
        items := items + [rows[count]];
      }
      count := count + 1;
    }
  }

  // ---- Following the pages ----

  /** The rows that are wanted, of any page. */
  function Wanted(objects: map<int, Solution>, ids: seq<int>, f: Filter, may: Solution -> bool): seq<int>
    requires Known(objects, ids)
  {
    if ids == [] then []
    else
      (if Passes(f.(beginID := 0), objects[ids[0]]) && may(objects[ids[0]]) then [ids[0]] else []) +
      Wanted(objects, ids[1..], f, may)
  }

  lemma {:induction false} WantedConcat(
      objects: map<int, Solution>, a: seq<int>, b: seq<int>, f: Filter, may: Solution -> bool)
    requires Known(objects, a) && Known(objects, b)
    ensures Known(objects, a + b)
    ensures Wanted(objects, a + b, f, may) == Wanted(objects, a, f, may) + Wanted(objects, b, f, may)
  {
    if a == [] {
      assert a + b == b;
    } else {
      assert (a + b)[1..] == a[1..] + b;
      WantedConcat(objects, a[1..], b, f, may);
    }
  }

  /** A page has the wanted rows up to the next cursor, and gets past at least one row. */
  lemma {:induction false} PageStops(
      objects: map<int, Solution>, ids: seq<int>, f: Filter, may: Solution -> bool, count: nat, taken: nat) returns (k: nat)
    requires IsStore(objects) && f.limit >= 1
    requires Known(objects, ids) && forall i :: 0 <= i < |ids| ==> f.beginID != 0 ==> ids[i] <= f.beginID
    ensures k <= |ids| && (count < MAX_LIMIT && taken < f.limit && ids != [] ==> k >= 1)
    ensures var p := PageOf(objects, ids, f, may, count, taken);
            && p.items == Wanted(objects, ids[..k], f, may)
            && taken + |p.items| <= (if taken < f.limit then f.limit else taken)
            && (k < |ids| && taken <= f.limit && count <= 5000 ==> taken + |p.items| == f.limit || count + k == 5000)
            && p.next == if k == |ids| then 0 else ids[k]
    decreases |ids|
  {
    if ids == [] || count >= MAX_LIMIT || taken >= f.limit {
      k := 0;
    } else {
      var shown := Passes(f, objects[ids[0]]) && may(objects[ids[0]]);
      k := PageStops(objects, ids[1..], f, may, count + 1, if shown then taken + 1 else taken);
      assert ids[..k + 1][1..] == ids[1..][..k];
      k := k + 1;
    }
  }

  /** What a lookup from a cursor finds of all rows. */
  function DropAbove(all: seq<int>, beginID: int): seq<int> {
    if beginID == 0 || all == [] || all[0] <= beginID then all else DropAbove(all[1..], beginID)
  }

  lemma {:induction false} DropAboveAt(all: seq<int>, j: nat)
    requires Descending(all) && j < |all| && all[j] >= 1
    ensures DropAbove(all, all[j]) == all[j..]
  {
    if j > 0 {
      DropAboveAt(all[1..], j - 1);
      assert all[1..][j - 1..] == all[j..];
    }
  }

  lemma {:induction false} DropAboveIsTail(all: seq<int>, beginID: int) returns (k: nat)
    requires Descending(all) && beginID >= 0
    ensures k <= |all| && DropAbove(all, beginID) == all[k..]
    ensures forall i :: 0 <= i < |all| ==> (k <= i <==> beginID == 0 || all[i] <= beginID)
  {
    if beginID == 0 || all == [] || all[0] <= beginID {
      k := 0;
    } else {
      k := DropAboveIsTail(all[1..], beginID);
      assert all[1..][k..] == all[k + 1..];
      k := k + 1;
    }
  }

  /** A lookup from a cursor finds the rows from there on. */
  lemma LookupFromCursor(
      objects: map<int, Solution>, key: Solution -> Option<int>, keys: seq<int>, all: seq<int>, ids: seq<int>, beginID: int)
    requires IsStore(objects) && 0 <= beginID < Index.MAX_INT64
    requires Index.IsSelection(all, objects, key, keys, 0, true)
    requires Index.IsSelection(ids, objects, key, keys, beginID, true)
    ensures ids == DropAbove(all, beginID)
  {
    assert Descending(all);
    var k := DropAboveIsTail(all, beginID);
    forall x
      ensures x in all[k..] <==> x in all && (beginID == 0 || x <= beginID)
    {
      if x in all && (beginID == 0 || x <= beginID) {
        var i :| 0 <= i < |all| && all[i] == x;
        assert all[k..][i - k] == x;
      }
    }
    Index.SortedUnique(ids, DropAbove(all, beginID), true);
  }

  /** One request: the page that a walk over all rows in scope, newest first, has at its cursor. The index
      is that of contests or that of participants, `keys` what is looked up. */
  method ObserveContestSolutions(
      index: Index.BTreeIndex<int, Solution>, objects: map<int, Solution>, keys: seq<int>, request: Filter,
      may: Solution -> bool)
    returns (items: seq<int>, next: int)
    requires index.Valid() && Index.Agrees(Index.Entries(index), index.key, objects) && IsStore(objects)
    requires forall i, j :: 0 <= i < j < |keys| ==> keys[i] != keys[j]
    requires request.beginID <= Index.MAX_INT64
    ensures forall all :: Index.IsSelection(all, objects, index.key, keys, 0, true) ==>
              var ids := DropAbove(all, Parse(request).beginID);
              Known(objects, ids) && Page(items, next) == PageOf(objects, ids, Parse(request), may, 0, 0)
  {
    hide Index.BTreeIndex.Valid, Index.Agrees, PageOf;
    var f := Parse(request);
    var rows := Index.FindAll(index, objects, keys, f.beginID, true);
    assert forall i :: 0 <= i < |rows| ==> rows[i] in rows;
    items, next := FillPage(objects, rows, f, may);
    forall all | Index.IsSelection(all, objects, index.key, keys, 0, true)
      ensures DropAbove(all, f.beginID) == rows
    {
      LookupFromCursor(objects, index.key, keys, all, rows, f.beginID);
    }
  }

  datatype Pages = Pages(items: seq<int>, cursors: seq<int>)

  ghost predicate IsList(objects: map<int, Solution>, all: seq<int>) {
    IsStore(objects) && Descending(all) && Known(objects, all)
  }

  lemma KnownPart(objects: map<int, Solution>, all: seq<int>, m: nat, k: nat)
    requires Known(objects, all) && m <= k <= |all|
    ensures Known(objects, all[m..k])
  {
  }

  /** A page starts where its cursor says and covers the rows up to the next cursor, at least one. */
  lemma PageCovers(objects: map<int, Solution>, all: seq<int>, request: Filter, may: Solution -> bool) returns (m: nat, k: nat)
    requires IsList(objects, all)
    ensures m <= k <= |all| && (m < |all| ==> m < k)
    ensures Known(objects, all[m..]) && Known(objects, all[m..k])
    ensures DropAbove(all, Parse(request).beginID) == all[m..]
    ensures var f := Parse(request);
            var p := PageOf(objects, all[m..], f, may, 0, 0);
            && p.items == Wanted(objects, all[m..k], f, may) && |p.items| <= f.limit
            && (k < |all| ==> |p.items| == f.limit || k == m + 5000)
            && p.next == if k == |all| then 0 else all[k]
    ensures k < |all| ==> 1 <= all[k] < Index.MAX_INT64 && DropAbove(all, all[k]) == all[k..]
  {
    hide Known, PageOf, Wanted, DropAbove;
    var f := Parse(request);
    m := DropAboveIsTail(all, f.beginID);
    var ids := all[m..];
    KnownPart(objects, all, m, |all|);
    assert all[m..|all|] == ids;
    k := PageStops(objects, ids, f, may, 0, 0);
    assert ids[..k] == all[m..m + k];
    KnownPart(objects, all, m, m + k);
    k := m + k;
    if k < |all| {
      RowIsKnown(objects, all, k);
      DropAboveAt(all, k);
      assert ids[k - m] == all[k];
    }
  }

  lemma RowIsKnown(objects: map<int, Solution>, all: seq<int>, k: nat)
    requires IsStore(objects) && Known(objects, all) && k < |all|
    ensures 1 <= all[k] < Index.MAX_INT64
  {
  }

  // The next page has fewer rows before it.
  lemma NextPageIsShorter(objects: map<int, Solution>, all: seq<int>, request: Filter, may: Solution -> bool)
    requires IsList(objects, all)
    ensures var ids := DropAbove(all, Parse(request).beginID);
            && Known(objects, ids)
            && var next := PageOf(objects, ids, Parse(request), may, 0, 0).next;
               next != 0 ==> |DropAbove(all, Parse(request.(beginID := next)).beginID)| < |ids|
  {
    hide Known, PageOf, DropAbove;
    var m, k := PageCovers(objects, all, request, may);
  }

  /** Asks for page after page until there is no next one. */
  function Follow(objects: map<int, Solution>, all: seq<int>, request: Filter, may: Solution -> bool): Pages
    requires IsList(objects, all)
    decreases |DropAbove(all, Parse(request).beginID)|
  {
    NextPageIsShorter(objects, all, request, may);
    var p := PageOf(objects, DropAbove(all, Parse(request).beginID), Parse(request), may, 0, 0);
    if p.next == 0 then Pages(p.items, [])
    else
      var rest := Follow(objects, all, request.(beginID := p.next), may);
      Pages(p.items + rest.items, [p.next] + rest.cursors)
  }

  lemma {:induction false} FollowsAll(
      objects: map<int, Solution>, all: seq<int>, request: Filter, may: Solution -> bool) returns (m: nat)
    requires IsList(objects, all)
    ensures m <= |all| && DropAbove(all, Parse(request).beginID) == all[m..] && Known(objects, all[m..])
    ensures var pages := Follow(objects, all, request, may);
            && pages.items == Wanted(objects, all[m..], request, may)
            && Descending(pages.cursors)
            && AreRows(all, m, pages.cursors)
    decreases |DropAbove(all, Parse(request).beginID)|
  {
    hide Known, PageOf, DropAbove, Wanted, Descending, AreRows;
    NextPageIsShorter(objects, all, request, may);
    var k;
    m, k := PageCovers(objects, all, request, may);
    WantedIgnoresCursor(objects, all[m..k], Parse(request), request, may);
    if k < |all| {
      var after := request.(beginID := all[k]);
      var n := FollowsAll(objects, all, after, may);
      SameTail(all, n, k);
      WantedIgnoresCursor(objects, all[k..], after, request, may);
      WantedConcat(objects, all[m..k], all[k..], request, may);
      assert all[m..k] + all[k..] == all[m..];
      CursorsDescend(all, k, Follow(objects, all, after, may).cursors);
    } else {
      assert all[m..k] == all[m..];
      NoCursors(all, m);
    }
  }

  lemma NoCursors(all: seq<int>, m: nat)
    ensures Descending([]) && AreRows(all, m, [])
  {
  }

  lemma SameTail(all: seq<int>, n: nat, k: nat)
    requires n <= |all| && k <= |all| && all[n..] == all[k..]
    ensures n == k
  {
    assert |all[n..]| == |all| - n && |all[k..]| == |all| - k;
  }

  lemma CursorsDescend(all: seq<int>, k: nat, cursors: seq<int>)
    requires Descending(all) && k < |all| && Descending(cursors)
    requires AreRows(all, k, cursors)
    ensures Descending([all[k]] + cursors)
    ensures forall m :: 0 <= m < k ==> AreRows(all, m, [all[k]] + cursors)
  {
  }

  // Rows after the first m.
  ghost predicate AreRows(all: seq<int>, m: nat, cursors: seq<int>) {
    forall i :: 0 <= i < |cursors| ==> exists j :: m < j < |all| && cursors[i] == all[j]
  }

  lemma {:induction false} WantedIgnoresCursor(
      objects: map<int, Solution>, ids: seq<int>, f: Filter, g: Filter, may: Solution -> bool)
    requires Known(objects, ids)
    requires f.problemID == g.problemID && f.participantID == g.participantID
    ensures Wanted(objects, ids, f, may) == Wanted(objects, ids, g, may)
  {
    if ids != [] {
      WantedIgnoresCursor(objects, ids[1..], f, g, may);
    }
  }

  lemma {:induction false} WantedMembers(
      objects: map<int, Solution>, ids: seq<int>, f: Filter, may: Solution -> bool)
    requires Known(objects, ids) && Descending(ids)
    ensures Descending(Wanted(objects, ids, f, may))
    ensures forall id :: id in Wanted(objects, ids, f, may) <==>
              id in ids && Passes(f.(beginID := 0), objects[id]) && may(objects[id])
  {
    if ids != [] {
      WantedMembers(objects, ids[1..], f, may);
      var rest := Wanted(objects, ids[1..], f, may);
      assert forall id :: id in ids <==> id == ids[0] || id in ids[1..];
      assert forall i :: 0 <= i < |rest| ==> rest[i] in rest;
    }
  }

  /** From the first page on, whatever the limit asked for: the pages end, their cursors descend, and
      together they list every solution in scope that passes the filter and may be seen, once, newest
      first. */
  lemma PagesAreComplete(
      objects: map<int, Solution>, key: Solution -> Option<int>, keys: seq<int>, all: seq<int>, request: Filter,
      may: Solution -> bool)
    requires IsStore(objects) && Index.IsSelection(all, objects, key, keys, 0, true)
    requires request.beginID == 0
    ensures IsList(objects, all)
    ensures var pages := Follow(objects, all, request, may);
            && Descending(pages.cursors)
            && Descending(pages.items)
            && forall id :: id in pages.items <==>
                 && id in objects && key(objects[id]).Some? && key(objects[id]).value in keys
                 && (request.problemID == 0 || objects[id].problemID == request.problemID)
                 && (request.participantID == 0 || objects[id].participantID == request.participantID)
                 && may(objects[id])
  {
    assert forall i :: 0 <= i < |all| ==> all[i] in all;
    assert Descending(all) && Known(objects, all);
    var m := FollowsAll(objects, all, request, may);
    assert all[m..] == all;
    WantedMembers(objects, all, request, may);
  }
}
