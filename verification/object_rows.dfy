/** Cursors over all objects of a cached store, in order of id or against it, with a limit
    (internal/models/cached_store.go). */
module ObjectRows {
  import Index = BTreeIndex

  const MAX_INT := 0x7FFF_FFFF_FFFF_FFFF

  ghost predicate Ascends(ids: seq<int>) {
    forall i, j :: 0 <= i < j < |ids| ==> ids[i] < ids[j]
  }

  // The position of the first id that is at least k.
  function SeekID(ids: seq<int>, k: int): (pos: nat)
    ensures pos <= |ids|
    ensures forall i :: 0 <= i < pos ==> ids[i] < k
    ensures pos < |ids| ==> ids[pos] >= k
  {
    if ids == [] || ids[0] >= k then 0 else 1 + SeekID(ids[1..], k)
  }

  /** A walk from position t over at most `limit` ids. */
  function Walk(ids: seq<int>, reverse: bool, t: int, limit: int): seq<int>
    decreases limit
  {
    if limit <= 0 || t < 0 || t >= |ids| then []
    else [ids[t]] + Walk(ids, reverse, if reverse then t - 1 else t + 1, limit - 1)
  }

  lemma {:induction false} WalkAt(ids: seq<int>, reverse: bool, t: int, limit: nat)
    requires -1 <= t <= |ids|
    ensures var left := if reverse then if t < |ids| then t + 1 else 0 else if t >= 0 then |ids| - t else 0;
            var walk := Walk(ids, reverse, t, limit);
            && |walk| == (if limit < left then limit else left)
            && forall i :: 0 <= i < |walk| ==> walk[i] == ids[if reverse then t - i else t + i]
    decreases limit
  {
    if limit > 0 && 0 <= t < |ids| {
      WalkAt(ids, reverse, if reverse then t - 1 else t + 1, limit - 1);
    }
  }

  /** The ids from beginID on; beginID <= 0 means all of them. */
  predicate Wanted(reverse: bool, beginID: int, id: int) {
    beginID > 0 ==> if reverse then id < Index.Incr64(beginID) else beginID <= id
  }

  /** For 64-bit ids: at least beginID going forward, at most beginID going backward; going backward from
      the largest one there is none. */
  lemma WantedMeans(reverse: bool, beginID: int, id: int)
    requires -0x8000_0000_0000_0000 <= id <= 0x7FFF_FFFF_FFFF_FFFF && beginID <= 0x7FFF_FFFF_FFFF_FFFF
    ensures Wanted(reverse, beginID, id) <==>
              || beginID <= 0
              || if reverse then id <= beginID && beginID != 0x7FFF_FFFF_FFFF_FFFF else beginID <= id
  {
  }

  /** The first `limit` wanted ids in the direction of the walk. */
  ghost predicate IsFirst(out: seq<int>, ids: seq<int>, reverse: bool, beginID: int, limit: int) {
    && (forall i, j :: 0 <= i < j < |out| ==> if reverse then out[j] < out[i] else out[i] < out[j])
    && (forall id :: id in out ==> id in ids && Wanted(reverse, beginID, id))
    && |out| <= limit
    && (forall id, x :: id in ids && Wanted(reverse, beginID, id) && id !in out ==>
          |out| == limit && (x in out ==> if reverse then id < x else x < id))
  }

  class ObjectRows {
    const ids: seq<int>  // the ids of the map, in order
    const reverse: bool
    var pos: int
    var started: bool
    var limit: int
    var beginID: int

    constructor (ids: seq<int>, limit: int, beginID: int, reverse: bool)
      ensures this.ids == ids && this.reverse == reverse && this.beginID == beginID && !started
      ensures this.limit == if limit <= 0 then MAX_INT else limit
    {
      this.ids, this.reverse, this.beginID := ids, reverse, beginID;
      this.limit := if limit <= 0 then MAX_INT else limit;
      pos, started := 0, false;
    }

    ghost predicate Valid()
      reads this
    {
      started ==> beginID <= 0 && 0 <= pos < |ids|
    }

    // Where the next call lands.
    ghost function Target(): int
      requires Valid()
      reads this
      ensures if reverse then -1 <= Target() < |ids| else 0 <= Target() <= |ids|
    {
      if reverse then
        if beginID > 0 then SeekID(ids, Index.Incr64(beginID)) - 1 else if started then pos - 1 else |ids| - 1
      else if beginID > 0 then SeekID(ids, beginID) else if started then pos + 1 else 0
    }

    /** The ids it has still to yield. */
    ghost function Todo(): seq<int>
      requires Valid()
      reads this
    {
      Walk(ids, reverse, Target(), limit)
    }

    method Next() returns (ok: bool)
      requires Valid()
      modifies this
      ensures ok <==> old(Todo()) != []
      ensures ok ==> Valid() && started && old(Todo()) == [ids[pos]] + Todo()
    {
      if limit <= 0 {
        return false;
      }
      ghost var target := Target();
      limit := limit - 1;
      if reverse {
        // Seek and Prev, or Last when nothing is found; Prev of a new cursor is Last.
        if beginID > 0 {
          pos := SeekID(ids, Index.Incr64(beginID));
          beginID := 0;
          pos := if pos == |ids| then |ids| - 1 else pos - 1;
        } else {
          pos := if started then pos - 1 else |ids| - 1;
        }
      } else if beginID > 0 {
        pos := SeekID(ids, beginID);
        beginID := 0;
      } else {
        pos := if started then pos + 1 else 0;
      }
      started := true;
      assert pos == target;
      ok := 0 <= pos < |ids|;
    }

    /** What a new cursor has to yield. */
    lemma TodoIsFirst()
      requires Valid() && !started && limit >= 0 && Ascends(ids)
      ensures IsFirst(Todo(), ids, reverse, beginID, limit)
    {
      hide Walk, IsFirst;
      WalkAt(ids, reverse, Target(), limit);
      assert forall i :: 0 <= i < |ids| ==>
        (Wanted(reverse, beginID, ids[i]) <==> if reverse then i <= Target() else Target() <= i);
      WalkIsFirst(ids, reverse, beginID, Target(), limit, Todo());
    }
  }

  lemma WalkIsFirst(ids: seq<int>, reverse: bool, beginID: int, t: int, limit: nat, walk: seq<int>)
    requires Ascends(ids) && if reverse then -1 <= t < |ids| else 0 <= t <= |ids|
    requires forall i :: 0 <= i < |ids| ==> (Wanted(reverse, beginID, ids[i]) <==> if reverse then i <= t else t <= i)
    requires var left := if reverse then t + 1 else |ids| - t; |walk| == if limit < left then limit else left
    requires forall i :: 0 <= i < |walk| ==> walk[i] == ids[if reverse then t - i else t + i]
    ensures IsFirst(walk, ids, reverse, beginID, limit)
  {
    hide Wanted;
    forall i | 0 <= i < |ids| && 0 <= (if reverse then t - i else i - t) < |walk|
      ensures ids[i] in walk
    {
      assert walk[if reverse then t - i else i - t] == ids[i];
    }
    forall id, x | id in ids && Wanted(reverse, beginID, id) && id !in walk
      ensures |walk| == limit && (x in walk ==> Index.Before(reverse, x, id))
    {
      var i :| 0 <= i < |ids| && ids[i] == id;
      var at := if reverse then t - i else i - t;
      assert at >= |walk|;
      if x in walk {
        var j :| 0 <= j < |walk| && walk[j] == x;
      }
    }
  }

  /** Reading a cursor to its end. */
  method ReadAll(ids: seq<int>, limit: int, beginID: int, reverse: bool) returns (out: seq<int>)
    requires Ascends(ids)
    ensures IsFirst(out, ids, reverse, beginID, if limit <= 0 then 0x7FFF_FFFF_FFFF_FFFF else limit)
  {
    hide Walk, IsFirst, ObjectRows.Target;
    var rows := new ObjectRows(ids, limit, beginID, reverse);
    rows.TodoIsFirst();
    out := [];
    ghost var all := rows.Todo();
    assert IsFirst(all, ids, reverse, beginID, rows.limit);
    while true
      invariant rows.Valid() && all == out + rows.Todo()
      decreases |rows.Todo()|
    {
      ghost var left := rows.Todo();
      var ok := rows.Next();
      if !ok {
        assert left == [] && out + left == out;
        return;
      }
      out := out + [rows.ids[rows.pos]];
    }
  }
}
