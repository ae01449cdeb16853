/** The contract of the B-tree the stores use: a map kept in key order, searched by Seek. */
module SortedMap {
  ghost predicate StrictTotal<K(!new)>(less: (K, K) -> bool) {
    && (forall a :: !less(a, a))
    && (forall a, b, c :: less(a, b) && less(b, c) ==> less(a, c))
    && (forall a, b :: less(a, b) || less(b, a) || a == b)
  }

  predicate Sorted<K>(less: (K, K) -> bool, s: seq<K>) {
    forall i, j :: 0 <= i < j < |s| ==> less(s[i], s[j])
  }

  /** The position of the first key that is not less than k. */
  function Seek<K>(less: (K, K) -> bool, s: seq<K>, k: K): (pos: nat)
    ensures pos <= |s|
    ensures forall i :: 0 <= i < pos ==> less(s[i], k)
    ensures pos < |s| ==> !less(s[pos], k)
  {
    if s == [] || !less(s[0], k) then 0 else 1 + Seek(less, s[1..], k)
  }

  function Insert<K(==)>(less: (K, K) -> bool, s: seq<K>, k: K): seq<K> {
    var pos := Seek(less, s, k);
    if pos < |s| && s[pos] == k then s else s[..pos] + [k] + s[pos..]
  }

  function Remove<K(==)>(less: (K, K) -> bool, s: seq<K>, k: K): seq<K> {
    var pos := Seek(less, s, k);
    if pos < |s| && s[pos] == k then s[..pos] + s[pos + 1..] else s
  }

  lemma SeekSorted<K(!new)>(less: (K, K) -> bool, s: seq<K>, k: K)
    requires StrictTotal(less) && Sorted(less, s)
    ensures forall i :: Seek(less, s, k) <= i < |s| ==> !less(s[i], k)
    ensures k in s <==> Seek(less, s, k) < |s| && s[Seek(less, s, k)] == k
  {
    var pos := Seek(less, s, k);
    forall i | pos <= i < |s|
      ensures !less(s[i], k) && (s[i] == k ==> i == pos)
    {
      assert pos < i ==> less(s[pos], s[i]);
    }
  }

  lemma InsertSorted<K(!new)>(less: (K, K) -> bool, s: seq<K>, k: K)
    requires StrictTotal(less) && Sorted(less, s)
    ensures Sorted(less, Insert(less, s, k))
    ensures forall x :: x in Insert(less, s, k) <==> x in s || x == k
  {
    SeekSorted(less, s, k);
    var pos := Seek(less, s, k);
    if k !in s {
      assert forall i :: pos <= i < |s| ==> less(k, s[i]);
      InsertBetween(less, s, pos, k);
    }
  }

  lemma InsertBetween<K>(less: (K, K) -> bool, s: seq<K>, pos: nat, k: K)
    requires Sorted(less, s) && pos <= |s|
    requires forall i :: 0 <= i < pos ==> less(s[i], k)
    requires forall i :: pos <= i < |s| ==> less(k, s[i])
    ensures var out := s[..pos] + [k] + s[pos..];
            Sorted(less, out) && forall x :: x in out <==> x in s || x == k
  {
    assert s == s[..pos] + s[pos..];
  }

  lemma RemoveSorted<K(!new)>(less: (K, K) -> bool, s: seq<K>, k: K)
    requires StrictTotal(less) && Sorted(less, s)
    ensures Sorted(less, Remove(less, s, k))
    ensures forall x :: x in Remove(less, s, k) <==> x in s && x != k
  {
    SeekSorted(less, s, k);
    var pos := Seek(less, s, k);
    if pos < |s| && s[pos] == k {
      assert s == s[..pos] + [k] + s[pos + 1..];
      assert forall i :: 0 <= i < pos ==> s[i] != k;
      assert forall i :: pos < i < |s| ==> less(k, s[i]);
    }
  }

  /** Lists with the same elements in the same order are the same list. */
  lemma {:induction false} SameSorted<K(!new)>(less: (K, K) -> bool, a: seq<K>, b: seq<K>)
    requires forall x, y :: less(x, y) ==> !less(y, x)
    requires Sorted(less, a) && Sorted(less, b)
    requires (forall i :: 0 <= i < |a| ==> a[i] in b) && forall i :: 0 <= i < |b| ==> b[i] in a
    ensures a == b
  {
    assert (a != [] ==> a[0] in b) && (b != [] ==> b[0] in a);
    if a != [] && b != [] {
      FirstIsSame(less, a, b);
      RestIsIn(less, a, b);
      RestIsIn(less, b, a);
      SameSorted(less, a[1..], b[1..]);
      assert a == [a[0]] + a[1..] && b == [b[0]] + b[1..];
    }
  }

  lemma FirstIsSame<K(!new)>(less: (K, K) -> bool, a: seq<K>, b: seq<K>)
    requires forall x, y :: less(x, y) ==> !less(y, x)
    requires Sorted(less, a) && Sorted(less, b) && a != [] && b != [] && a[0] in b && b[0] in a
    ensures a[0] == b[0]
  {
    var i :| 0 <= i < |b| && b[i] == a[0];
    var j :| 0 <= j < |a| && a[j] == b[0];
  }

  lemma RestIsIn<K(!new)>(less: (K, K) -> bool, a: seq<K>, b: seq<K>)
    requires forall x, y :: less(x, y) ==> !less(y, x)
    requires Sorted(less, a) && a != [] && b != [] && a[0] == b[0]
    requires forall i :: 0 <= i < |a| ==> a[i] in b
    ensures forall i :: 0 <= i < |a[1..]| ==> a[1..][i] in b[1..]
  {
    forall i | 0 <= i < |a| - 1
      ensures a[1..][i] in b[1..]
    {
      assert less(a[0], a[i + 1]) && !less(a[0], a[0]);
      var j :| 0 <= j < |b| && b[j] == a[i + 1];
      assert b[1..][j - 1] == b[j];
    }
  }
}
