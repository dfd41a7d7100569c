/**
  The ordered array that indexes the holes of a heap (src/ordered_map.c).  `order` is the array's
  less_than predicate; the specification functions describe what insertion and removal do to the
  sequence of live entries.
*/
module OrderedArrays {

  /** The position at which insertion stops scanning: the first entry that is not less than x. */
  function Slot<T>(s: seq<T>, x: T, less: (T, T) -> bool): (k: nat)
    ensures k <= |s|
    ensures forall j :: 0 <= j < k ==> less(s[j], x)
    ensures k < |s| ==> !less(s[k], x)
  {
    if s == [] || !less(s[0], x) then 0 else 1 + Slot(s[1..], x, less)
  }

  function Inserted<T>(s: seq<T>, x: T, less: (T, T) -> bool): (r: seq<T>)
    ensures |r| == |s| + 1
  {
    var k := Slot(s, x, less);
    s[..k] + [x] + s[k..]
  }

  function Removed<T>(s: seq<T>, k: nat): (r: seq<T>)
    requires k < |s|
    ensures |r| == |s| - 1
  {
    s[..k] + s[k + 1..]
  }

  /** No entry is less than one that stands before it. */
  ghost predicate Sorted<T>(s: seq<T>, less: (T, T) -> bool)
  {
    forall i, j :: 0 <= i < j < |s| ==> !less(s[j], s[i])
  }

  /** A strict weak order: the comparison a less_than predicate is expected to be. */
  ghost predicate WeakOrder<T(!new)>(less: (T, T) -> bool)
  {
    && (forall a, b :: less(a, b) ==> !less(b, a))
    && (forall a, b, c :: less(a, c) ==> less(a, b) || less(b, c))
  }

  lemma InsertedMultiset<T>(s: seq<T>, x: T, less: (T, T) -> bool)
    ensures multiset(Inserted(s, x, less)) == multiset(s) + multiset{x}
  {
    var k := Slot(s, x, less);
    assert s == s[..k] + s[k..];
  }

  lemma RemovedMultiset<T>(s: seq<T>, k: nat)
    requires k < |s|
    ensures multiset(Removed(s, k)) == multiset(s) - multiset{s[k]}
  {
    assert s == s[..k] + [s[k]] + s[k + 1..];
  }

  lemma InsertedSorted<T(!new)>(s: seq<T>, x: T, less: (T, T) -> bool)
    requires WeakOrder(less)
    ensures Sorted(s, less) ==> Sorted(Inserted(s, x, less), less)
  {
    var k, r := Slot(s, x, less), Inserted(s, x, less);
    if Sorted(s, less) {
      forall i, j | 0 <= i < j < |r|
        ensures !less(r[j], r[i])
      {
        if j == k {
          assert less(s[i], x);
        } else if i == k {
          assert r[j] == s[j - 1];
          if k < j - 1 {
            assert !less(s[j - 1], s[k]);
          }
        }
      }
    }
  }

  lemma RemovedSorted<T>(s: seq<T>, k: nat, less: (T, T) -> bool)
    requires k < |s|
    ensures Sorted(s, less) ==> Sorted(Removed(s, k), less)
  {
    var r := Removed(s, k);
    if Sorted(s, less) {
      forall i, j | 0 <= i < j < |r|
        ensures !less(r[j], r[i])
      {
        assert r[i] == s[if i < k then i else i + 1];
        assert r[j] == s[if j < k then j else j + 1];
      }
    }
  }

  /** Inserting depends only on how the entries compare with the new one. */
  lemma {:induction false} SlotAgrees<T>(s: seq<T>, x: T, f: (T, T) -> bool, g: (T, T) -> bool)
    requires forall y :: y in s ==> f(y, x) == g(y, x)
    ensures Slot(s, x, f) == Slot(s, x, g)
  {
    if s != [] && f(s[0], x) {
      SlotAgrees(s[1..], x, f, g);
    }
  }

  /** The array object: a fixed buffer of which the first `size` entries are in use. */
  class OrderedArray<T> {
    const data: array<T>
    var size: nat
    ghost var entries: seq<T>

    ghost predicate Valid()
      reads this, data
    {
      size <= data.Length && entries == data[..size]
    }

    constructor (maxSize: nat, zero: T)
      ensures Valid() && entries == []
      ensures fresh(data) && data.Length == maxSize
    {
      data := new T[maxSize](_ => zero);
      size := 0;
      entries := [];
    }

    method Insert(item: T, less: (T, T) -> bool)
      requires Valid() && |entries| < data.Length
      modifies this, data
      ensures Valid()
      ensures entries == Inserted(old(entries), item, less)
    {
      ghost var was := entries;
      var at := 0;
      while at < size && less(data[at], item)
        invariant at <= size
        invariant forall j :: 0 <= j < at ==> less(was[j], item)
      {
        at := at + 1;
      }
      ghost var k := at;
      SlotUnique(was, item, less, k);
      if at == size {
        data[size] := item;
        size := size + 1;
      } else {
        var tmp := data[at];
        data[at] := item;
        while at < size
          invariant k <= at <= size < data.Length && size == |was| && entries == was
          invariant at < size ==> tmp == was[at]
          invariant forall j :: 0 <= j < k ==> data[j] == was[j]
          invariant data[k] == item
          invariant forall j :: k < j <= at ==> data[j] == was[j - 1]
          invariant forall j :: at < j < size ==> data[j] == was[j]
        {
          at := at + 1;
          var tmp2 := data[at];
          data[at] := tmp;
          tmp := tmp2;
        }
        size := size + 1;
      }
      entries := Inserted(was, item, less);
    }

    method Lookup(i: nat) returns (item: T)
      requires Valid() && i < |entries|
      ensures item == entries[i]
    {
      item := data[i];
    }

    method Remove(i: nat)
      requires Valid() && i < |entries|
      modifies this, data
      ensures Valid()
      ensures entries == Removed(old(entries), i)
    {
      ghost var was := entries;
      var k := i;
      while k < size - 1
        invariant i <= k < size && size == |was| && entries == was
        invariant forall j :: 0 <= j < i ==> data[j] == was[j]
        invariant forall j :: i <= j < k ==> data[j] == was[j + 1]
        invariant forall j :: k <= j < size ==> data[j] == was[j]
      {
        data[k] := data[k + 1];
        k := k + 1;
      }
      size := size - 1;
      entries := Removed(was, i);
    }
  }

  lemma {:induction false} SlotUnique<T>(s: seq<T>, x: T, less: (T, T) -> bool, k: nat)
    requires k <= |s|
    requires forall j :: 0 <= j < k ==> less(s[j], x)
    requires k < |s| ==> !less(s[k], x)
    ensures k == Slot(s, x, less)
  {
    if k > 0 {
      assert less(s[0], x);
      SlotUnique(s[1..], x, less, k - 1);
    }
  }
}
