/** Which hole alloc takes from the index, and exactly when the index keeps its size order. */
module HeapOrder {
  import opened Chunks
  import opened Kernel
  import opened Memory
  import opened OrderedArrays
  import opened HeapSpec
  import opened HeapSteps
  import opened HeapLimits

  // ---------- best fit ----------

  ghost predicate SortedIndex(st: State) {
    Sorted(st.ix, Smaller(st.cs))
  }

  /**
    On an index in size order a request without alignment takes a smallest hole among those
    large enough, and fails to find one only when there is none.
  */
  lemma BestFit(st: State, need: Word)
    requires Inv(st) && SortedIndex(st)
    ensures var k := FirstFit(st.cs, st.ix, need, false);
            if k == |st.ix| then forall c :: c in st.cs && c.hole ==> c.size < need
            else forall c :: c in st.cs && c.hole && c.size >= need ==> need <= SizeAt(st.cs, st.ix[k]) <= c.size
  {
    hide Blocks, Holes, Coalesced, FirstFit, SizeAt, Find;
    var k := FirstFit(st.cs, st.ix, need, false);
    NoFit(st, need, false);
    TilesBounds(st.cs, st.lo, st.hi);
    if k < |st.ix| {
      SizeIndexed(st, k);
      forall c | c in st.cs && c.hole && c.size >= need
        ensures need <= SizeAt(st.cs, st.ix[k]) <= c.size
      {
        IndexHasHole(st, c);
        var j :| 0 <= j < |st.ix| && st.ix[j] == c.pos;
        SizeOf(st.cs, c, st.lo, st.hi);
        if j < k {
          assert !Fits(st.ix[j], Wrap(SizeAt(st.cs, st.ix[j])), need, false);
        } else if k < j {
          assert !Smaller(st.cs)(st.ix[j], st.ix[k]);
        }
      }
    }
  }

  lemma SizeOf(cs: seq<Chunk>, c: Chunk, lo: int, hi: int)
    requires Tiles(cs, lo, hi) && c in cs
    ensures SizeAt(cs, c.pos) == c.size
  {
    var i :| 0 <= i < |cs| && cs[i] == c;
    FindAt(cs, i, lo, hi);
  }

  lemma SizeIndexed(st: State, k: nat)
    requires Inv(st) && k < |st.ix|
    ensures OVERHEAD <= SizeAt(st.cs, st.ix[k]) < 0x1_0000_0000
  {
    IndexedHole(st, k);
    TilesBounds(st.cs, st.lo, st.hi);
    assert st.cs[Find(st.cs, st.ix[k])] in st.cs;
  }

  /** Chunks that two tilings share have the same size in both. */
  lemma SortedAgree(ix: seq<nat>, cs: seq<Chunk>, ds: seq<Chunk>)
    requires forall p :: p in ix ==> SizeAt(cs, p) == SizeAt(ds, p)
    ensures Sorted(ix, Smaller(cs)) ==> Sorted(ix, Smaller(ds))
  {
    if Sorted(ix, Smaller(cs)) {
      forall i, j | 0 <= i < j < |ix|
        ensures !Smaller(ds)(ix[j], ix[i])
      {
        assert !Smaller(cs)(ix[j], ix[i]);
        assert ix[i] in ix && ix[j] in ix;
      }
    }
  }

  lemma SameSize(st: State, p: nat, ds: seq<Chunk>, hi: int)
    requires Inv(st) && p in st.ix && Tiles(ds, st.lo, hi)
    requires forall c :: c in st.cs && c.pos == p ==> c in ds
    ensures SizeAt(ds, p) == SizeAt(st.cs, p)
  {
    var k :| 0 <= k < |st.ix| && st.ix[k] == p;
    IndexedHole(st, k);
    var c := st.cs[Find(st.cs, p)];
    assert c in st.cs;
    SizeOf(st.cs, c, st.lo, st.hi);
    SizeOf(ds, c, st.lo, hi);
  }

  lemma EntryOnce(st: State, k: nat)
    requires Inv(st) && k < |st.ix|
    ensures st.ix[k] !in Removed(st.ix, k)
  {
    HolesDistinct(st.cs, st.lo, st.hi, st.ix[k]);
    RemovedMultiset(st.ix, k);
    assert multiset(Removed(st.ix, k))[st.ix[k]] == 0;
  }

  // ---------- sizes that change in place ----------

  lemma IndexDistinct(st: State, j: nat, k: nat)
    requires Inv(st) && j < |st.ix| && k < |st.ix| && j != k
    ensures st.ix[j] != st.ix[k]
  {
    EntryOnce(st, k);
    assert Removed(st.ix, k)[if j < k then j else j - 1] == st.ix[j];
  }

  /** A size n at position k of the index stands in order between its neighbours. */
  predicate InPlace(cs: seq<Chunk>, ix: seq<nat>, k: nat, n: int) {
    k < |ix| && (k == 0 || SizeAt(cs, ix[k - 1]) <= n) && (k + 1 == |ix| || n <= SizeAt(cs, ix[k + 1]))
  }

  /** Changing one size leaves the order if and only if the new size fits between the neighbours. */
  lemma ResizedSorted(ix: seq<nat>, cs: seq<Chunk>, ds: seq<Chunk>, k: nat)
    requires k < |ix| && Sorted(ix, Smaller(cs))
    requires forall j :: 0 <= j < |ix| && j != k ==> SizeAt(ds, ix[j]) == SizeAt(cs, ix[j])
    ensures Sorted(ix, Smaller(ds)) <==> InPlace(cs, ix, k, SizeAt(ds, ix[k]))
  {
    hide SizeAt;
    if InPlace(cs, ix, k, SizeAt(ds, ix[k])) {
      forall i, j | 0 <= i < j < |ix|
        ensures !Smaller(ds)(ix[j], ix[i])
      {
        assert !Smaller(cs)(ix[j], ix[i]);
        assert j == k && i < k - 1 ==> !Smaller(cs)(ix[k - 1], ix[i]);
        assert i == k && k + 1 < j ==> !Smaller(cs)(ix[j], ix[k + 1]);
      }
    } else {
      assert k > 0 && SizeAt(cs, ix[k - 1]) > SizeAt(ds, ix[k]) ==> Smaller(ds)(ix[k], ix[k - 1]);
      assert k + 1 < |ix| && SizeAt(ds, ix[k]) > SizeAt(cs, ix[k + 1]) ==> Smaller(ds)(ix[k + 1], ix[k]);
    }
  }

  /** Insertion neither makes nor loses order. */
  lemma InsertedSortedExactly(ix: seq<nat>, x: nat, cs: seq<Chunk>)
    ensures Sorted(Inserted(ix, x, Smaller(cs)), Smaller(cs)) <==> Sorted(ix, Smaller(cs))
  {
    hide Sorted;
    var r, k := Inserted(ix, x, Smaller(cs)), Slot(ix, x, Smaller(cs));
    InsertedSorted(ix, x, Smaller(cs));
    RemovedSorted(r, k, Smaller(cs));
    assert Removed(r, k) == ix;
  }

  /**
    Taking a hole keeps the index in size order exactly when no hole is left in front of the block, or
    the front hole, which keeps its entry while its size shrinks in place (src/kheap.c:223), is still
    no smaller than the entry before it.
  */
  lemma CarveSorted(st: State, k: nat, need: nat, align: bool)
    requires Inv(st) && SortedIndex(st) && k < |st.ix| && OVERHEAD <= need < 0x1_0000_0000
    requires !align ==> need <= SizeAt(st.cs, st.ix[k])
    requires Carve(st, k, need, align).Done?
    ensures SortedIndex(Carve(st, k, need, align).st) <==>
            !align || k == 0 || SizeAt(st.cs, st.ix[k - 1]) <= FrontSize(st.ix[k])
  {
    hide Holes, Blocks, Coalesced, Tiles, Added, BlockFor, Inserted, Sorted, SizeAt, Removed, Find, Cut;
    CarveKeeps(st, k, need, align);
    IndexedHole(st, k);
    var i := Find(st.cs, st.ix[k]);
    var c, r := st.cs[i], Cut(st.cs[i], need, align);
    var ds := Carve(st, k, need, align).st.cs;
    OthersKeepSize(st, k, i, r, ds);
    FrontBounds(st, k, c);
    CutFrontIs(c, need, align);
    var rest := if r.front == [] then Removed(st.ix, k) else st.ix;
    if align {
      SizeOf(ds, r.front[0], st.lo, st.hi);
      forall j | 0 <= j < |st.ix| && j != k
        ensures st.ix[j] != st.ix[k]
      {
        IndexDistinct(st, j, k);
      }
      ResizedSorted(st.ix, st.cs, ds, k);
    } else {
      RemovedSorted(st.ix, k, Smaller(st.cs));
      RemovedKeepSize(st, k, ds);
      SortedAgree(rest, st.cs, ds);
    }
    if r.tail != [] {
      InsertedSortedExactly(rest, r.tail[0].pos, ds);
    }
  }

  lemma CutFrontIs(c: Chunk, need: nat, align: bool)
    requires PAGE <= c.pos
    ensures Cut(c, need, align).front == if align then [Chunk(c.pos, FrontSize(c.pos), true)] else []
  {
  }

  /** The front hole is smaller than the hole it is cut from, so only the entry before it matters. */
  lemma FrontBounds(st: State, k: nat, c: Chunk)
    requires Inv(st) && SortedIndex(st) && k < |st.ix| && c in st.cs && c.pos == st.ix[k]
    ensures PAGE <= c.pos && SizeAt(st.cs, st.ix[k]) == c.size
    ensures k + 1 < |st.ix| ==> c.size <= SizeAt(st.cs, st.ix[k + 1])
  {
    TilesBounds(st.cs, st.lo, st.hi);
    SizeOf(st.cs, c, st.lo, st.hi);
    if k + 1 < |st.ix| {
      assert !Smaller(st.cs)(st.ix[k + 1], st.ix[k]);
    }
  }

  lemma OthersKeepSize(st: State, k: nat, i: nat, r: Pieces, ds: seq<Chunk>)
    requires Inv(st) && k < |st.ix| && i < |st.cs| && st.cs[i].pos == st.ix[k]
    requires ds == Replaced(st.cs, i, r.All()) && Tiles(ds, st.lo, st.hi)
    ensures forall p :: p in st.ix && p != st.ix[k] ==> SizeAt(ds, p) == SizeAt(st.cs, p)
  {
    hide Tiles, Holes, Coalesced, SizeAt;
    forall p | p in st.ix && p != st.ix[k]
      ensures SizeAt(ds, p) == SizeAt(st.cs, p)
    {
      assert st.cs == st.cs[..i] + [st.cs[i]] + st.cs[i + 1..];
      SameSize(st, p, ds, st.hi);
    }
  }

  lemma RemovedKeepSize(st: State, k: nat, ds: seq<Chunk>)
    requires Inv(st) && k < |st.ix|
    requires forall p :: p in st.ix && p != st.ix[k] ==> SizeAt(ds, p) == SizeAt(st.cs, p)
    ensures forall p :: p in Removed(st.ix, k) ==> SizeAt(st.cs, p) == SizeAt(ds, p)
  {
    hide SizeAt;
    EntryOnce(st, k);
    assert forall p :: p in Removed(st.ix, k) ==> p in st.ix && p != st.ix[k];
  }

  /** Growth keeps the order exactly when the enlarged last hole (src/kheap.c:196) still fits before its successor. */
  lemma GrowSorted(st: State, need: nat, b: Build)
    requires Inv(st) && SortedIndex(st) && GrowSafe(st) && OVERHEAD <= need && Room(st, need, b)
    ensures var r := Grow(st, need, b);
            SortedIndex(r) <==>
            st.ix == [] ||
            var last := st.cs[|st.cs| - 1];
            InPlace(st.cs, st.ix, Position(st.ix, last.pos), last.size + (r.hi - st.hi))
  {
    hide Tiles, Holes, Coalesced, Blocks, SizeAt, Sorted, ExpandedLength;
    GrowKeeps(st, need, b);
    if st.ix != [] {
      var r, e := Grow(st, need, b), |st.cs| - 1;
      var last, grown := st.cs[e], r.cs[e];
      assert grown in r.cs && grown.pos == last.pos && grown.size == last.size + (r.hi - st.hi);
      IndexHasHole(st, last);
      var k := Position(st.ix, last.pos);
      forall j | 0 <= j < |st.ix| && j != k
        ensures SizeAt(r.cs, st.ix[j]) == SizeAt(st.cs, st.ix[j])
      {
        IndexDistinct(st, j, k);
        assert forall c :: c in st.cs && c.pos != last.pos ==> c in r.cs by {
          forall c | c in st.cs && c.pos != last.pos
            ensures c in r.cs
          {
            var n :| 0 <= n < |st.cs| && st.cs[n] == c;
            assert r.cs[n] == c;
          }
        }
        SameSize(st, st.ix[j], r.cs, r.hi);
      }
      SizeOf(r.cs, grown, r.lo, r.hi);
      ResizedSorted(st.ix, st.cs, r.cs, k);
    } else {
      assert |Grow(st, need, b).ix| == 1;
      OneSorted(Grow(st, need, b).ix, Grow(st, need, b).cs);
    }
  }

  lemma OneSorted(ix: seq<nat>, cs: seq<Chunk>)
    requires |ix| <= 1
    ensures Sorted(ix, Smaller(cs))
  {
  }

  /** The size that the hole h has when free is done with it; 0 when contraction leaves nothing of it. */
  function FinalSize(st: State, h: Chunk, b: Build): (n: int)
    requires st.lo <= h.pos
  {
    if h.End() == st.hi then Remainder(st, h, b) else h.size
  }

  /**
    Freeing a block keeps the index in size order exactly when the hole it makes is inserted anew, or
    is gone, or, having joined a hole on the left and taken over its entry (src/kheap.c:299, 339),
    still stands in order between the neighbours of that entry.
  */
  lemma FreeSorted(st: State, p: nat, b: Build, stale: bool)
    requires Inv(st) && SortedIndex(st) && p != 0 && Free(st, p, b, stale).Done?
    ensures var i: int := Find(st.cs, p - HEADER);
            && i < |st.cs| && st.lo <= Merged(st.cs, i).pos
            && var h, ix := Merged(st.cs, i), IndexWithoutRight(st, i);
               SortedIndex(Free(st, p, b, stale).st) <==>
               !HoleAt(st.cs, i - 1) || FinalSize(st, h, b) == 0
                   || InPlace(st.cs, ix, Position(ix, h.pos), FinalSize(st, h, b))
  {
    hide Holes, Blocks, Coalesced, Dropped, Tiles, Inserted, Sorted, SizeAt, IndexWithoutRight, Before, After, Merged,
         InPlace;
    var i: int := Find(st.cs, p - HEADER);
    var r := Free(st, p, b, stale).st;
    FreeKeeps(st, p, b, stale);
    MergedBounds(st, i);
    var h, ix := Merged(st.cs, i), IndexWithoutRight(st, i);
    var n := FinalSize(st, h, b);
    FreedChunks(st, p, b, stale);
    BesidesKeepSize(st, i, r.cs, r.hi, if n == 0 then [] else [h.(size := n)]);
    IndexLeft(st, i);
    MergedIndexed(st, i);
    if n == 0 {
      if HoleAt(st.cs, i - 1) {
        RemovedSorted(ix, Position(ix, h.pos), Smaller(st.cs));
        WithoutEntry(ix, h.pos);
      }
      SortedAgree(r.ix, st.cs, r.cs);
    } else if HoleAt(st.cs, i - 1) {
      assert h.(size := n) in r.cs;
      SizeOf(r.cs, h.(size := n), r.lo, r.hi);
      ResizedSorted(ix, st.cs, r.cs, Position(ix, h.pos));
    } else {
      SortedAgree(ix, st.cs, r.cs);
      InsertedSorted(ix, h.pos, Smaller(r.cs));
    }
  }

  /** The chunks and the index that a finished free leaves. */
  lemma FreedChunks(st: State, p: nat, b: Build, stale: bool)
    requires Inv(st) && p != 0 && Free(st, p, b, stale).Done?
    ensures var i: int := Find(st.cs, p - HEADER);
            && i < |st.cs| && !st.cs[i].hole && st.lo <= Merged(st.cs, i).pos
            && var r, h, ix := Free(st, p, b, stale).st, Merged(st.cs, i), IndexWithoutRight(st, i);
               var n, add := FinalSize(st, h, b), !HoleAt(st.cs, i - 1);
               && r.lo == st.lo
               && r.cs == Before(st.cs, i) + (if n == 0 then [] else [h.(size := n)]) + After(st.cs, i)
               && r.ix == if n == 0 then (if add then ix else Without(ix, h.pos)) else Reindexed(ix, h, add, r.cs)
  {
    hide Holes, Coalesced, Tiles, Inserted, IndexWithoutRight, Before, After, Merged, Without, PagesDown,
         ContractedLength;
    var i := Find(st.cs, p - HEADER);
    MergedBounds(st, i);
    MergedSize(st, i);
    assert forall x: seq<Chunk> :: x + [] == x;
  }

  lemma MergedSize(st: State, i: nat)
    requires Inv(st) && i < |st.cs|
    ensures Merged(st.cs, i).size > 0
  {
    TilesBounds(st.cs, st.lo, st.hi);
    assert st.cs[i] in st.cs;
  }

  lemma WithoutEntry(ix: seq<nat>, x: nat)
    requires forall j, k :: 0 <= j < k < |ix| ==> ix[j] != ix[k]
    ensures forall y :: y in Without(ix, x) ==> y in ix && y != x
  {
  }

  lemma MergedBounds(st: State, i: nat)
    requires Inv(st) && i < |st.cs| && !st.cs[i].hole
    ensures st.lo <= Merged(st.cs, i).pos && Merged(st.cs, i).End() <= st.hi
    ensures Merged(st.cs, i).End() == st.hi ==> After(st.cs, i) == []
  {
    MergedAround(st.cs, i, st.lo, st.hi);
    TilesBounds(Before(st.cs, i), st.lo, Merged(st.cs, i).pos);
    TilesBounds(After(st.cs, i), Merged(st.cs, i).End(), st.hi);
  }

  /** The index without the right neighbour is still in order and lists no hole twice. */
  lemma IndexLeft(st: State, i: int)
    requires Inv(st) && SortedIndex(st) && 0 <= i < |st.cs|
    ensures var ix := IndexWithoutRight(st, i);
            && Sorted(ix, Smaller(st.cs))
            && forall j, k :: 0 <= j < k < |ix| ==> ix[j] != ix[k]
  {
    hide Sorted, Tiles, Holes, Coalesced;
    forall j, k | 0 <= j < k < |st.ix|
      ensures st.ix[j] != st.ix[k]
    {
      IndexDistinct(st, j, k);
    }
    if HoleAt(st.cs, i + 1) {
      IndexHasHole(st, st.cs[i + 1]);
      RemovedSorted(st.ix, Position(st.ix, st.cs[i + 1].pos), Smaller(st.cs));
    }
  }

  /** Every indexed hole besides those that free joins keeps its size. */
  lemma BesidesKeepSize(st: State, i: int, ds: seq<Chunk>, hi: int, m: seq<Chunk>)
    requires Inv(st) && 0 <= i < |st.cs| && !st.cs[i].hole
    requires ds == Before(st.cs, i) + m + After(st.cs, i) && Tiles(ds, st.lo, hi)
    ensures forall x :: x in IndexWithoutRight(st, i) && x != Merged(st.cs, i).pos ==> SizeAt(st.cs, x) == SizeAt(ds, x)
  {
    hide Tiles, Holes, Coalesced, SizeAt, IndexWithoutRight, After;
    WithoutRight(st, i);
    forall x | x in IndexWithoutRight(st, i) && x != Merged(st.cs, i).pos
      ensures SizeAt(st.cs, x) == SizeAt(ds, x)
    {
      KeptBesides(st, i, x);
      forall c | c in st.cs && c.pos == x
        ensures c in ds
      {
        if c in st.cs[..i] {
          var j :| 0 <= j < i && st.cs[j] == c;
          assert HoleAt(st.cs, i - 1) ==> j != i - 1;
          assert c == Before(st.cs, i)[j];
        }
      }
      SameSize(st, x, ds, hi);
    }
  }

  lemma WithoutRight(st: State, i: int)
    requires Inv(st) && 0 <= i < |st.cs|
    ensures forall x :: x in IndexWithoutRight(st, i) ==> x in st.ix && (HoleAt(st.cs, i + 1) ==> x != st.cs[i + 1].pos)
  {
    if HoleAt(st.cs, i + 1) {
      IndexHasHole(st, st.cs[i + 1]);
      EntryOnce(st, Position(st.ix, st.cs[i + 1].pos));
    }
  }

  /** An indexed hole other than the right neighbour of block i survives the freeing of that block. */
  lemma KeptBesides(st: State, i: int, x: nat)
    requires Inv(st) && 0 <= i < |st.cs| && !st.cs[i].hole && x in st.ix
    requires HoleAt(st.cs, i + 1) ==> x != st.cs[i + 1].pos
    ensures forall c :: c in st.cs && c.pos == x ==> c in st.cs[..i] || c in After(st.cs, i)
  {
    var k :| 0 <= k < |st.ix| && st.ix[k] == x;
    IndexedHole(st, k);
    forall c | c in st.cs && c.pos == x
      ensures c in st.cs[..i] || c in After(st.cs, i)
    {
      var j :| 0 <= j < |st.cs| && st.cs[j] == c;
      FindAt(st.cs, j, st.lo, st.hi);
      if j < i {
        assert c == st.cs[..i][j];
      } else {
        assert j != i && (HoleAt(st.cs, i + 1) ==> j != i + 1);
        var r := if HoleAt(st.cs, i + 1) then i + 2 else i + 1;
        assert c == st.cs[r..][j - r];
      }
    }
  }

  /** The merged hole's entry: in the index exactly when there was a hole on the left. */
  lemma MergedIndexed(st: State, i: nat)
    requires Inv(st) && i < |st.cs| && !st.cs[i].hole
    ensures Merged(st.cs, i).pos in IndexWithoutRight(st, i) <==> HoleAt(st.cs, i as int - 1)
  {
    hide Tiles, Coalesced, Holes;
    MergedShape(st.cs, i);
    WithoutRight(st, i);
    if HoleAt(st.cs, i as int - 1) {
      IndexHasHole(st, st.cs[i - 1]);
      if HoleAt(st.cs, i + 1) {
        Increasing(st.cs, i - 1, i + 1, st.lo, st.hi);
        WithoutKeeps(st.ix, st.cs[i - 1].pos, st.cs[i + 1].pos);
      }
    } else if st.cs[i].pos in st.ix {
      var k :| 0 <= k < |st.ix| && st.ix[k] == st.cs[i].pos;
      IndexedHole(st, k);
      FindAt(st.cs, i, st.lo, st.hi);
    }
  }

  lemma WithoutKeeps(ix: seq<nat>, x: nat, y: nat)
    requires x in ix && x != y
    ensures x in Without(ix, y)
  {
    var k := Position(ix, y);
    var j :| 0 <= j < |ix| && ix[j] == x;
    if k < |ix| {
      assert Removed(ix, k)[if j < k then j else j - 1] == x;
    }
  }

  /**
    Joining a hole on the left changes that hole's size in place (src/kheap.c:299) and so can take
    the index out of size order: freeing the 256-byte block of this heap turns its hole of 32 bytes
    into one of 288, which still stands before the hole of 100 bytes.
  */
  lemma LeftJoinDisorders() returns (st: State, p: nat)
    ensures Inv(st) && SortedIndex(st) && p != 0
    ensures forall b :: Free(st, p, b, false).Done? && !SortedIndex(Free(st, p, b, false).st)
  {
    hide Holes, Tiles, Coalesced, Free, Sorted, SizeAt;
    var a, f, g, h, k, hi := DisorderedChunks();
    st := State([a] + ([f] + ([g] + ([h] + [k]))), [a.pos, h.pos], 0x80000, hi, 0x100000, {});
    p := f.pos + HEADER;
    var joined := a.(size := 288);
    var ds := [joined] + ([g] + ([h] + [k]));
    assert SortedIndex(st) by {
      TwoSorted(st.ix, st.cs);
    }
    assert !Sorted(st.ix, Smaller(ds)) by {
      TwoSorted(st.ix, ds);
    }
    forall b
      ensures Free(st, p, b, false).Done? && !SortedIndex(Free(st, p, b, false).st)
    {
      FreesSecond(a, f, g, h, k, hi, b);
    }
  }

  lemma TwoSorted(ix: seq<nat>, cs: seq<Chunk>)
    requires |ix| == 2
    ensures Sorted(ix, Smaller(cs)) <==> SizeAt(cs, ix[0]) <= SizeAt(cs, ix[1])
  {
    hide SizeAt;
    assert !Smaller(cs)(ix[1], ix[0]) <==> SizeAt(cs, ix[0]) <= SizeAt(cs, ix[1]);
  }

  /** The five chunks of the heap: a hole, two blocks, a hole, a block. */
  lemma DisorderedChunks() returns (a: Chunk, f: Chunk, g: Chunk, h: Chunk, k: Chunk, hi: nat)
    ensures a == Chunk(0x80000, 32, true) && f == Chunk(0x80020, 256, false) && hi == 0x81000
    ensures g == Chunk(0x80120, 64, false) && h == Chunk(0x80160, 100, true) && k == Chunk(0x801C4, 3644, false)
    ensures var cs, ds := [a] + ([f] + ([g] + ([h] + [k]))), [a.(size := 288)] + ([g] + ([h] + [k]));
            && Tiles(cs, a.pos, hi) && Coalesced(cs) && Holes(cs) == [a.pos, h.pos]
            && Find(cs, f.pos) == 1 && SizeAt(cs, a.pos) == 32 && SizeAt(cs, h.pos) == 100
            && SizeAt(ds, a.pos) == 288 && SizeAt(ds, h.pos) == 100
  {
    hide Holes, Tiles, Coalesced, Find;
    a, f, hi := Chunk(0x80000, 32, true), Chunk(0x80020, 256, false), 0x81000;
    g, h, k := Chunk(0x80120, 64, false), Chunk(0x80160, 100, true), Chunk(0x801C4, 3644, false);
    var cs, joined := [a] + ([f] + ([g] + ([h] + [k]))), a.(size := 288);
    Single(k);
    Cons(h, [k], hi);
    Cons(g, [h] + [k], hi);
    Cons(f, [g] + ([h] + [k]), hi);
    Cons(a, [f] + ([g] + ([h] + [k])), hi);
    FindAt(cs, 0, a.pos, hi);
    FindAt(cs, 1, a.pos, hi);
    FindAt(cs, 3, a.pos, hi);
    var ds := [joined] + ([g] + ([h] + [k]));
    Cons(joined, [g] + ([h] + [k]), hi);
    FindAt(ds, 0, a.pos, hi);
    FindAt(ds, 2, a.pos, hi);
  }

  lemma FreesSecond(a: Chunk, f: Chunk, g: Chunk, h: Chunk, k: Chunk, hi: nat, b: Build)
    requires a.hole && !f.hole && !g.hole && a.End() == f.pos && f.End() < hi
    requires var cs := [a] + ([f] + ([g] + ([h] + [k]))); Find(cs, f.pos) == 1
    ensures var st := State([a] + ([f] + ([g] + ([h] + [k]))), [a.pos, h.pos], 0x80000, hi, 0x100000, {});
            var r := Free(st, f.pos + HEADER, b, false);
            r.Done? && r.st.ix == st.ix && r.st.cs == [a.(size := a.size + f.size)] + ([g] + ([h] + [k]))
  {
    hide Find, Holes, Tiles, Coalesced, Inserted;
    var cs := [a] + ([f] + ([g] + ([h] + [k])));
    assert Before(cs, 1) == [] && After(cs, 1) == [g] + ([h] + [k]);
    assert Merged(cs, 1) == a.(size := a.size + f.size);
  }
}
