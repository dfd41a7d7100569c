/** What one request keeps: every chunk list the heap passes through is a coalesced tiling. */
module HeapSteps {
  import opened Chunks
  import opened Kernel
  import opened OrderedArrays
  import opened HeapSpec

  /** Every index entry is the address of a hole of the chunk list. */
  lemma IndexedHole(st: State, k: nat)
    requires Inv(st) && k < |st.ix|
    ensures Find(st.cs, st.ix[k]) < |st.cs| && st.cs[Find(st.cs, st.ix[k])].hole
  {
    var p := st.ix[k];
    assert p in multiset(st.ix);
    HolesAreChunks(st.cs, p);
    var c :| c in st.cs && c.hole && c.pos == p;
    var i :| 0 <= i < |st.cs| && st.cs[i] == c;
    FindAt(st.cs, i, st.lo, st.hi);
  }

  /** Replacing a hole by a coalesced tiling of its range. */
  lemma ReplaceHole(cs: seq<Chunk>, i: nat, m: seq<Chunk>, lo: int, hi: int)
    requires Tiles(cs, lo, hi) && Coalesced(cs) && i < |cs| && cs[i].hole
    requires m != [] && Tiles(m, cs[i].pos, cs[i].End()) && Coalesced(m)
    ensures Tiles(Replaced(cs, i, m), lo, hi) && Coalesced(Replaced(cs, i, m))
    ensures Holes(cs) == Holes(cs[..i]) + [cs[i].pos] + Holes(cs[i + 1..])
    ensures Holes(Replaced(cs, i, m)) == Holes(cs[..i]) + Holes(m) + Holes(cs[i + 1..])
    ensures Blocks(cs) == Blocks(cs[..i]) + Blocks(cs[i + 1..])
    ensures Blocks(Replaced(cs, i, m)) == Blocks(cs[..i]) + Blocks(m) + Blocks(cs[i + 1..])
  {
    hide Holes, Blocks, Coalesced, Tiles;
    var a, b := cs[..i], cs[i + 1..];
    TilesAround(cs, i, lo, hi);
    TilesReplace(a, m, b, lo, cs[i].pos, cs[i].End(), hi);
    Single(cs[i]);
    Join(a, [cs[i]]);
    Join(a + [cs[i]], b);
    Join(a, m);
    Join(a + m, b);
    assert Joinable(a + m, b) by {
      assert (a + m)[|a + m| - 1] == m[|m| - 1];
      assert (a + [cs[i]])[i] == cs[i];
    }
  }

  /** The pieces of a hole, seen as a chunk list. */
  lemma PiecesShape(r: Pieces)
    requires |r.front| <= 1 && |r.tail| <= 1 && !r.block.hole
    requires forall c :: c in r.front + r.tail ==> c.hole
    ensures Coalesced(r.All()) && Blocks(r.All()) == [r.block]
    ensures Holes(r.All()) ==
            (if r.front == [] then [] else [r.front[0].pos]) + (if r.tail == [] then [] else [r.tail[0].pos])
  {
    hide Holes, Blocks, Coalesced;
    Single(r.block);
    NoChunks([]);
    Join(r.front, [r.block]);
    Join(r.front + [r.block], r.tail);
    assert (r.front + [r.block])[|r.front|] == r.block;
    if r.front != [] {
      assert r.front[0] in r.front + r.tail && r.front == [r.front[0]];
      Single(r.front[0]);
    }
    if r.tail != [] {
      assert r.tail[0] in r.front + r.tail && r.tail == [r.tail[0]];
      Single(r.tail[0]);
    }
  }

  /** A block and at most one hole behind it. */
  lemma TilesOne(b: Chunk, t: seq<Chunk>, lo: int, hi: int)
    requires |t| <= 1
    ensures Tiles([b] + t, lo, hi) <==>
            b.pos == lo && b.size >= OVERHEAD
            && if t == [] then b.End() == hi else t[0].pos == b.End() && t[0].size >= OVERHEAD && t[0].End() == hi
  {
    assert ([b] + t)[0] == b && ([b] + t)[1..] == t;
    if t != [] {
      assert t[1..] == [];
      assert Tiles(t, b.End(), hi) <==> t[0].pos == b.End() && t[0].size >= OVERHEAD && t[0].End() == hi;
    }
  }

  /** The same with a hole in front. */
  lemma TilesTwo(f: Chunk, b: Chunk, t: seq<Chunk>, lo: int, hi: int)
    requires |t| <= 1
    ensures Tiles([f] + [b] + t, lo, hi) <==>
            f.pos == lo && f.size >= OVERHEAD && b.pos == f.End() && b.size >= OVERHEAD
            && if t == [] then b.End() == hi else t[0].pos == b.End() && t[0].size >= OVERHEAD && t[0].End() == hi
  {
    assert ([f] + [b] + t)[0] == f && ([f] + [b] + t)[1..] == [b] + t;
    TilesOne(b, t, f.End(), hi);
  }

  /** Where the pieces of a page-aligned request lie; near the end of a page the sizes wrap. */
  lemma AlignedPieces(c: Chunk, need: nat)
    requires PAGE <= c.pos && c.End() < 0x1_0000_0000 && OVERHEAD <= c.size
    requires OVERHEAD <= need < 0x1_0000_0000 && SearchOffset(c.pos) + need <= c.size
    ensures var r := Cut(c, need, true);
            && (c.pos % PAGE <= 0xFE0 ==>
                  && r.front[0].size == FrontSize(c.pos) >= OVERHEAD
                  && r.block == Chunk(c.pos + FrontSize(c.pos), need, false)
                  && c.size >= FrontSize(c.pos) + need
                  && r.tail == if c.size == FrontSize(c.pos) + need then []
                               else [Chunk(r.block.pos + need, c.size - FrontSize(c.pos) - need, true)])
            && (c.pos % PAGE > 0xFE0 ==> r.front[0].size < OVERHEAD || r.block.pos < c.pos)
  {
    if c.pos % PAGE <= 0xFE0 {
      assert (c.pos + HEADER) % PAGE == c.pos % PAGE + HEADER;
    }
  }

  /**
    The pieces that alloc cuts tile the hole exactly when the hole is taken from its start or is
    AlignSafe: the front hole and the remainder are never checked otherwise.
  */
  lemma CutTiles(c: Chunk, need: nat, align: bool)
    requires PAGE <= c.pos && c.End() < 0x1_0000_0000 && OVERHEAD <= c.size
    requires OVERHEAD <= need < 0x1_0000_0000
    requires if align then SearchOffset(c.pos) + need <= c.size else need <= c.size
    ensures Tiles(Cut(c, need, align).All(), c.pos, c.End()) <==> !align || AlignSafe(c, need)
  {
    hide Tiles;
    var r := Cut(c, need, align);
    if align {
      assert r.front == [r.front[0]];
      TilesTwo(r.front[0], r.block, r.tail, c.pos, c.End());
      AlignedPieces(c, need);
    } else {
      assert r.All() == [r.block] + r.tail;
      TilesOne(r.block, r.tail, c.pos, c.End());
    }
  }

  /** The block b has been added to a list of blocks, at some position. */
  ghost predicate Added(before: seq<Chunk>, after: seq<Chunk>, b: Chunk) {
    exists n :: 0 <= n <= |before| && after == before[..n] + [b] + before[n..]
  }

  /** The block a pointer handed out by alloc belongs to: room for the request and less than 20 bytes more. */
  ghost predicate BlockFor(b: Chunk, p: nat, size: nat, align: bool, lo: nat, hi: nat) {
    && !b.hole && b.pos + HEADER == p
    && lo <= b.pos && p + size + FOOTER <= b.End() <= hi && b.End() < p + size + FOOTER + OVERHEAD
    && (align ==> p % PAGE == 0)
  }

  lemma AddedBetween(a: seq<Chunk>, c: seq<Chunk>, b: Chunk)
    ensures Added(a + c, a + [b] + c, b)
  {
    var s := a + c;
    assert s[..|a|] == a && s[|a|..] == c;
  }

  /** Pieces that tile the hole c: at most one hole on each side of a block. */
  ghost predicate PiecesOf(r: Pieces, c: Chunk) {
    && Tiles(r.All(), c.pos, c.End())
    && |r.front| <= 1 && |r.tail| <= 1 && !r.block.hole
    && (forall h :: h in r.front + r.tail ==> h.hole)
    && (r.front != [] ==> r.front[0].pos == c.pos)
  }

  /** Where the pieces of a safely cut hole lie. */
  lemma CutGeometry(c: Chunk, need: nat, align: bool)
    requires PAGE <= c.pos && c.End() < 0x1_0000_0000 && OVERHEAD <= c.size
    requires OVERHEAD <= need < 0x1_0000_0000
    requires if align then AlignSafe(c, need) else need <= c.size
    ensures var r := Cut(c, need, align);
            PiecesOf(r, c) && BlockFor(r.block, r.block.pos + HEADER, need - OVERHEAD, align, c.pos, c.End())
  {
    var r := Cut(c, need, align);
    if align {
      assert (c.pos + HEADER) % PAGE == c.pos % PAGE + HEADER;
      assert r.block.pos + HEADER == c.pos - c.pos % PAGE + PAGE;
    }
    CutTiles(c, need, align);
    TilesBounds(r.All(), c.pos, c.End());
    assert r.block in r.All();
  }

  /** What carving does to the chunk list. */
  lemma CarveChunks(cs: seq<Chunk>, i: nat, r: Pieces, lo: int, hi: int)
    requires Tiles(cs, lo, hi) && Coalesced(cs)
    requires i < |cs| && cs[i].hole && PiecesOf(r, cs[i])
    ensures var cs' := Replaced(cs, i, r.All());
            && Tiles(cs', lo, hi) && Coalesced(cs')
            && Holes(cs') == Holes(cs[..i]) + Holes(r.All()) + Holes(cs[i + 1..])
            && Holes(cs) == Holes(cs[..i]) + [cs[i].pos] + Holes(cs[i + 1..])
            && Added(Blocks(cs), Blocks(cs'), r.block)
  {
    PiecesShape(r);
    ReplaceHole(cs, i, r.All(), lo, hi);
    AddedBetween(Blocks(cs[..i]), Blocks(cs[i + 1..]), r.block);
  }

  lemma SwapMultiset(ix: seq<nat>, a: seq<nat>, x: seq<nat>, y: seq<nat>, b: seq<nat>, ix': seq<nat>)
    requires multiset(ix) == multiset(a + x + b)
    requires multiset(ix') == multiset(ix) - multiset(x) + multiset(y)
    ensures multiset(ix') == multiset(a + y + b)
  {
    assert multiset(a + x + b) == multiset(a) + multiset(x) + multiset(b);
    assert multiset(a + y + b) == multiset(a) + multiset(y) + multiset(b);
  }

  /** What carving does to the index. */
  lemma CarveIndex(ix: seq<nat>, k: nat, r: Pieces, cs: seq<Chunk>)
    requires k < |ix| && |r.front| <= 1 && |r.tail| <= 1
    requires r.front != [] ==> r.front[0].pos == ix[k]
    ensures multiset(IndexAfterCut(ix, k, r, cs)) ==
            multiset(ix) - multiset([ix[k]])
            + multiset((if r.front == [] then [] else [r.front[0].pos])
                       + (if r.tail == [] then [] else [r.tail[0].pos]))
  {
    hide Inserted, Removed;
    RemovedMultiset(ix, k);
    var one := multiset{ix[k]};
    assert multiset([ix[k]]) == one && ix[k] in multiset(ix);
    var rest := if r.front == [] then Removed(ix, k) else ix;
    if r.front == [] {
      assert multiset(rest) == multiset(ix) - one;
    } else {
      assert multiset(rest) == multiset(ix) - one + one;
    }
    if r.tail != [] {
      InsertedMultiset(rest, r.tail[0].pos, Smaller(cs));
      OneOrTwo(r.tail[0].pos, ix[k]);
    }
  }

  lemma OneOrTwo(x: nat, y: nat)
    ensures multiset([] + [x]) == multiset{x} && multiset([y] + [x]) == multiset{y} + multiset{x}
            && multiset([y] + []) == multiset{y}
  {
    assert [] + [x] == [x] && [y] + [] == [y];
  }

  /** Carving with any pieces that tile the hole. */
  lemma CarveWith(st: State, k: nat, i: nat, r: Pieces)
    requires Inv(st) && k < |st.ix| && i < |st.cs|
    requires st.cs[i].pos == st.ix[k] && st.cs[i].hole && PiecesOf(r, st.cs[i])
    ensures var cs := Replaced(st.cs, i, r.All());
            && Inv(st.(cs := cs, ix := IndexAfterCut(st.ix, k, r, cs)))
            && Added(Blocks(st.cs), Blocks(cs), r.block)
  {
    var cs := Replaced(st.cs, i, r.All());
    PiecesShape(r);
    CarveChunks(st.cs, i, r, st.lo, st.hi);
    CarveIndex(st.ix, k, r, cs);
    SwapMultiset(st.ix, Holes(st.cs[..i]), [st.cs[i].pos], Holes(r.All()), Holes(st.cs[i + 1..]),
        IndexAfterCut(st.ix, k, r, cs));
  }

  /** Carving keeps the invariant and adds exactly one block, which lies inside the old hole. */
  lemma CarveKeeps(st: State, k: nat, need: nat, align: bool)
    requires Inv(st) && k < |st.ix| && OVERHEAD <= need < 0x1_0000_0000
    requires !align ==> need <= SizeAt(st.cs, st.ix[k])
    requires Carve(st, k, need, align).Done?
    ensures var i, r := Find(st.cs, st.ix[k]), Carve(st, k, need, align);
            && i < |st.cs| && st.cs[i].hole && Inv(r.st)
            && var b := Cut(st.cs[i], need, align).block;
            && Added(Blocks(st.cs), Blocks(r.st.cs), b)
            && BlockFor(b, r.ptr, need - OVERHEAD, align, st.cs[i].pos, st.cs[i].End())
  {
    hide Holes, Blocks, Coalesced, Cut, PiecesOf, BlockFor, IndexAfterCut, Replaced, Added;
    IndexedHole(st, k);
    var i := Find(st.cs, st.ix[k]);
    var c, r := st.cs[i], Cut(st.cs[i], need, align);
    assert PAGE <= c.pos && c.End() < 0x1_0000_0000 && OVERHEAD <= c.size by {
      TilesBounds(st.cs, st.lo, st.hi);
    }
    CutGeometry(c, need, align);
    CarveWith(st, k, i, r);
  }

  /** The endmost header that growing finds is the last chunk exactly when that chunk is a hole. */
  lemma EndmostHole(st: State)
    requires Inv(st) && st.ix != []
    ensures var e := Find(st.cs, Largest(st.ix));
            e < |st.cs| && st.cs[e].hole && (e == |st.cs| - 1 <==> GrowSafe(st))
  {
    var k :| 0 <= k < |st.ix| && st.ix[k] == Largest(st.ix);
    IndexedHole(st, k);
    var e, last := Find(st.cs, Largest(st.ix)), |st.cs| - 1;
    if st.cs[last].hole && e < last {
      IndexHasHole(st, st.cs[last]);
      Increasing(st.cs, e, last, st.lo, st.hi);
    }
  }

  lemma IndexHasHole(st: State, c: Chunk)
    requires multiset(st.ix) == multiset(Holes(st.cs)) && c in st.cs && c.hole
    ensures c.pos in st.ix
  {
    ChunksAreHoles(st.cs, c);
    assert c.pos in multiset(st.ix);
  }

  /** Enlarging a chunk by the growth of the heap gives a tiling only at the end of the list. */
  lemma EnlargedTiles(cs: seq<Chunk>, e: nat, n: nat, lo: int, hi: int)
    requires Tiles(cs, lo, hi) && e < |cs| && n > 0
    ensures Tiles(Enlarged(cs, e, n), lo, hi + n) <==> e == |cs| - 1
  {
    var r := Enlarged(cs, e, n);
    TilesAround(cs, e, lo, hi);
    assert r[..e] == cs[..e] && r[e + 1..] == cs[e + 1..];
    if e == |cs| - 1 {
      assert r == cs[..e] + [r[e]] + [];
      TilesReplace(cs[..e], [r[e]], [], lo, cs[e].pos, hi + n, hi + n);
    } else if Tiles(r, lo, hi + n) {
      Increasing(r, e, e + 1, lo, hi + n);
    }
  }

  /**
    The growth step of alloc (src/kheap.c:181-201) as it is written: it enlarges the endmost hole,
    and that gives a tiling exactly when the last chunk is a hole.
  */
  lemma GrowthTiles(st: State, n: nat)
    requires Inv(st) && st.ix != [] && n > 0
    ensures Find(st.cs, Largest(st.ix)) < |st.cs|
    ensures Tiles(Enlarged(st.cs, Find(st.cs, Largest(st.ix)), n), st.lo, st.hi + n) <==> GrowSafe(st)
  {
    EndmostHole(st);
    EnlargedTiles(st.cs, Find(st.cs, Largest(st.ix)), n, st.lo, st.hi);
  }

  /** A list without holes has no hole address to put in the index. */
  lemma {:induction false} NoHoles(cs: seq<Chunk>)
    requires Holes(cs) == []
    ensures forall c :: c in cs ==> !c.hole
  {
    if cs != [] {
      NoHoles(cs[1..]);
    }
  }

  /** Appending a hole to a tiling without holes. */
  lemma AppendHole(cs: seq<Chunk>, n: nat, lo: int, hi: nat)
    requires Tiles(cs, lo, hi) && Coalesced(cs) && Holes(cs) == [] && n >= OVERHEAD
    ensures var r := cs + [Chunk(hi, n, true)];
            Tiles(r, lo, hi + n) && Coalesced(r) && Holes(r) == [hi] && Blocks(r) == Blocks(cs)
  {
    hide Holes, Blocks, Coalesced, Tiles;
    var h := Chunk(hi, n, true);
    Single(h);
    TilesConcat(cs, [h], lo, hi, hi + n);
    NoHoles(cs);
    Join(cs, [h]);
  }

  /** Enlarging the last hole of a tiling. */
  lemma EnlargeLast(cs: seq<Chunk>, n: nat, lo: int, hi: nat)
    requires Tiles(cs, lo, hi) && Coalesced(cs) && cs != [] && cs[|cs| - 1].hole && n > 0
    ensures var r := Enlarged(cs, |cs| - 1, n);
            Tiles(r, lo, hi + n) && Coalesced(r) && Holes(r) == Holes(cs) && Blocks(r) == Blocks(cs)
  {
    hide Holes, Blocks, Coalesced, Tiles;
    var e := |cs| - 1;
    var r := Enlarged(cs, e, n);
    var a, c, d := cs[..e], cs[e], r[e];
    EnlargedTiles(cs, e, n, lo, hi);
    assert cs == a + [c] && r == a + [d];
    Single(c);
    Single(d);
    Join(a, [c]);
    Join(a, [d]);
  }

  /** Growing keeps the invariant and the blocks, and leaves room for the request in the last hole. */
  lemma GrowKeeps(st: State, need: nat, b: Build)
    requires Inv(st) && GrowSafe(st) && OVERHEAD <= need && Room(st, need, b)
    ensures var r := Grow(st, need, b);
            && Inv(r) && Blocks(r.cs) == Blocks(st.cs)
            && r.cs != [] && r.cs[|r.cs| - 1].hole && r.cs[|r.cs| - 1].size >= r.hi - st.hi >= need
            && r.ix != []
  {
    hide Tiles, Coalesced, Holes, Blocks, ExpandedLength, PagesUp;
    var n := Grow(st, need, b).hi - st.hi;
    if st.ix == [] {
      assert Holes(st.cs) == [] by {
        assert |multiset(Holes(st.cs))| == 0;
      }
      AppendHole(st.cs, n, st.lo, st.hi);
    } else {
      EnlargeLast(st.cs, n, st.lo, st.hi);
    }
  }

  /** The chunks on either side of the hole that freeing block i makes. */
  ghost predicate Around(cs: seq<Chunk>, i: nat, lo: int, hi: int)
    requires i < |cs|
  {
    var a, h, b := Before(cs, i), Merged(cs, i), After(cs, i);
    && Tiles(a, lo, h.pos) && OVERHEAD <= h.size && Tiles(b, h.End(), hi)
    && Coalesced(a) && Coalesced(b) && Joinable(a, [h]) && Joinable([h], b)
  }

  function AddressIf(cs: seq<Chunk>, i: int): (ps: seq<nat>) {
    if HoleAt(cs, i) then [cs[i].pos] else []
  }

  /** Counting holes and blocks from index i on. */
  lemma CountFrom(cs: seq<Chunk>, i: nat)
    requires i <= |cs|
    ensures Holes(cs) == Holes(cs[..i]) + Holes(cs[i..])
    ensures Blocks(cs) == Blocks(cs[..i]) + Blocks(cs[i..])
    ensures i < |cs| ==> Holes(cs[i..]) == AddressIf(cs, i) + Holes(cs[i + 1..])
    ensures i < |cs| ==> Blocks(cs[i..]) == (if cs[i].hole then [] else [cs[i]]) + Blocks(cs[i + 1..])
  {
    assert cs == cs[..i] + cs[i..];
    Join(cs[..i], cs[i..]);
    if i < |cs| {
      assert cs[i..][1..] == cs[i + 1..];
    }
  }

  lemma LeftNeighbour(cs: seq<Chunk>, i: nat)
    requires i < |cs|
    ensures Holes(cs[..i]) == Holes(Before(cs, i)) + AddressIf(cs, i - 1)
    ensures Blocks(cs[..i]) == Blocks(Before(cs, i))
  {
    if HoleAt(cs, i - 1) {
      var a := cs[..i - 1];
      assert cs[..i] == a + [cs[i - 1]];
      Join(a, [cs[i - 1]]);
      Single(cs[i - 1]);
    }
  }

  lemma RightNeighbour(cs: seq<Chunk>, i: nat)
    requires i < |cs|
    ensures Holes(cs[i + 1..]) == AddressIf(cs, i + 1) + Holes(After(cs, i))
    ensures Blocks(cs[i + 1..]) == Blocks(After(cs, i))
  {
    if HoleAt(cs, i + 1) {
      CountFrom(cs, i + 1);
    }
  }

  lemma NotAHole(cs: seq<Chunk>, i: nat)
    requires i < |cs| && !cs[i].hole
    ensures AddressIf(cs, i) == []
  {
  }

  lemma Neighbours(cs: seq<Chunk>, i: nat)
    requires i < |cs| && !cs[i].hole
    ensures Holes(cs) == Holes(Before(cs, i)) + (AddressIf(cs, i - 1) + AddressIf(cs, i + 1)) + Holes(After(cs, i))
    ensures Blocks(cs) == Blocks(Before(cs, i)) + [cs[i]] + Blocks(After(cs, i))
  {
    hide Holes, Blocks, Before, After, AddressIf;
    CountFrom(cs, i);
    LeftNeighbour(cs, i);
    RightNeighbour(cs, i);
    assert AddressIf(cs, i) == [] by {
      NotAHole(cs, i);
    }
  }

  lemma CoalescedParts(cs: seq<Chunk>, i: nat)
    requires Coalesced(cs) && i <= |cs|
    ensures Coalesced(cs[..i]) && Coalesced(cs[i..]) && Joinable(cs[..i], cs[i..])
  {
    assert cs == cs[..i] + cs[i..];
    Join(cs[..i], cs[i..]);
  }

  lemma LeftPart(cs: seq<Chunk>, i: nat, lo: int, hi: int)
    requires Tiles(cs, lo, hi) && Coalesced(cs) && i < |cs|
    ensures var a := Before(cs, i);
            && Coalesced(a) && (a != [] ==> !a[|a| - 1].hole)
            && if HoleAt(cs, i - 1) then Tiles(a, lo, cs[i - 1].pos) && cs[i - 1].End() == cs[i].pos
               else Tiles(a, lo, cs[i].pos)
  {
    hide Coalesced, Tiles;
    var l := if HoleAt(cs, i - 1) then i - 1 else i;
    TilesSplit(cs, l, lo, hi);
    CoalescedParts(cs, l);
    if l < i {
      Adjacent(cs, l, lo, hi);
    }
    if 0 < l {
      NotBoth(cs, l - 1);
    }
  }

  lemma RightPart(cs: seq<Chunk>, i: nat, lo: int, hi: int)
    requires Tiles(cs, lo, hi) && Coalesced(cs) && i < |cs|
    ensures var b := After(cs, i);
            && OVERHEAD <= cs[i].size && Coalesced(b) && (b != [] ==> !b[0].hole)
            && if HoleAt(cs, i + 1) then cs[i].End() == cs[i + 1].pos && Tiles(b, cs[i + 1].End(), hi)
               else Tiles(b, cs[i].End(), hi)
  {
    hide Coalesced, Tiles;
    var r := if HoleAt(cs, i + 1) then i + 2 else i + 1;
    Adjacent(cs, i, lo, hi);
    TilesSplit(cs, r, lo, hi);
    CoalescedParts(cs, r);
    Adjacent(cs, r - 1, lo, hi);
    if r < |cs| {
      NotBoth(cs, r - 1);
    }
  }

  lemma MergedAround(cs: seq<Chunk>, i: nat, lo: int, hi: int)
    requires Tiles(cs, lo, hi) && Coalesced(cs) && i < |cs| && !cs[i].hole
    ensures Around(cs, i, lo, hi)
  {
    hide Coalesced, Tiles, Before, After;
    LeftPart(cs, i, lo, hi);
    RightPart(cs, i, lo, hi);
  }

  lemma WithoutMultiset(ix: seq<nat>, x: nat)
    requires x in ix
    ensures multiset(Without(ix, x)) == multiset(ix) - multiset{x}
  {
    RemovedMultiset(ix, Position(ix, x));
  }

  /** Taking the entry r, if there is one, out of the index. */
  lemma DropEntry(ix: seq<nat>, rest: multiset<nat>, r: seq<nat>)
    requires |r| <= 1 && multiset(ix) == rest + multiset(r)
    ensures multiset(if r == [] then ix else Without(ix, r[0])) == rest
  {
    if r != [] {
      assert r == [r[0]];
      assert r[0] in multiset(ix);
      WithoutMultiset(ix, r[0]);
    }
  }

  /** Putting the entry p into the index unless it is there already. */
  lemma PutEntry(ix: seq<nat>, rest: multiset<nat>, l: seq<nat>, p: nat, cs: seq<Chunk>)
    requires multiset(ix) == rest + multiset(l) && (l == [] || l == [p])
    ensures multiset(if l == [] then Inserted(ix, p, Smaller(cs)) else ix) == rest + multiset{p}
  {
    InsertedMultiset(ix, p, Smaller(cs));
  }

  /** A hole h put between a and b. */
  lemma PutHole(a: seq<Chunk>, h: Chunk, b: seq<Chunk>, lo: int, hi: int)
    requires Tiles(a, lo, h.pos) && OVERHEAD <= h.size && Tiles(b, h.End(), hi) && h.hole
    requires Coalesced(a) && Coalesced(b) && Joinable(a, [h]) && Joinable([h], b)
    ensures var cs := a + [h] + b;
            && Tiles(cs, lo, hi) && Coalesced(cs)
            && Holes(cs) == Holes(a) + [h.pos] + Holes(b) && Blocks(cs) == Blocks(a) + Blocks(b)
  {
    hide Holes, Blocks, Coalesced, Tiles;
    Single(h);
    TilesReplace(a, [h], b, lo, h.pos, h.End(), hi);
    Join(a, [h]);
    Join(a + [h], b);
    assert (a + [h])[|a|] == h;
  }

  /** The block b has been taken out of a list of blocks. */
  ghost predicate Dropped(before: seq<Chunk>, after: seq<Chunk>, b: Chunk) {
    Added(after, before, b)
  }

  /** The index once block i and its neighbours have given way to the hole `rest`. */
  lemma FreeIndex(st: State, i: nat, rest: Chunk, a: seq<nat>, z: seq<nat>, cs: seq<Chunk>)
    requires i < |st.cs| && rest.pos == Merged(st.cs, i).pos
    requires multiset(st.ix) == multiset(a + (AddressIf(st.cs, i - 1) + AddressIf(st.cs, i + 1)) + z)
    ensures multiset(Reindexed(IndexWithoutRight(st, i), rest, !HoleAt(st.cs, i - 1), cs))
            == multiset(a + [rest.pos] + z)
  {
    hide Without, Inserted;
    MergedShape(st.cs, i);
    var l, r := AddressIf(st.cs, i - 1), AddressIf(st.cs, i + 1);
    var m := multiset(a + z);
    assert multiset(a + (l + r) + z) == m + multiset(l) + multiset(r);
    assert multiset(a + [rest.pos] + z) == m + multiset{rest.pos};
    DropEntry(st.ix, m + multiset(l), r);
    PutEntry(IndexWithoutRight(st, i), m, l, rest.pos, cs);
  }

  /** The chunk list and the index once block i has given way to the hole `rest`, followed by z. */
  lemma FreeInto(st: State, i: nat, rest: Chunk, z: seq<Chunk>, hi: int)
    requires Inv(st) && i < |st.cs| && !st.cs[i].hole
    requires rest.hole && rest.pos == Merged(st.cs, i).pos && OVERHEAD <= rest.size
    requires Holes(z) == Holes(After(st.cs, i)) && Blocks(z) == Blocks(After(st.cs, i))
    requires Coalesced(z) && Joinable([rest], z) && Tiles(z, rest.End(), hi)
    ensures var cs := Before(st.cs, i) + [rest] + z;
            && Tiles(cs, st.lo, hi) && Coalesced(cs) && Dropped(Blocks(st.cs), Blocks(cs), st.cs[i])
            && multiset(Reindexed(IndexWithoutRight(st, i), rest, !HoleAt(st.cs, i - 1), cs)) == multiset(Holes(cs))
  {
    hide Holes, Blocks, Coalesced, Tiles, Added, Merged, Before, After, IndexWithoutRight, Reindexed, AddressIf;
    var a := Before(st.cs, i);
    MergedShape(st.cs, i);
    MergedAround(st.cs, i, st.lo, st.hi);
    Neighbours(st.cs, i);
    AddedBetween(Blocks(a), Blocks(z), st.cs[i]);
    PutHole(a, rest, z, st.lo, hi);
    FreeIndex(st, i, rest, Holes(a), Holes(z), a + [rest] + z);
  }

  /** The same when nothing is left of the trailing hole. */
  lemma FreeIntoNothing(st: State, i: nat)
    requires Inv(st) && i < |st.cs| && !st.cs[i].hole && After(st.cs, i) == []
    ensures var cs, h := Before(st.cs, i), Merged(st.cs, i);
            var ix := IndexWithoutRight(st, i);
            && Tiles(cs, st.lo, h.pos) && Coalesced(cs) && Dropped(Blocks(st.cs), Blocks(cs), st.cs[i])
            && multiset(if HoleAt(st.cs, i - 1) then Without(ix, h.pos) else ix) == multiset(Holes(cs))
  {
    hide Coalesced, Tiles, Added, Without, Inserted, Before;
    var a := Before(st.cs, i);
    var j: int := i;
    var l, r := AddressIf(st.cs, j - 1), AddressIf(st.cs, j + 1);
    MergedShape(st.cs, i);
    MergedAround(st.cs, i, st.lo, st.hi);
    Neighbours(st.cs, i);
    AddedBetween(Blocks(a), [], st.cs[i]);
    assert Blocks(a) + [] == Blocks(a) && Holes(a) + [] == Holes(a);
    DropEntry(st.ix, multiset(Holes(a)) + multiset(l), r);
    DropEntry(IndexWithoutRight(st, i), multiset(Holes(a)), l);
  }

  /** Freeing a block of which something remains before, or at, the end of the heap. */
  lemma FreeInside(st: State, i: nat, left: nat, hi: int)
    requires Inv(st) && i < |st.cs| && !st.cs[i].hole && OVERHEAD <= left
    requires var h := Merged(st.cs, i);
             if h.End() == st.hi then hi == h.pos + left else hi == st.hi && left == h.size
    ensures var rest := Merged(st.cs, i).(size := left);
            var cs := Before(st.cs, i) + [rest] + After(st.cs, i);
            && Tiles(cs, st.lo, hi) && Coalesced(cs) && Dropped(Blocks(st.cs), Blocks(cs), st.cs[i])
            && multiset(Reindexed(IndexWithoutRight(st, i), rest, !HoleAt(st.cs, i - 1), cs)) == multiset(Holes(cs))
  {
    hide Holes, Blocks, Coalesced, Dropped, Merged, Before, After, IndexWithoutRight, Reindexed;
    var h, z := Merged(st.cs, i), After(st.cs, i);
    MergedShape(st.cs, i);
    MergedAround(st.cs, i, st.lo, st.hi);
    if h.End() == st.hi {
      TilesBounds(z, h.End(), st.hi);
    }
    FreeInto(st, i, h.(size := left), z, hi);
  }

  /** Freeing keeps the invariant and takes out exactly the freed block. */
  lemma FreeKeeps(st: State, p: nat, b: Build, stale: bool)
    requires Inv(st) && p != 0 && Free(st, p, b, stale).Done?
    ensures var i, r := Find(st.cs, p - HEADER), Free(st, p, b, stale);
            && i < |st.cs| && !st.cs[i].hole
            && Inv(r.st) && r.st.lo == st.lo && r.st.max == st.max
            && Dropped(Blocks(st.cs), Blocks(r.st.cs), st.cs[i])
  {
    hide Holes, Blocks, Coalesced, Tiles, Dropped, RoundUp, PagesDown, Without, Inserted, Merged, Before, After,
         IndexWithoutRight, Reindexed;
    var i := Find(st.cs, p - HEADER);
    var h, z := Merged(st.cs, i), After(st.cs, i);
    MergedShape(st.cs, i);
    MergedAround(st.cs, i, st.lo, st.hi);
    TilesBounds(z, h.End(), st.hi);
    if h.End() != st.hi {
      FreeInside(st, i, h.size, st.hi);
    } else if Remainder(st, h, b) == 0 {
      FreeIntoNothing(st, i);
    } else {
      var left := Remainder(st, h, b);
      FreeInside(st, i, left, h.pos + left);
      assert Before(st.cs, i) + [h.(size := left)] + z == Before(st.cs, i) + [h.(size := left)];
    }
  }

  lemma NoChunks(cs: seq<Chunk>)
    requires cs == []
    ensures Holes(cs) == [] && Blocks(cs) == [] && Coalesced(cs)
  {
  }

  lemma MergedShape(cs: seq<Chunk>, i: nat)
    requires i < |cs|
    ensures Merged(cs, i).hole
    ensures HoleAt(cs, i - 1) ==> Merged(cs, i).pos == cs[i - 1].pos
    ensures !HoleAt(cs, i - 1) ==> Merged(cs, i).pos == cs[i].pos
  {
  }
}
