/** When a memory and an index describe a heap shape, and what alloc's writes do to that. */
module HeapImage {
  import opened Chunks
  import opened Kernel
  import opened Memory
  import opened OrderedArrays
  import opened HeapSpec
  import opened HeapSteps
  import opened HeapRuns
  import opened HeapTags

  /** The shape st is what memory m holds. */
  ghost predicate Describes(st: State, m: seq<Byte>) {
    && Inv(st)
    && st.lo + MIN_LENGTH + PAGE <= |m| && st.hi + PAGE <= |m| && st.max + PAGE <= |m| <= 0x1_0000_0000
       && |m| % PAGE == 0
    && Tagged(m, st.cs, st.hi)
    && Peek(m, st.lo - FOOTER) != MAGIC
  }

  lemma EntryTagged(st: State, m: seq<Byte>, k: nat)
    requires Describes(st, m) && k < |st.ix|
    ensures var p, n := st.ix[k], SizeAt(st.cs, st.ix[k]);
            && st.lo <= p && p + n <= st.hi && OVERHEAD <= n && HeaderIs(m, p, true, n)
  {
    IndexedHole(st, k);
    TilesBounds(st.cs, st.lo, st.hi);
    assert st.cs[Find(st.cs, st.ix[k])] in st.cs;
  }

  lemma {:induction false} FirstFitIs(cs: seq<Chunk>, ix: seq<nat>, need: Word, align: bool, k: nat)
    requires k <= |ix|
    requires forall j :: 0 <= j < k ==> !Fits(ix[j], Wrap(SizeAt(cs, ix[j])), need, align)
    requires k < |ix| ==> Fits(ix[k], Wrap(SizeAt(cs, ix[k])), need, align)
    ensures k == FirstFit(cs, ix, need, align)
  {
    if k > 0 {
      assert !Fits(ix[0], Wrap(SizeAt(cs, ix[0])), need, align);
      FirstFitIs(cs, ix[1..], need, align, k - 1);
    }
  }

  /** The memory and the index after a safe cut describe the shape that Carve gives. */
  lemma CarveDescribes(st: State, m: seq<Byte>, k: nat, need: nat, align: bool)
    requires Describes(st, m) && k < |st.ix| && OVERHEAD <= need < 0x1_0000_0000
    requires !align ==> need <= SizeAt(st.cs, st.ix[k])
    requires Carve(st, k, need, align).Done?
    ensures var i := Find(st.cs, st.ix[k]);
            && i < |st.cs| && st.cs[i].hole && st.cs[i].pos == st.ix[k] && st.lo <= st.ix[k] && st.cs[i].End() <= st.hi
            && var r := Cut(st.cs[i], need, align);
               && PiecesOf(r, st.cs[i]) && PiecesWritable(|m|, r)
               && Describes(Carve(st, k, need, align).st, WithPieces(m, r))
               && SameOutside(m, WithPieces(m, r), st.cs[i].pos, st.cs[i].End())
  {
    hide Tagged, Tiles, Coalesced, Holes, Blocks, WithPieces, Cut, IndexAfterCut, BlockFor, Added, Peek, Replaced;
    IndexedHole(st, k);
    CarveKeeps(st, k, need, align);
    var i := Find(st.cs, st.ix[k]);
    var c, r := st.cs[i], Cut(st.cs[i], need, align);
    TilesBounds(st.cs, st.lo, st.hi);
    assert c in st.cs;
    CutGeometry(c, need, align);
    CarveTagged(m, st.cs, i, r, st.lo, st.hi);
    PeekSame(m, WithPieces(m, r), st.lo - FOOTER);
  }

  /** The sizes and addresses that a safe cut works out, none of which wraps. */
  ghost predicate CutPlan(c: Chunk, need: nat, align: bool, front: nat, taken: nat, r: Pieces) {
    && (if align then c.pos % PAGE <= 0xFE0 && front == FrontSize(c.pos) && taken == need
        else front == 0)
    && front + taken <= c.size && OVERHEAD <= taken
    && (c.size - need < OVERHEAD ==> taken == c.size) && (OVERHEAD <= c.size - need ==> taken == need)
    && r == Pieces(if align then [Chunk(c.pos, front, true)] else [],
                   Chunk(c.pos + front, taken, false),
                   Behind(c.pos + front, taken, c.size - front))
    && (front + taken == c.size || OVERHEAD <= c.size - front - taken)
  }

  lemma CutNumbers(c: Chunk, need: nat, align: bool) returns (front: nat, taken: nat)
    requires PAGE <= c.pos && c.End() < 0x1_0000_0000 && OVERHEAD <= c.size && OVERHEAD <= need
    requires if align then AlignSafe(c, need) else need <= c.size
    ensures need <= c.size && CutPlan(c, need, align, front, taken, Cut(c, need, align))
  {
    front := if align then PAGE - c.pos % PAGE - HEADER else 0;
    taken := if c.size - need < OVERHEAD then c.size else need;
  }

  /** The hole behind a block of n bytes placed at p in a range of `size` bytes. */
  function Behind(p: nat, n: nat, size: nat): (t: seq<Chunk>)
    requires n <= size
    ensures |t| <= 1
  {
    if n == size then [] else [Chunk(p + n, size - n, true)]
  }

  lemma OptionalIs(m: seq<Byte>, cs: seq<Chunk>)
    requires |cs| <= 1 && Writable(|m|, cs)
    ensures WithOptional(m, cs) == if cs == [] then m else WithChunk(m, cs[0])
  {
  }

  lemma PiecesInOrder(m: seq<Byte>, r: Pieces)
    requires PiecesWritable(|m|, r)
    ensures r.block in [r.block]
    ensures WithPieces(m, r) == WithOptional(WithChunk(WithOptional(m, r.front), r.block), r.tail)
  {
    assert r.block in [r.block];
  }

  /** The hole that TakeHole cuts and the numbers it works out. */
  lemma TakeNumbers(st: State, m: seq<Byte>, k: nat, need: Word, align: bool)
    returns (c: Chunk, front: nat, taken: nat)
    requires Describes(st, m) && k < |st.ix| && OVERHEAD <= need
    requires !align ==> need <= SizeAt(st.cs, st.ix[k])
    requires Carve(st, k, need, align).Done?
    ensures Find(st.cs, st.ix[k]) < |st.cs| && c == st.cs[Find(st.cs, st.ix[k])]
    ensures PAGE <= c.pos == st.ix[k] && c.End() <= st.hi && st.hi + PAGE <= |m| <= 0x1_0000_0000
    ensures HeaderIs(m, c.pos, true, c.size) && need <= c.size
    ensures CutPlan(c, need, align, front, taken, Cut(c, need, align))
    ensures var d := Carve(st, k, need, align);
            d.ptr == c.pos + front + HEADER && d.st == st.(cs := d.st.cs, ix := d.st.ix)
  {
    hide Tiles, Tagged, Holes, Coalesced, Peek, IndexAfterCut;
    EntryTagged(st, m, k);
    IndexedHole(st, k);
    c := st.cs[Find(st.cs, st.ix[k])];
    front, taken := CutNumbers(c, need, align);
  }

  /** The index that TakeHole leaves is the one the memory order gives. */
  lemma TakeIndex(st: State, m: seq<Byte>, k: nat, need: Word, align: bool, r: Pieces)
    requires Describes(st, m) && k < |st.ix| && OVERHEAD <= need && PiecesWritable(|m|, r)
    requires Carve(st, k, need, align).Done? && Describes(Carve(st, k, need, align).st, WithPieces(m, r))
    requires r == Cut(st.cs[Find(st.cs, st.ix[k])], need, align) && (r.front == [] <==> !align)
    ensures Carve(st, k, need, align).st.ix == IndexAfterPieces(st.ix, k, r, align, WithPieces(m, r))
  {
    hide Describes, WithPieces, Inserted, Removed, Cut, AlignSafe;
    var st' := Carve(st, k, need, align).st;
    var rest := if align then st.ix else Removed(st.ix, k);
    IndexCut(st.ix, k, r, st'.cs, align);
    if r.tail != [] {
      InsertedMultiset(rest, r.tail[0].pos, Smaller(st'.cs));
      InsertedFits(st', WithPieces(m, r), rest, r.tail[0].pos);
    }
  }

  /** Everything TakeHole relies on. */
  lemma TakeFacts(st: State, m: seq<Byte>, k: nat, need: Word, align: bool)
    returns (c: Chunk, front: nat, taken: nat, r: Pieces, st': State)
    requires Describes(st, m) && k < |st.ix| && OVERHEAD <= need
    requires !align ==> need <= SizeAt(st.cs, st.ix[k])
    requires Carve(st, k, need, align).Done?
    ensures c in st.cs && c.hole
    ensures PAGE <= c.pos == st.ix[k] && c.End() <= st.hi && st.hi + PAGE <= |m| <= 0x1_0000_0000
    ensures HeaderIs(m, c.pos, true, c.size) && need <= c.size
    ensures CutPlan(c, need, align, front, taken, r) && PiecesWritable(|m|, r)
    ensures Carve(st, k, need, align) == Done(c.pos + front + HEADER, st')
    ensures Describes(st', WithPieces(m, r)) && BlocksSame(st.cs, m, WithPieces(m, r))
    ensures st' == st.(cs := st'.cs, ix := IndexAfterPieces(st.ix, k, r, align, WithPieces(m, r)))
    ensures align && r.tail != [] ==> |st.ix| < |st'.ix|
  {
    hide Describes, Find, Inserted, Removed, SizeAt, SameOutside, WithPieces, Cut, CutPlan, Carve, PiecesOf, HeaderIs,
         Inv, BlocksSame;
    c, front, taken := TakeNumbers(st, m, k, need, align);
    CarveDescribes(st, m, k, need, align);
    r := Cut(c, need, align);
    st' := Carve(st, k, need, align).st;
    assert r.front == [] <==> !align by {
      PlanFront(c, need, align, front, taken, r);
    }
    TakeIndex(st, m, k, need, align, r);
    assert Inv(st) by {
      DescribedInv(st, m);
    }
    BlocksUntouched(st, c, m, WithPieces(m, r));
  }

  lemma DescribedInv(st: State, m: seq<Byte>)
    requires Describes(st, m)
    ensures Inv(st)
  {
  }

  lemma PlanFront(c: Chunk, need: nat, align: bool, front: nat, taken: nat, r: Pieces)
    requires CutPlan(c, need, align, front, taken, r)
    ensures r.front == [] <==> !align
  {
  }

  /** The index after a cut, in the order that memory w gives. */
  ghost function IndexAfterPieces(ix: seq<nat>, k: nat, r: Pieces, align: bool, w: seq<Byte>): seq<nat>
    requires k < |ix|
  {
    var rest := if align then ix else Removed(ix, k);
    if r.tail == [] then rest else Inserted(rest, r.tail[0].pos, SmallerHeader(w))
  }

  lemma IndexCut(ix: seq<nat>, k: nat, r: Pieces, cs: seq<Chunk>, align: bool)
    requires k < |ix| && (r.front == [] <==> !align)
    ensures var rest := if align then ix else Removed(ix, k);
            IndexAfterCut(ix, k, r, cs) == if r.tail == [] then rest else Inserted(rest, r.tail[0].pos, Smaller(cs))
  {
  }

  /** In a described shape the index order read from memory is the order of the chunk sizes. */
  lemma InsertedFits(st: State, m: seq<Byte>, ix: seq<nat>, x: nat)
    requires Describes(st, m) && multiset(st.ix) == multiset(ix) + multiset{x}
    ensures Inserted(ix, x, SmallerHeader(m)) == Inserted(ix, x, Smaller(st.cs))
  {
    forall p | p in ix || p == x
      ensures Find(st.cs, p) < |st.cs|
    {
      assert p in multiset(st.ix);
      var j :| 0 <= j < |st.ix| && st.ix[j] == p;
      IndexedHole(st, j);
    }
    InsertedAgrees(m, st.cs, ix, x, st.lo, st.hi, st.hi);
  }

  /** The memory after growth: a new last hole, or the old one resized. */
  function GrownMemory(st: State, m: seq<Byte>, need: nat, b: Build): (r: seq<Byte>)
    requires Inv(st) && GrowSafe(st) && OVERHEAD <= need && Room(st, need, b)
    requires st.lo + ExpandedLength(b, st.Length() + need) <= |m|
    ensures |r| == |m|
  {
    var n := ExpandedLength(b, st.Length() + need) - st.Length();
    if st.ix == [] then WithChunk(m, Chunk(st.hi, n, true))
    else
      TilesBounds(st.cs, st.lo, st.hi);
      var c := st.cs[|st.cs| - 1];
      assert c in st.cs;
      Adjacent(st.cs, |st.cs| - 1, st.lo, st.hi);
      Resized(m, c, c.size + n)
  }

  lemma GrowDescribes(st: State, m: seq<Byte>, need: nat, b: Build)
    requires Describes(st, m) && GrowSafe(st) && OVERHEAD <= need && Room(st, need, b)
    ensures Describes(Grow(st, need, b), GrownMemory(st, m, need, b))
    ensures BlocksSame(st.cs, m, GrownMemory(st, m, need, b))
  {
    hide Tagged, Tiles, Coalesced, Holes, Blocks, ExpandedLength, PagesUp, Peek, Resized, WithChunk, BlocksSame;
    GrowKeeps(st, need, b);
    var r, w := Grow(st, need, b), GrownMemory(st, m, need, b);
    if st.ix == [] {
      NewHoleTagged(st, m, r.hi - st.hi);
    } else {
      LastHoleTagged(st, m, r.hi - st.hi);
    }
  }

  lemma NewHoleTagged(st: State, m: seq<Byte>, n: nat)
    requires Describes(st, m) && st.ix == [] && OVERHEAD <= n && st.hi + n <= |m| && st.hi + n < 0x1_0000_0000
    ensures var h := Chunk(st.hi, n, true);
            var w := WithChunk(m, h);
            Tagged(w, st.cs + [h], st.hi + n) && Peek(w, st.lo - FOOTER) != MAGIC && BlocksSame(st.cs, m, w)
  {
    hide Tagged, Tiles, Coalesced, Holes, Blocks, Peek, WithChunk;
    var h := Chunk(st.hi, n, true);
    var w := WithChunk(m, h);
    ChunkWritten(m, h, h.End());
    NoHolesHere(st);
    NoHoleTagged(m, st.cs, st.hi, h.End());
    TaggedFrame(m, w, st.cs, st.lo, st.hi, st.hi, h.End(), h.End());
    TaggedOne(w, h, h.End());
    TaggedJoin(w, st.cs, [h], h.End());
    PeekSame(m, w, st.lo - FOOTER);
    TilesBounds(st.cs, st.lo, st.hi);
  }

  lemma LastHoleTagged(st: State, m: seq<Byte>, n: nat)
    requires Describes(st, m) && st.cs != [] && st.cs[|st.cs| - 1].hole && st.hi + n <= |m|
             && st.hi + n < 0x1_0000_0000 && n > 0
    ensures var c := st.cs[|st.cs| - 1];
            && OVERHEAD <= c.size && c.End() == st.hi
            && var w := Resized(m, c, c.size + n);
               Tagged(w, Enlarged(st.cs, |st.cs| - 1, n), st.hi + n) && Peek(w, st.lo - FOOTER) != MAGIC
                   && BlocksSame(st.cs, m, w)
  {
    hide Tagged, Tiles, Coalesced, Holes, Blocks, Peek, Resized;
    var e := |st.cs| - 1;
    var a, c, hi := st.cs[..e], st.cs[e], st.hi + n;
    assert st.cs == a + [c] && Enlarged(st.cs, e, n) == a + [c.(size := c.size + n)];
    TilesAround(st.cs, e, st.lo, st.hi);
    Adjacent(st.cs, e, st.lo, st.hi);
    TilesBounds(a, st.lo, c.pos);
    TaggedJoin(m, a, [c], st.hi);
    TaggedHeader(m, c, st.hi);
    ChunkResized(m, c, c.size + n, hi);
    var w := Resized(m, c, c.size + n);
    TaggedElsewhere(m, a, st.lo, c.pos, st.hi, hi);
    TaggedFrame(m, w, a, st.lo, c.pos, c.pos, hi, hi);
    TaggedOne(w, c.(size := c.size + n), hi);
    TaggedJoin(w, a, [c.(size := c.size + n)], hi);
    PeekSame(m, w, st.lo - FOOTER);
    assert forall x :: x in st.cs && !x.hole ==> x in a;
  }

  /** The endmost hole that growth enlarges, when the index is not empty. */
  lemma GrowTarget(st: State, m: seq<Byte>) returns (p: nat, size: nat)
    requires Describes(st, m) && GrowSafe(st) && st.ix != []
    ensures p == Largest(st.ix) && HeaderIs(m, p, true, size) && OVERHEAD <= size && p + size == st.hi
    ensures st.cs != [] && st.cs[|st.cs| - 1] == Chunk(p, size, true)
  {
    p := Largest(st.ix);
    size := SizeAt(st.cs, p);
    var k :| 0 <= k < |st.ix| && st.ix[k] == p;
    EntryTagged(st, m, k);
    EndmostHole(st);
    Adjacent(st.cs, |st.cs| - 1, st.lo, st.hi);
  }

  lemma DescribedBounds(st: State, m: seq<Byte>)
    requires Describes(st, m)
    ensures 4 * INDEX_ENTRIES <= st.lo <= st.hi && st.hi + PAGE <= |m| && st.max + PAGE <= |m| <= 0x1_0000_0000
    ensures st.lo + MIN_LENGTH + PAGE <= |m|
  {
  }

  lemma EntriesPositive(st: State, m: seq<Byte>)
    requires Describes(st, m)
    ensures forall x :: x in st.ix ==> 0 < x
  {
    forall x | x in st.ix
      ensures 0 < x
    {
      var k :| 0 <= k < |st.ix| && st.ix[k] == x;
      EntryTagged(st, m, k);
    }
  }

  /** The memory after the space [end, end + n) has been given to the hole at p, or made a new hole. */
  function Extended(m: seq<Byte>, ix: seq<nat>, p: nat, size: nat, end: nat, n: nat): (r: seq<Byte>)
    requires OVERHEAD <= n && end + n <= |m| && end + n < 0x1_0000_0000
    requires ix != [] ==> OVERHEAD <= size && p + size == end
    ensures |r| == |m|
  {
    if ix == [] then WithChunk(m, Chunk(end, n, true))
    else WithFooter(Poke(m, p + 8, size + n), p + (size + n) - FOOTER, p)
  }

  /** Everything GrowHeap relies on. */
  lemma GrowFacts(st: State, m: seq<Byte>, need: nat, b: Build)
    returns (p: nat, size: nat, st': State, w: seq<Byte>)
    requires Describes(st, m) && GrowSafe(st) && OVERHEAD <= need && Room(st, need, b)
    ensures st' == Grow(st, need, b) && OVERHEAD <= st'.hi - st.hi
    ensures st'.hi + PAGE <= |m| <= 0x1_0000_0000 && forall x :: x in st.ix ==> 0 < x
    ensures st.ix != [] ==> p == Largest(st.ix) && HeaderIs(m, p, true, size) && OVERHEAD <= size && p + size == st.hi
    ensures w == Extended(m, st.ix, p, size, st.hi, st'.hi - st.hi) && Describes(st', w)
    ensures BlocksSame(st.cs, m, w)
    ensures st'.ix == (if st.ix == [] then [st.hi] else st.ix)
    ensures st' == st.(cs := st'.cs, ix := st'.ix, hi := st.lo + ExpandedLength(b, st.Length() + need),
                       pages := st.pages + PagesUp(st.lo, st.Length(), ExpandedLength(b, st.Length() + need)))
  {
    hide Tagged, Tiles, Coalesced, Holes, Blocks, ExpandedLength, PagesUp, Peek, WithFooter, Poke, WithChunk, HeaderIs,
         SameWithin;
    EntriesPositive(st, m);
    GrowDescribes(st, m, need, b);
    st' := Grow(st, need, b);
    p, size := 0, 0;
    if st.ix != [] {
      p, size := GrowTarget(st, m);
    }
    w := Extended(m, st.ix, p, size, st.hi, st'.hi - st.hi);
  }

  /** Writes into one chunk leave every byte of the live blocks as it was. */
  lemma BlocksUntouched(st: State, c: Chunk, m: seq<Byte>, r: seq<Byte>)
    requires Inv(st) && c in st.cs && c.hole && SameOutside(m, r, c.pos, c.End())
    ensures BlocksSame(st.cs, m, r)
  {
    hide Tiles, Coalesced, Holes;
    forall x | x in st.cs && !x.hole
      ensures SameWithin(m, r, x.pos, x.End())
    {
      PayloadsDisjoint(st, c, x);
    }
  }

  /** Every byte of every live block, tags included, is the same in both memories. */
  ghost predicate BlocksSame(cs: seq<Chunk>, m: seq<Byte>, r: seq<Byte>) {
    forall c :: c in cs && !c.hole ==> SameWithin(m, r, c.pos, c.End())
  }

  /** Live blocks survive growth and cutting. */
  lemma BlocksCarriedOver(st: State, need: nat, b: Build)
    requires Inv(st) && GrowSafe(st) && st.lo <= st.hi
    ensures forall c :: c in st.cs && !c.hole ==> c in Grow(st, need, b).cs
  {
    var r := Grow(st, need, b);
    if st.ix == [] {
    } else {
      forall c | c in st.cs && !c.hole
        ensures c in r.cs
      {
        var i :| 0 <= i < |st.cs| && st.cs[i] == c;
        assert r.cs[i] == c;
      }
    }
  }

  lemma BlocksSameTrans(cs: seq<Chunk>, ds: seq<Chunk>, m: seq<Byte>, r: seq<Byte>, w: seq<Byte>)
    requires BlocksSame(cs, m, r) && BlocksSame(ds, r, w) && forall c :: c in cs && !c.hole ==> c in ds
    requires |r| == |m| == |w|
    ensures BlocksSame(cs, m, w)
  {
  }

  /** A round of alloc that takes a hole, and why its index insertion has room. */
  lemma AllocTakes(st: State, m: seq<Byte>, size: nat, align: bool, b: Build)
    requires Describes(st, m) && HeapSpec.Alloc(st, size, align, b) != Broken
    requires size + OVERHEAD < 0x1_0000_0000 && FirstFit(st.cs, st.ix, size + OVERHEAD, align) < |st.ix|
    ensures var need, k := size + OVERHEAD, FirstFit(st.cs, st.ix, size + OVERHEAD, align);
            && HeapSpec.Alloc(st, size, align, b) == Carve(st, k, need, align)
            && Carve(st, k, need, align).Done?
            && (!align ==> need <= SizeAt(st.cs, st.ix[k]))
            && (!align ==> |Carve(st, k, need, align).st.ix| <= |st.ix|)
  {
    hide Tiles, Tagged, Coalesced, Holes, Blocks, Peek, ExpandedLength, Cut, AlignSafe, Grow, GrowSafe, HeaderIs;
    var need := size + OVERHEAD;
    var k := FirstFit(st.cs, st.ix, need, align);
    EntryTagged(st, m, k);
    CarveCount(st, k, need, align);
  }

  lemma CarveCount(st: State, k: nat, need: nat, align: bool)
    requires k < |st.ix|
    ensures var r := Carve(st, k, need, align);
            r.Broken? || (r.Done? && (!align ==> |r.st.ix| <= |st.ix|))
  {
  }

  /** A round of alloc that grows the heap. */
  lemma AllocGrows(st: State, size: nat, align: bool, b: Build)
    requires st.lo <= st.hi && HeapSpec.Alloc(st, size, align, b) != Broken
    requires size + OVERHEAD < 0x1_0000_0000 && FirstFit(st.cs, st.ix, size + OVERHEAD, align) == |st.ix|
    ensures var need := size + OVERHEAD;
            && (Refused(st, need, b) ==> HeapSpec.Alloc(st, size, align, b) == Panic)
            && (!Refused(st, need, b) ==>
                  && Room(st, need, b) && GrowSafe(st)
                  && HeapSpec.Alloc(st, size, align, b) == HeapSpec.Alloc(Grow(st, need, b), size, align, b))
  {
    hide Carve, Grow, FirstFit, GrowSafe, ExpandedLength, Room, Refused, SizeAt;
  }

  lemma AllocNeed(st: State, size: nat, align: bool, b: Build)
    requires st.lo <= st.hi && HeapSpec.Alloc(st, size, align, b) != Broken
    ensures size + OVERHEAD < 0x1_0000_0000
  {
  }

  lemma TaggedOne(m: seq<Byte>, c: Chunk, end: int)
    requires ChunkTags(m, c, end)
    ensures Tagged(m, [c], end)
  {
  }

  lemma TaggedHeader(m: seq<Byte>, c: Chunk, end: int)
    requires Tagged(m, [c], end)
    ensures HeaderIs(m, c.pos, c.hole, c.size)
  {
    assert c in [c];
  }

  lemma NoHolesHere(st: State)
    requires Inv(st) && st.ix == []
    ensures forall c :: c in st.cs ==> !c.hole
  {
    assert |multiset(Holes(st.cs))| == 0;
    NoHoles(st.cs);
  }

  lemma NoHoleTagged(m: seq<Byte>, cs: seq<Chunk>, end: int, other: int)
    requires Tagged(m, cs, end) && forall c :: c in cs ==> !c.hole
    ensures Tagged(m, cs, other)
  {
  }

  lemma CreatedIs(base: nat, end: nat, max: nat, pages: set<nat>)
    requires base + 4 * INDEX_ENTRIES <= end
    ensures var lo := base + 4 * INDEX_ENTRIES;
            Created(base, end, max, pages) == State([Chunk(lo, end - lo, true)], [lo], lo, end, max, pages)
  {
  }

  lemma CreatedDescribes(m: seq<Byte>, base: nat, end: nat, max: nat, pages: set<nat>)
    requires base % PAGE == 0 && end % PAGE == 0 && base + 4 * INDEX_ENTRIES < end
    requires base + 4 * INDEX_ENTRIES + MIN_LENGTH + PAGE <= |m| && end + PAGE <= |m|
             && max + PAGE <= |m| <= 0x1_0000_0000 && |m| % PAGE == 0
    requires forall k :: base <= k < base + 4 * INDEX_ENTRIES ==> m[k] == 0
    ensures var lo := base + 4 * INDEX_ENTRIES;
            Describes(Created(base, end, max, pages), WithHeader(m, lo, true, end - lo))
  {
    hide WithHeader, Holes, Blocks, Coalesced, Tiles;
    var lo := base + 4 * INDEX_ENTRIES;
    CreatedInv(base, end, max, pages);
    assert Peek(m, lo - FOOTER) == 0;
    HeaderWritten(m, lo, true, end - lo);
    PeekSame(m, WithHeader(m, lo, true, end - lo), lo - FOOTER);
  }
}
