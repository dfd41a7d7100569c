/** Which pages of the heap are backed by frames after it grows or shrinks. */
module HeapPages {
  import opened Chunks
  import opened Kernel
  import opened Memory
  import opened HeapSpec
  import opened HeapSteps
  import opened HeapRuns

  /** Every byte of the heap lies in a page that has a frame. */
  ghost predicate Backed(st: State) {
    Backs(st.pages, st.lo, st.hi)
  }

  ghost predicate Backs(pages: set<nat>, lo: int, hi: int) {
    forall q: nat :: lo / PAGE <= q <= (hi - 1) / PAGE ==> q in pages
  }

  /** The pages visited while stepping up by whole pages are consecutive. */
  lemma {:induction false} PagesUpAre(lo: nat, i: nat, n: nat, q: nat)
    ensures q in PagesUp(lo, i, n) <==> i < n && (lo + i) / PAGE <= q <= (lo + i) / PAGE + (n - 1 - i) / PAGE
    decreases n - i
  {
    if i < n {
      PagesUpAre(lo, i + PAGE, n, q);
      assert (lo + (i + PAGE)) / PAGE == (lo + i) / PAGE + 1;
      if i + PAGE < n {
        assert (n - 1 - i) / PAGE == (n - 1 - (i + PAGE)) / PAGE + 1;
      }
    }
  }

  /** The pages visited while stepping down by whole pages are consecutive, down to the last one above n. */
  lemma {:induction false} PagesDownAre(lo: nat, i: int, n: nat, q: nat)
    ensures q in PagesDown(lo, i, n) <==> q <= (lo + i) / PAGE && n < i - PAGE * ((lo + i) / PAGE - q)
    decreases i
  {
    if n < i {
      PagesDownAre(lo, i - PAGE, n, q);
      assert (lo + (i - PAGE)) / PAGE == (lo + i) / PAGE - 1;
    }
  }

  /** What contraction from hi to lo + n gives back: the pages that end by hi and are stepped on above lo + n. */
  lemma ContractionGives(lo: nat, hi: nat, n: nat, q: nat)
    requires lo % PAGE == 0 && lo + PAGE <= hi
    ensures q in PagesDown(lo, hi - lo - PAGE, n) <==> lo + n < q * PAGE + hi % PAGE && (q + 1) * PAGE <= hi
  {
    PagesDownAre(lo, hi - lo - PAGE, n, q);
    assert (hi - PAGE) / PAGE == hi / PAGE - 1;
    assert hi == PAGE * (hi / PAGE) + hi % PAGE;
  }

  /**
    The pages of the heap after any finished free.  Where the merged hole does not end the heap, neither
    the end nor any page changes.  Where it does, the pages given back are those that end by the old end
    and, counted down from it, are stepped on above the new end; from a page-aligned end those are all
    pages that begin above the new end.  The page that begins at the new end stays.
  */
  lemma FreePages(st: State, p: nat, b: Build, stale: bool, q: nat)
    requires Inv(st) && p != 0 && Free(st, p, b, stale).Done?
    ensures var i, r := Find(st.cs, p - HEADER), Free(st, p, b, stale).st;
            && i < |st.cs|
            && (Merged(st.cs, i).End() != st.hi ==> r.hi == st.hi && r.pages == st.pages)
            && (Merged(st.cs, i).End() == st.hi ==>
                  && r.hi == st.lo + ContractedLength(b, Merged(st.cs, i).pos - st.lo)
                  && (q in r.pages <==>
                      q in st.pages && !(r.hi < q * PAGE + st.hi % PAGE && (q + 1) * PAGE <= st.hi))
                  && (st.hi % PAGE == 0 ==> (q in r.pages <==> q in st.pages && !(r.hi < q * PAGE < st.hi))))
  {
    hide Holes, Coalesced, Tiles, Before, After, IndexWithoutRight, Reindexed, ContractedLength, PagesDown, Find,
         ContractSafe;
    var i := Find(st.cs, p - HEADER);
    if Merged(st.cs, i).End() == st.hi {
      ContractionGives(st.lo, st.hi, ContractedLength(b, Merged(st.cs, i).pos - st.lo), q);
      WholePages(st.hi, q);
    }
  }

  lemma WholePages(hi: nat, q: nat)
    ensures hi % PAGE == 0 ==> ((q + 1) * PAGE <= hi <==> q * PAGE < hi)
  {
    assert hi == PAGE * (hi / PAGE) + hi % PAGE;
  }

  /** The last byte of the grown heap falls in a page that expand has stepped on. */
  predicate LastPageReached(b: Build, st: State, need: nat)
    requires st.lo <= st.hi
  {
    var end := st.lo + ExpandedLength(b, st.Length() + need);
    (end - 1) / PAGE <= st.hi / PAGE + (end - 1 - st.hi) / PAGE
  }

  /**
    expand steps in whole pages from the old end.  It backs the grown heap exactly when its last
    step reaches the page of the last byte, or that page was backed already; starting from an end
    that is not page-aligned it may stop one page short.
  */
  lemma GrowthBacked(st: State, need: nat, b: Build)
    requires Inv(st) && GrowSafe(st) && Backed(st) && OVERHEAD <= need
    ensures var r := Grow(st, need, b);
            Backed(r) <==> LastPageReached(b, st, need) || (r.hi - 1) / PAGE in st.pages
  {
    hide Tiles, Coalesced, Holes, Enlarged, PagesUp, ExpandedLength;
    var r := Grow(st, need, b);
    var first, last := st.hi / PAGE, (r.hi - 1) / PAGE;
    var k := (r.hi - 1 - st.hi) / PAGE;
    assert last <= first + k + 1;
    assert (st.hi - 1) / PAGE >= first - 1;
    forall q: nat
      ensures q in r.pages <==> q in st.pages || first <= q <= first + k
    {
      PagesUpAre(st.lo, st.Length(), r.hi - r.lo, q);
    }
    if LastPageReached(b, st, need) || last in st.pages {
      forall q: nat | r.lo / PAGE <= q <= last
        ensures q in r.pages
      {
        if q < first {
          assert q <= (st.hi - 1) / PAGE;
        }
      }
    } else {
      assert last !in r.pages;
    }
  }

  /** A heap whose end is page-aligned is always backed after growing. */
  lemma AlignedGrowthBacked(st: State, need: nat, b: Build)
    requires Inv(st) && GrowSafe(st) && Backed(st) && OVERHEAD <= need && st.hi % PAGE == 0
    ensures Backed(Grow(st, need, b))
  {
    GrowthBacked(st, need, b);
  }

  /**
    Contraction is safe: the new end is page-aligned and leaves the minimum length, no live block
    lies above it, and no page below it loses its frame.  Where the minimum length moves the end up,
    contract asks for no frames: the heap is then backed exactly when the pages up to the new end were.
  */
  lemma ContractionSafe(st: State, p: nat, b: Build, stale: bool)
    requires Inv(st) && p != 0 && Free(st, p, b, stale).Done?
    ensures var r := Free(st, p, b, stale).st;
            && (r.hi != st.hi ==> r.hi % PAGE == 0 && r.lo + MIN_LENGTH <= r.hi)
            && (forall c :: c in Blocks(r.cs) ==> c.End() <= r.hi)
            && (Backed(st) ==> (Backed(r) <==> r.hi <= st.hi || Backs(st.pages, st.hi, r.hi)))
  {
    hide Holes, Blocks, Coalesced, Tiles, Dropped, Before, After, IndexWithoutRight, Reindexed, Merged,
         RoundUp, ContractedLength, PagesDown, Backs, Find;
    var r := Free(st, p, b, stale).st;
    FreeKeeps(st, p, b, stale);
    forall c | c in Blocks(r.cs)
      ensures c.End() <= r.hi
    {
      BlocksWithin(r.cs, r.lo, r.hi, c);
    }
    var i := Find(st.cs, p - HEADER);
    if Merged(st.cs, i).End() == st.hi {
      ContractedPages(st, Merged(st.cs, i), b);
    }
  }

  /** An end that is page-aligned at or above the minimum length: contraction does not move it up. */
  ghost predicate Settled(st: State) {
    Inv(st) && Backed(st) && st.hi % PAGE == 0 && MIN_LENGTH <= st.Length()
  }

  lemma CarveSettled(st: State, k: nat, need: nat, align: bool)
    requires Settled(st) && k < |st.ix| && OVERHEAD <= need < 0x1_0000_0000
    requires !align ==> need <= SizeAt(st.cs, st.ix[k])
    requires Carve(st, k, need, align).Done?
    ensures Settled(Carve(st, k, need, align).st)
  {
    hide Holes, Blocks, Coalesced, Tiles, Find, AlignSafe, Cut, IndexAfterCut, SizeAt;
    CarveKeeps(st, k, need, align);
  }

  lemma GrowSettled(st: State, need: nat)
    requires Settled(st) && GrowSafe(st) && OVERHEAD <= need && Room(st, need, AsCommented)
    ensures Settled(Grow(st, need, AsCommented))
  {
    hide Holes, Blocks, Coalesced, Tiles;
    GrowKeeps(st, need, AsCommented);
    AlignedGrowthBacked(st, need, AsCommented);
    AlignedSum(st.lo, ExpandedLength(AsCommented, st.Length() + need));
  }

  lemma AlignedSum(a: nat, n: nat)
    requires a % PAGE == 0 && n % PAGE == 0
    ensures (a + n) % PAGE == 0
  {
  }

  lemma {:induction false} AllocSettled(st: State, size: nat, align: bool)
    requires Settled(st) && Alloc(st, size, align, AsCommented).Done?
    ensures Settled(Alloc(st, size, align, AsCommented).st)
    decreases if st.max > st.hi then st.max - st.hi else 0
  {
    hide Settled, Carve, Grow, FirstFit, GrowSafe, Room, ExpandedLength, SizeAt;
    var need := size + OVERHEAD;
    SettledInv(st);
    var k := FirstFit(st.cs, st.ix, need, align);
    if k < |st.ix| {
      FirstFits(st, need, align);
      CarveSettled(st, k, need, align);
    } else {
      GrowSettled(st, need);
      RoomBounds(st, need, AsCommented);
      AllocSettled(Grow(st, need, AsCommented), size, align);
    }
  }

  lemma SettledInv(st: State)
    requires Settled(st)
    ensures Inv(st) && st.lo <= st.hi
  {
  }

  lemma FirstFits(st: State, need: Word, align: bool)
    requires Inv(st) && FirstFit(st.cs, st.ix, need, align) < |st.ix|
    ensures !align ==> need <= SizeAt(st.cs, st.ix[FirstFit(st.cs, st.ix, need, align)])
  {
    var k := FirstFit(st.cs, st.ix, need, align);
    IndexedHole(st, k);
    TilesBounds(st.cs, st.lo, st.hi);
    assert st.cs[Find(st.cs, st.ix[k])] in st.cs;
  }

  lemma FreeSettled(st: State, p: nat, stale: bool)
    requires Settled(st) && p != 0 && Free(st, p, AsCommented, stale).Done?
    ensures Settled(Free(st, p, AsCommented, stale).st)
  {
    hide Holes, Blocks, Coalesced, Tiles, Dropped, Before, After, IndexWithoutRight, Reindexed, PagesDown, Find, Backs;
    FreeKeeps(st, p, AsCommented, stale);
    ContractionSafe(st, p, AsCommented, stale);
    var i := Find(st.cs, p - HEADER);
    MergedInside(st, i);
    RoundedBelow(Merged(st.cs, i).pos - st.lo, st.Length());
  }

  lemma MergedInside(st: State, i: nat)
    requires Inv(st) && i < |st.cs| && !st.cs[i].hole
    ensures st.lo <= Merged(st.cs, i).pos < st.hi
  {
    MergedAround(st.cs, i, st.lo, st.hi);
    TilesBounds(Before(st.cs, i), st.lo, Merged(st.cs, i).pos);
    TilesBounds(After(st.cs, i), Merged(st.cs, i).End(), st.hi);
    TilesBounds(st.cs, st.lo, st.hi);
    assert st.cs[i] in st.cs;
  }

  /** Rounding up stays within a whole number of pages. */
  lemma RoundedBelow(off: nat, n: int)
    requires off < n && n % PAGE == 0 && MIN_LENGTH <= n
    ensures MIN_LENGTH <= ContractedLength(AsCommented, off) <= n && ContractedLength(AsCommented, off) % PAGE == 0
  {
    assert MIN_LENGTH % PAGE == 0;
  }

  /**
    With the comments followed, over every run of requests from a backed heap whose end is
    page-aligned and at least the minimum length above its start, all three stay so: every byte of
    the heap has a frame at every moment between requests.
  */
  lemma {:induction false} RunSettled(st: State, qs: seq<Request>, end: State)
    requires Settled(st) && Runs(st, qs, AsCommented, end)
    ensures Settled(end)
    decreases |qs|
  {
    hide Settled, Alloc, Free;
    if qs != [] {
      SettledInv(st);
      var r := Serve(st, qs[0], AsCommented);
      match qs[0] {
        case Get(size, align) => AllocSettled(st, size, align);
        case GiveBack(p, stale) =>
          if p == 0 {
            FreeNothing(st, AsCommented, stale);
          } else {
            FreeSettled(st, p, stale);
          }
      }
      RunSettled(r.st, qs[1..], end);
    }
  }

  lemma {:induction false} BlocksWithin(cs: seq<Chunk>, lo: int, hi: int, c: Chunk)
    requires Tiles(cs, lo, hi) && c in Blocks(cs)
    ensures lo <= c.pos && c.End() <= hi
  {
    TilesBounds(cs, lo, hi);
    if cs[0].hole || c != cs[0] {
      BlocksWithin(cs[1..], cs[0].End(), hi, c);
    }
  }

  lemma ContractedAligned(st: State, h: Chunk, b: Build)
    requires st.lo <= h.pos && ContractSafe(st, h, b)
    ensures ContractedLength(b, h.pos - st.lo) % PAGE == 0
  {
    assert MIN_LENGTH % PAGE == 0;
  }

  /** A page that begins before a page boundary lies below it. */
  lemma BelowBoundary(end: nat, q: nat)
    requires end % PAGE == 0 && end > 0 && q <= (end - 1) / PAGE
    ensures q < end / PAGE
  {
  }

  lemma ContractedPages(st: State, h: Chunk, b: Build)
    requires Inv(st) && st.lo <= h.pos && ContractSafe(st, h, b)
    ensures var n := ContractedLength(b, h.pos - st.lo);
            var left := st.pages - PagesDown(st.lo, st.Length() - PAGE, n);
            && n % PAGE == 0 && MIN_LENGTH <= n
            && (Backed(st) && st.lo + n <= st.hi ==> Backs(left, st.lo, st.lo + n))
            && (Backed(st) && st.lo + n > st.hi ==>
                  (Backs(left, st.lo, st.lo + n) <==> Backs(st.pages, st.hi, st.lo + n)))
  {
    hide Tiles, Coalesced, Holes, ContractedLength, ContractSafe, PagesDown;
    ContractedAligned(st, h, b);
    var n := ContractedLength(b, h.pos - st.lo);
    var gone := PagesDown(st.lo, st.Length() - PAGE, n);
    if Backed(st) && st.lo + n <= st.hi {
      forall q: nat | st.lo / PAGE <= q <= (st.lo + n - 1) / PAGE
        ensures q in st.pages && q !in gone
      {
        BelowBoundary(st.lo + n, q);
        ContractionGives(st.lo, st.hi, n, q);
      }
    } else if Backed(st) {
      NothingDown(st.lo, st.Length() - PAGE, n);
      assert st.pages - gone == st.pages;
      BacksJoin(st.pages, st.lo, st.hi, st.lo + n);
    }
  }

  lemma NothingDown(lo: nat, i: int, n: nat)
    requires i <= n
    ensures PagesDown(lo, i, n) == {}
  {
  }

  lemma BacksJoin(pages: set<nat>, lo: int, mid: int, hi: int)
    requires 0 <= lo <= mid && mid < hi && Backs(pages, lo, mid)
    ensures Backs(pages, lo, hi) <==> Backs(pages, mid, hi)
  {
    if Backs(pages, mid, hi) {
      forall q: nat | lo / PAGE <= q <= (hi - 1) / PAGE
        ensures q in pages
      {
        assert q < mid / PAGE ==> q <= (mid - 1) / PAGE;
      }
    }
  }
}
