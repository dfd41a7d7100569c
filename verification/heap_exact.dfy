/** Exactly when alloc and free keep a heap in shape, and inputs on which the code as written does not. */
module HeapExact {
  import opened Chunks
  import opened Kernel
  import opened Memory
  import opened HeapSpec
  import opened HeapSteps
  import opened HeapLimits

  /**
    As written, free goes wrong exactly when it joins a hole on the right without reaching the end
    of the heap, since line 311 leaves that hole's footer alone, or when the hole that ends the
    heap begins at or beyond its minimum length (less the room for two tags), where contract cuts
    the heap below the hole's own header.
  */
  lemma FreeAsWrittenExactly(st: State, p: nat, stale: bool)
    requires Inv(st) && p != 0
    requires Find(st.cs, p - HEADER) < |st.cs| && !st.cs[Find(st.cs, p - HEADER)].hole
    ensures var i := Find(st.cs, p - HEADER);
            var h, r := Merged(st.cs, i), Free(st, p, AsWritten, stale);
            && (r.Panic? <==> i + 1 == |st.cs| && stale)
            && (!r.Panic? ==>
                  (r.Broken? <==>
                   if h.End() == st.hi then h.pos - st.lo + OVERHEAD > MIN_LENGTH else HoleAt(st.cs, i + 1)))
  {
    hide Coalesced, Holes, Tiles, PagesDown, ContractSafe, ContractedLength, Merged;
    var i := Find(st.cs, p - HEADER);
    BeforeBounds(st, i);
    if i + 1 == |st.cs| {
      LastMerges(st, i);
    }
    ContractSafeWhen(st, Merged(st.cs, i));
  }

  /**
    With the lines doing what their comments say, free goes wrong only when contraction leaves
    1 to 19 bytes of the last hole, too few for its tags.
  */
  lemma FreeAsCommentedExactly(st: State, p: nat, stale: bool)
    requires Inv(st) && p != 0
    requires Find(st.cs, p - HEADER) < |st.cs| && !st.cs[Find(st.cs, p - HEADER)].hole
    ensures var i := Find(st.cs, p - HEADER);
            var h, r := Merged(st.cs, i), Free(st, p, AsCommented, stale);
            && (r.Panic? <==> i + 1 == |st.cs| && stale)
            && (!r.Panic? ==>
                  (r.Broken? <==>
                   && h.End() == st.hi
                   && var off := h.pos - st.lo;
                      if off < MIN_LENGTH then off + OVERHEAD > MIN_LENGTH
                      else off % PAGE > PAGE - OVERHEAD))
  {
    hide Coalesced, Holes, Tiles, PagesDown, ContractSafe, ContractedLength, Merged;
    var i := Find(st.cs, p - HEADER);
    BeforeBounds(st, i);
    if i + 1 == |st.cs| {
      LastMerges(st, i);
    }
    ContractSafeWhen(st, Merged(st.cs, i));
  }

  /**
    The length that contract settles on: as written a length with bit 12 set, like a short one, becomes
    the minimum, and any other is left as it is; as commented the least whole number of pages from the
    minimum on that holds it.
  */
  lemma ContractedExactly(b: Build, n: nat)
    ensures var r := ContractedLength(b, n);
            if b.AsWritten? then r == if n < MIN_LENGTH || n / 0x1000 % 2 == 1 then MIN_LENGTH else n
            else r % PAGE == 0 && MIN_LENGTH <= r && n <= r && (r == MIN_LENGTH || r < n + PAGE)
  {
    assert MIN_LENGTH % PAGE == 0;
  }

  /** What contraction leaves of a hole that begins `off` bytes into the heap. */
  lemma ContractSafeWhen(st: State, h: Chunk)
    requires st.lo <= h.pos
    ensures var off := h.pos - st.lo;
            && (ContractSafe(st, h, AsWritten) <==> off + OVERHEAD <= MIN_LENGTH)
            && (ContractSafe(st, h, AsCommented) <==>
                if off < MIN_LENGTH then off + OVERHEAD <= MIN_LENGTH else off % PAGE <= PAGE - OVERHEAD)
  {
    var off := h.pos - st.lo;
    assert off % PAGE == 0 ==> RoundUp(off) == off;
    if off < MIN_LENGTH {
      assert RoundUp(off) <= MIN_LENGTH;
    }
  }

  lemma LastMerges(st: State, i: nat)
    requires Inv(st) && i + 1 == |st.cs| && !st.cs[i].hole
    ensures Merged(st.cs, i).End() == st.hi
  {
    MergedAround(st.cs, i, st.lo, st.hi);
  }

  lemma BeforeBounds(st: State, i: nat)
    requires Inv(st) && i < |st.cs| && !st.cs[i].hole
    ensures st.lo <= Merged(st.cs, i).pos
  {
    MergedAround(st.cs, i, st.lo, st.hi);
    TilesBounds(Before(st.cs, i), st.lo, Merged(st.cs, i).pos);
  }

  /**
    A request without alignment: it is served from the heap as it is when some hole is large
    enough; else the heap grows once, which needs the last chunk to be a hole or no holes at all
    (src/kheap.c:192-201 enlarges the endmost hole wherever that ends), and room below max_address.
    It panics exactly when no hole is large enough and an ASSERT of expand, on sums of 32 bits, fails.
  */
  lemma AllocExactly(st: State, size: nat, b: Build)
    requires Inv(st) && size + OVERHEAD < 0x1_0000_0000
    ensures var need, r := size + OVERHEAD, Alloc(st, size, false, b);
            var fits := exists c :: c in st.cs && c.hole && c.size >= need;
            && (r.Done? <==> fits || (Room(st, need, b) && GrowSafe(st)))
            && (r.Panic? <==> !fits && Refused(st, need, b))
            && (r.Done? ==> (r.st.hi != st.hi <==> !fits))
  {
    hide Coalesced, Holes, Blocks, Tiles, ExpandedLength, Carve, Grow, FirstFit, BlockFor, Added;
    var need := size + OVERHEAD;
    SizesFit(st);
    NoFit(st, need, false);
    var k := FirstFit(st.cs, st.ix, need, false);
    if k < |st.ix| {
      TakesUnaligned(st, k, need);
    } else if Room(st, need, b) && GrowSafe(st) {
      RoomIsGranted(st, need, b);
      GrowKeeps(st, need, b);
      var r := Grow(st, need, b);
      SizesFit(r);
      var c := r.cs[|r.cs| - 1];
      assert c in r.cs;
      NoFit(r, need, false);
      TakesUnaligned(r, FirstFit(r.cs, r.ix, need, false), need);
      AllocStep(st, size, false, b);
      AllocStep(r, size, false, b);
    }
  }

  /**
    The length that expand settles on: as written an even length is left as it is, an odd one is raised
    to the next page boundary; as commented every length is, unless it is at one.
  */
  lemma ExpandedExactly(b: Build, n: nat)
    ensures var r := ExpandedLength(b, n);
            if b.AsWritten? && n % 2 == 0 then r == n
            else r % PAGE == 0 && n <= r < n + PAGE && (n % 2 == 1 ==> n < r)
  {
  }

  /**
    The end after a request without alignment that no hole fits, when it is served: as written the
    length asked for if that is even, else the least whole number of pages that holds it.
  */
  lemma GrownEnd(st: State, size: nat, b: Build)
    requires Inv(st) && size + OVERHEAD < 0x1_0000_0000
    ensures var asked, r := st.Length() + size + OVERHEAD, Alloc(st, size, false, b);
            r.Done? && r.st.hi != st.hi ==>
              && r.st.lo == st.lo && st.hi < r.st.hi <= st.max
              && if b.AsWritten? && asked % 2 == 0 then r.st.Length() == asked
                 else r.st.Length() % PAGE == 0 && asked <= r.st.Length() < asked + PAGE
  {
    hide Coalesced, Holes, Blocks, Tiles, ExpandedLength, Carve, Grow, FirstFit, Alloc;
    var need := size + OVERHEAD;
    AllocExactly(st, size, b);
    AllocStep(st, size, false, b);
    var k := FirstFit(st.cs, st.ix, need, false);
    if k < |st.ix| {
      TakesUnaligned(st, k, need);
    } else if Room(st, need, b) && GrowSafe(st) {
      RoomIsGranted(st, need, b);
      RoomBounds(st, need, b);
      GrowKeeps(st, need, b);
      var r := Grow(st, need, b);
      assert r.cs[|r.cs| - 1] in r.cs;
      SizesFit(r);
      NoFit(r, need, false);
      AllocStep(r, size, false, b);
      TakesUnaligned(r, FirstFit(r.cs, r.ix, need, false), need);
      ExpandedExactly(b, st.Length() + need);
    }
  }

  /** Room means that no ASSERT fails; without it and without a failed ASSERT the end passes 2^32. */
  lemma RoomIsGranted(st: State, need: Word, b: Build)
    requires Inv(st) && OVERHEAD <= need
    ensures Room(st, need, b) ==> !Refused(st, need, b)
    ensures !Room(st, need, b) && !Refused(st, need, b) ==>
              st.lo + ExpandedLength(b, Wrap(st.Length() + need)) >= 0x1_0000_0000
  {
    hide Tiles, Coalesced, Holes, ExpandedLength;
    if st.Length() + need >= 0x1_0000_0000 {
      assert Wrap(st.Length() + need) == st.Length() + need - 0x1_0000_0000;
    }
  }

  /** An end that wraps past line 113 lies at or below the start of the heap, so nothing tiles the heap any more. */
  lemma WrappedEnd(st: State, need: Word, b: Build, cs: seq<Chunk>)
    requires Inv(st) && OVERHEAD <= need && !Room(st, need, b) && !Refused(st, need, b) && cs != []
    ensures var end := Wrap(st.lo + ExpandedLength(b, Wrap(st.Length() + need)));
            end <= st.lo && !Tiles(cs, st.lo, end)
  {
    hide Tiles, Coalesced, Holes, ExpandedLength, Room, Refused;
    var end := Wrap(st.lo + ExpandedLength(b, Wrap(st.Length() + need)));
    RoomIsGranted(st, need, b);
    ExpandedAtMost(b, Wrap(st.Length() + need));
    if Tiles(cs, st.lo, end) {
      TilesBounds(cs, st.lo, end);
    }
  }

  lemma ExpandedAtMost(b: Build, n: Word)
    ensures ExpandedLength(b, n) <= 0x1_0000_0000
  {
  }

  lemma SizesFit(st: State)
    requires Inv(st)
    ensures forall c :: c in st.cs ==> Wrap(c.size) == c.size
  {
    TilesBounds(st.cs, st.lo, st.hi);
  }

  lemma TakesUnaligned(st: State, k: nat, need: nat)
    requires Inv(st) && k < |st.ix|
    ensures var r := Carve(st, k, need, false); r.Done? && r.st.hi == st.hi && r.st.lo == st.lo
  {
    IndexedHole(st, k);
  }

  /** One step of alloc. */
  lemma AllocStep(st: State, size: nat, align: bool, b: Build)
    requires st.lo <= st.hi && size + OVERHEAD < 0x1_0000_0000
    ensures var need, r := size + OVERHEAD, Alloc(st, size, align, b);
            var k := FirstFit(st.cs, st.ix, need, align);
            && (k < |st.ix| ==> r == Carve(st, k, need, align))
            && (k == |st.ix| && Refused(st, need, b) ==> r == Panic)
            && (k == |st.ix| && !Refused(st, need, b) && !(Room(st, need, b) && GrowSafe(st)) ==> r == Broken)
            && (k == |st.ix| && !Refused(st, need, b) && Room(st, need, b) && GrowSafe(st) ==>
                  r == Alloc(Grow(st, need, b), size, align, b))
  {
    hide Carve, FirstFit, ExpandedLength, Grow, Room, Refused, GrowSafe;
  }

  // ---------- page-aligned requests ----------

  /** Where growing for a page-aligned request ends: at an end at which the last hole fits, or short of that. */
  datatype Reach = Fitting(hi: nat) | NoRoom | Wrapping

  /**
    The ends that the heap passes through while only its last hole, which begins at p, can come to
    fit; p is the end itself as long as there is no hole.
  */
  function Reached(lo: nat, p: nat, hi: nat, max: nat, need: Word, b: Build): (r: Reach)
    requires lo <= hi && p <= hi && OVERHEAD <= need
    ensures r.Fitting? ==> p < r.hi
    decreases if max > hi then max - hi else 0
  {
    if p < hi && Fits(p, Wrap(hi - p), need, true) then Fitting(hi)
    else
      var n := Wrap(hi - lo + need);
      var end := lo + ExpandedLength(b, n);
      if n <= hi - lo || Wrap(end) > max then NoRoom
      else if end > max then Wrapping
      else Reached(lo, p, end, max, need, b)
  }

  /**
    The outcome r of a request that grows the last hole, which begins at p: it is served exactly when
    the heap reaches an end at which that hole is AlignSafe, and ends there; it panics exactly when an
    ASSERT stops the growth first.
  */
  predicate EndsAs(r: Outcome, e: Reach, p: nat, need: Word) {
    && (r.Done? <==> e.Fitting? && p < e.hi && AlignSafe(Chunk(p, e.hi - p, true), need))
    && (r.Panic? <==> e.NoRoom?)
    && (r.Done? ==> r.st.hi == e.hi)
  }

  /** While the last hole does not fit, one step of Reached is one step of alloc. */
  lemma ReachedStep(st: State, p: nat, need: Word, b: Build)
    requires Inv(st) && p <= st.hi && OVERHEAD <= need && !(p < st.hi && Fits(p, Wrap(st.hi - p), need, true))
    ensures var e := Reached(st.lo, p, st.hi, st.max, need, b);
            && (Refused(st, need, b) ==> e.NoRoom?)
            && (!Refused(st, need, b) && !Room(st, need, b) ==> e.Wrapping?)
            && (Room(st, need, b) ==>
                  && !Refused(st, need, b)
                  && st.hi < st.lo + ExpandedLength(b, st.Length() + need)
                  && e == Reached(st.lo, p, st.lo + ExpandedLength(b, st.Length() + need), st.max, need, b))
  {
    hide Inv, ExpandedLength, Fits, Reached;
    MaxInside(st);
    ReachedOnce(st.lo, p, st.hi, st.max, need, b);
    RoomIsGranted(st, need, b);
    if Room(st, need, b) {
      RoomBounds(st, need, b);
    }
  }

  lemma ReachedOnce(lo: nat, p: nat, hi: nat, max: nat, need: Word, b: Build)
    requires lo <= hi && p <= hi && OVERHEAD <= need && !(p < hi && Fits(p, Wrap(hi - p), need, true))
    ensures var n := Wrap(hi - lo + need);
            var end, e := lo + ExpandedLength(b, n), Reached(lo, p, hi, max, need, b);
            if n <= hi - lo || Wrap(end) > max then e.NoRoom?
            else if end > max then e.Wrapping?
            else e == Reached(lo, p, end, max, need, b)
  {
    hide ExpandedLength, Fits;
  }

  lemma MaxInside(st: State)
    requires Inv(st)
    ensures st.lo <= st.hi < 0x1_0000_0000 && st.max < 0x1_0000_0000
  {
    hide Tiles, Coalesced, Holes;
  }

  /** No hole fits but, perhaps, the last chunk, which is a hole. */
  ghost predicate OnlyLast(st: State, need: Word) {
    && st.cs != [] && st.cs[|st.cs| - 1].hole
    && forall j :: 0 <= j < |st.cs| - 1 && st.cs[j].hole ==> !Fits(st.cs[j].pos, Wrap(st.cs[j].size), need, true)
  }

  /** Where the last hole fits, the request takes it, if it is AlignSafe. */
  lemma LastServes(st: State, size: nat, b: Build)
    requires Inv(st) && size + OVERHEAD < 0x1_0000_0000 && OnlyLast(st, size + OVERHEAD)
    ensures var need, c, r := size + OVERHEAD, st.cs[|st.cs| - 1], Alloc(st, size, true, b);
            && c.pos < c.End() == st.hi
            && (FirstFit(st.cs, st.ix, need, true) < |st.ix| <==> Fits(c.pos, Wrap(c.size), need, true))
            && (Fits(c.pos, Wrap(c.size), need, true) ==>
                  !r.Panic? && (r.Done? <==> AlignSafe(c, need)) && (r.Done? ==> r.st.hi == st.hi))
  {
    hide Coalesced, Holes, Blocks, Tiles, ExpandedLength, Grow, GrowSafe, FirstFit, AlignSafe, Find, Fits, Cut,
         IndexAfterCut, Room, Refused, SizeAt;
    var need, c := size + OVERHEAD, st.cs[|st.cs| - 1];
    LastEnds(st);
    NoFit(st, need, true);
    assert c in st.cs;
    var k := FirstFit(st.cs, st.ix, need, true);
    if k < |st.ix| {
      IndexedHole(st, k);
      SizeFound(st, k);
      assert st.cs[Find(st.cs, st.ix[k])] == c;
    }
  }

  lemma LastEnds(st: State)
    requires Inv(st)
    ensures st.cs != [] && st.cs[|st.cs| - 1].pos < st.cs[|st.cs| - 1].End() == st.hi
  {
    TilesBounds(st.cs, st.lo, st.hi);
    Adjacent(st.cs, |st.cs| - 1, st.lo, st.hi);
    assert st.cs[|st.cs| - 1] in st.cs;
  }

  lemma SizeFound(st: State, k: nat)
    requires Inv(st) && k < |st.ix|
    ensures Find(st.cs, st.ix[k]) < |st.cs|
    ensures SizeAt(st.cs, st.ix[k]) == st.cs[Find(st.cs, st.ix[k])].size
  {
    IndexedHole(st, k);
  }

  /** Growing leaves no other hole that fits, and the last chunk a hole: growth cannot fail for want of one again. */
  lemma GrownOnlyLast(st: State, need: Word, b: Build)
    requires Inv(st) && GrowSafe(st) && OVERHEAD <= need && Room(st, need, b)
    requires FirstFit(st.cs, st.ix, need, true) == |st.ix|
    ensures var r := Grow(st, need, b);
            && Inv(r) && OnlyLast(r, need) && GrowSafe(r)
            && r.cs[|r.cs| - 1].pos == if st.ix == [] then st.hi else st.cs[|st.cs| - 1].pos
  {
    hide Coalesced, Holes, Blocks, Tiles, ExpandedLength, FirstFit, Fits;
    GrowKeeps(st, need, b);
    NoFit(st, need, true);
    var r := Grow(st, need, b);
    forall j | 0 <= j < |r.cs| - 1 && r.cs[j].hole
      ensures !Fits(r.cs[j].pos, Wrap(r.cs[j].size), need, true)
    {
      assert r.cs[j] == st.cs[j] && st.cs[j] in st.cs;
    }
  }

  lemma {:induction false} OnlyLastExactly(st: State, size: nat, b: Build)
    requires Inv(st) && size + OVERHEAD < 0x1_0000_0000 && OnlyLast(st, size + OVERHEAD)
    ensures var need, c, r := size + OVERHEAD, st.cs[|st.cs| - 1], Alloc(st, size, true, b);
            c.pos <= st.hi && EndsAs(r, Reached(st.lo, c.pos, st.hi, st.max, need, b), c.pos, need)
    decreases if st.max > st.hi then st.max - st.hi else 0
  {
    hide Coalesced, Holes, Blocks, Tiles, ExpandedLength, Grow, FirstFit, AlignSafe, Carve, Fits, SizeAt, Alloc,
         Reached, Room, Refused;
    var need, c := size + OVERHEAD, st.cs[|st.cs| - 1];
    LastServes(st, size, b);
    assert c == Chunk(c.pos, st.hi - c.pos, true);
    if Fits(c.pos, Wrap(c.size), need, true) {
      ReachedFits(st.lo, c.pos, st.hi, st.max, need, b);
    } else {
      LastIndexed(st);
      AllocStep(st, size, true, b);
      ReachedStep(st, c.pos, need, b);
      if Room(st, need, b) {
        RoomBounds(st, need, b);
        GrownOnlyLast(st, need, b);
        OnlyLastExactly(Grow(st, need, b), size, b);
      }
    }
  }

  lemma ReachedFits(lo: nat, p: nat, hi: nat, max: nat, need: Word, b: Build)
    requires lo <= hi && p < hi && OVERHEAD <= need && Fits(p, Wrap(hi - p), need, true)
    ensures Reached(lo, p, hi, max, need, b) == Fitting(hi)
  {
  }

  /**
    A page-aligned request.  Where some hole fits, it is served exactly when the first such hole is
    AlignSafe.  Where none fits, the last chunk has to be a hole, or there must be no holes; then the
    heap grows until the last hole fits, and the request is served exactly when that hole, from where
    it begins to the new end, is AlignSafe.
  */
  lemma AlignedAllocExactly(st: State, size: nat, b: Build)
    requires Inv(st) && size + OVERHEAD < 0x1_0000_0000
    ensures var need, r := size + OVERHEAD, Alloc(st, size, true, b);
            var k := FirstFit(st.cs, st.ix, need, true);
            && st.cs != []
            && (k == |st.ix| <==> forall c :: c in st.cs && c.hole ==> !Fits(c.pos, Wrap(c.size), need, true))
            && (k < |st.ix| ==>
                  var i := Find(st.cs, st.ix[k]);
                  && i < |st.cs| && st.cs[i].hole && !r.Panic?
                  && (r.Done? <==> AlignSafe(st.cs[i], need)) && (r.Done? ==> r.st.hi == st.hi))
            && (k == |st.ix| && !GrowSafe(st) ==>
                  && !r.Done?
                  && (r.Panic? <==> Refused(st, need, b)))
            && (k == |st.ix| && GrowSafe(st) ==>
                  var p := if st.ix == [] then st.hi else st.cs[|st.cs| - 1].pos;
                  p <= st.hi && EndsAs(r, Reached(st.lo, p, st.hi, st.max, need, b), p, need))
  {
    hide Coalesced, Holes, Blocks, Tiles, ExpandedLength, Grow, FirstFit, AlignSafe, Find, Fits, Carve, SizeAt, Alloc,
         Reached, Room, Refused;
    var need := size + OVERHEAD;
    NoFit(st, need, true);
    LastEnds(st);
    if FirstFit(st.cs, st.ix, need, true) < |st.ix| {
      AlignedTakes(st, size, b);
    } else {
      AllocStep(st, size, true, b);
      if GrowSafe(st) {
        AlignedGrows(st, size, b);
      } else {
        RoomIsGranted(st, need, b);
      }
    }
  }

  lemma AlignedGrows(st: State, size: nat, b: Build)
    requires Inv(st) && size + OVERHEAD < 0x1_0000_0000 && GrowSafe(st)
    requires FirstFit(st.cs, st.ix, size + OVERHEAD, true) == |st.ix|
    requires st.cs != [] && st.cs[|st.cs| - 1].End() == st.hi
    ensures var need, r := size + OVERHEAD, Alloc(st, size, true, b);
            var p := if st.ix == [] then st.hi else st.cs[|st.cs| - 1].pos;
            EndsAs(r, Reached(st.lo, p, st.hi, st.max, need, b), p, need)
  {
    hide Coalesced, Holes, Blocks, Tiles, ExpandedLength, Grow, FirstFit, AlignSafe, Find, Fits, Carve, SizeAt, Alloc,
         Reached, Room, Refused;
    var need := size + OVERHEAD;
    var p := if st.ix == [] then st.hi else st.cs[|st.cs| - 1].pos;
    NoFit(st, need, true);
    AllocStep(st, size, true, b);
    assert st.cs[|st.cs| - 1] in st.cs;
    ReachedStep(st, p, need, b);
    if Room(st, need, b) {
      GrownOnlyLast(st, need, b);
      OnlyLastExactly(Grow(st, need, b), size, b);
    }
  }

  lemma AlignedTakes(st: State, size: nat, b: Build)
    requires Inv(st) && size + OVERHEAD < 0x1_0000_0000
    requires FirstFit(st.cs, st.ix, size + OVERHEAD, true) < |st.ix|
    ensures var need, r := size + OVERHEAD, Alloc(st, size, true, b);
            var i := Find(st.cs, st.ix[FirstFit(st.cs, st.ix, need, true)]);
            && i < |st.cs| && st.cs[i].hole && !r.Panic?
            && (r.Done? <==> AlignSafe(st.cs[i], need)) && (r.Done? ==> r.st.hi == st.hi)
  {
    hide Coalesced, Holes, Tiles, ExpandedLength, Grow, FirstFit, AlignSafe, Find, Cut, IndexAfterCut;
    IndexedHole(st, FirstFit(st.cs, st.ix, size + OVERHEAD, true));
  }

  // ---------- which holes a page-aligned request fits ----------

  /** The padding that the search reserves leads to the next page boundary beyond where the data would begin. */
  lemma OffsetToBoundary(p: nat)
    requires PAGE <= p + HEADER
    ensures 0 < SearchOffset(p) <= PAGE && (p + HEADER + SearchOffset(p)) % PAGE == 0
    ensures SearchOffset(p) == FrontSize(p) <==> p % PAGE < 0xFF4
  {
    if p % PAGE < 0xFF4 {
      assert (p + HEADER) % PAGE == p % PAGE + HEADER;
    } else {
      assert (p + HEADER) % PAGE == p % PAGE + HEADER - PAGE;
      assert p % PAGE > 0xFF4 ==> FrontSize(p) == PAGE - p % PAGE - HEADER + 0x1_0000_0000;
    }
  }

  /** A block of `need` bytes whose data begin at the next page boundary beyond the hole's own data ends in the hole. */
  predicate RoomFor(c: Chunk, need: nat) {
    RoundUp(c.pos + HEADER + 1) - HEADER + need <= c.End()
  }

  /**
    The search for a page-aligned request compares signed sizes.  Below 2 GB a hole fits exactly when
    it has room for the block at the next page boundary, which is where the cut puts it: what is
    reserved is the front hole.  A hole of 2 GB or more fits no smaller request, and to a request of
    2 GB or more every smaller hole seems 2^32 bytes larger than it is.
  */
  lemma AlignedFits(c: Chunk, need: Word)
    requires PAGE <= c.pos && c.size < 0x1_0000_0000
    ensures var fits := Fits(c.pos, Wrap(c.size), need, true);
            && ((c.size < 0x8000_0000 <==> need < 0x8000_0000) ==> (fits <==> RoomFor(c, need)))
            && (need < 0x8000_0000 <= c.size ==> !fits)
            && (c.size < 0x8000_0000 <= need ==> (fits <==> RoomFor(c.(size := c.size + 0x1_0000_0000), need)))
    ensures c.pos % PAGE <= 0xFE0 ==> (RoomFor(c, need) <==> FrontSize(c.pos) + need <= c.size)
  {
    hide RoundUp, SearchOffset, FrontSize;
    OffsetToBoundary(c.pos);
    BoundaryAfter(c.pos + HEADER, SearchOffset(c.pos));
  }

  lemma BoundaryAfter(a: nat, n: nat)
    requires 0 < n <= PAGE && (a + n) % PAGE == 0
    ensures RoundUp(a + 1) == a + n
  {
  }

  /**
    A page-aligned request below 2 GB, when hole k of the index is the first with room for it: it is
    served if and only if that hole is AlignSafe, and then in place, at the hole's next page boundary;
    neither the end nor the pages of the heap change.
  */
  lemma AlignedInPlace(st: State, size: nat, b: Build, k: nat)
    requires Inv(st) && size + OVERHEAD < 0x8000_0000 && k < |st.ix|
    ensures forall j :: 0 <= j <= k ==> Find(st.cs, st.ix[j]) < |st.cs|
    ensures var need, c, r := size + OVERHEAD, st.cs[Find(st.cs, st.ix[k])], Alloc(st, size, true, b);
            (forall j :: 0 <= j < k ==> !Roomy(st.cs[Find(st.cs, st.ix[j])], need)) && Roomy(c, need) ==>
              && (r.Done? <==> AlignSafe(c, need))
              && (r.Done? ==>
                    && r.ptr == RoundUp(c.pos + HEADER) && r.ptr - HEADER == c.pos + FrontSize(c.pos)
                    && r.st.hi == st.hi && r.st.pages == st.pages)
  {
    hide Coalesced, Holes, Tiles, ExpandedLength, Grow, AlignSafe, Find, Fits, RoomFor, SizeAt, Alloc, Carve, FrontSize,
         RoundUp;
    var need, i := size + OVERHEAD, Find(st.cs, st.ix[k]);
    forall j | 0 <= j <= k
      ensures Find(st.cs, st.ix[j]) < |st.cs|
      ensures Fits(st.ix[j], Wrap(SizeAt(st.cs, st.ix[j])), need, true) <==> Roomy(st.cs[Find(st.cs, st.ix[j])], need)
    {
      RoomyFits(st, j, need);
    }
    if (forall j :: 0 <= j < k ==> !Roomy(st.cs[Find(st.cs, st.ix[j])], need)) && Roomy(st.cs[i], need) {
      FirstFitAt(st.cs, st.ix, need, k);
      AllocStep(st, size, true, b);
      AlignedPlace(st, k, need);
    }
  }

  /** A hole below 2 GB with room for the block. */
  predicate Roomy(c: Chunk, need: nat) {
    c.size < 0x8000_0000 && RoomFor(c, need)
  }

  lemma RoomyFits(st: State, j: nat, need: Word)
    requires Inv(st) && j < |st.ix| && need < 0x8000_0000
    ensures var i := Find(st.cs, st.ix[j]);
            && i < |st.cs|
            && (Fits(st.ix[j], Wrap(SizeAt(st.cs, st.ix[j])), need, true) <==> Roomy(st.cs[i], need))
  {
    hide Coalesced, Holes, Tiles, Fits, RoomFor;
    SizeFound(st, j);
    TilesBounds(st.cs, st.lo, st.hi);
    var c := st.cs[Find(st.cs, st.ix[j])];
    assert c in st.cs;
    AlignedFits(c, need);
  }

  /** The first position that fits is the one the search finds. */
  lemma FirstFitAt(cs: seq<Chunk>, ix: seq<nat>, need: Word, k: nat)
    requires k < |ix| && Fits(ix[k], Wrap(SizeAt(cs, ix[k])), need, true)
    requires forall j :: 0 <= j < k ==> !Fits(ix[j], Wrap(SizeAt(cs, ix[j])), need, true)
    ensures FirstFit(cs, ix, need, true) == k
  {
    hide Fits, SizeAt;
    var f := FirstFit(cs, ix, need, true);
    assert f <= k;
  }

  /** Where a safely cut hole puts a page-aligned block. */
  lemma AlignedPlace(st: State, k: nat, need: nat)
    requires Inv(st) && k < |st.ix| && OVERHEAD <= need
    ensures var i, r := Find(st.cs, st.ix[k]), Carve(st, k, need, true);
            && i < |st.cs|
            && var c := st.cs[i];
               && (r.Done? <==> AlignSafe(c, need)) && !r.Panic?
               && (r.Done? ==>
                     && r.ptr == RoundUp(c.pos + HEADER) && r.ptr - HEADER == c.pos + FrontSize(c.pos)
                     && r.st.hi == st.hi && r.st.pages == st.pages)
  {
    hide Coalesced, Holes, Tiles, Find, IndexAfterCut, Replaced;
    IndexedHole(st, k);
    TilesBounds(st.cs, st.lo, st.hi);
    var c := st.cs[Find(st.cs, st.ix[k])];
    assert c in st.cs;
    assert c.pos % PAGE <= 0xFE0 ==> (c.pos + HEADER) % PAGE == c.pos % PAGE + HEADER;
  }

  // ---------- growth for requests that are served ----------

  /** A served request below 2 GB never makes the last hole 2 GB long: a larger one reads as negative and never fits. */
  lemma {:induction false} ServedSmall(st: State, size: nat, b: Build)
    requires Inv(st) && size + OVERHEAD < 0x8000_0000 && OnlyLast(st, size + OVERHEAD)
    requires Alloc(st, size, true, b).Done?
    ensures LastSize(st) < 0x8000_0000
    decreases if st.max > st.hi then st.max - st.hi else 0
  {
    hide Coalesced, Holes, Blocks, Tiles, ExpandedLength, Grow, FirstFit, AlignSafe, Carve, SizeAt, GrowSafe, Room,
         Refused;
    var need := size + OVERHEAD;
    LastServes(st, size, b);
    LastBounds(st);
    if !Fits(st.cs[|st.cs| - 1].pos, Wrap(LastSize(st)), need, true) {
      GrownOnlyLast(st, need, b);
      LastIndexed(st);
      LastGrows(st, need, b);
      RoomBounds(st, need, b);
      ServedSmall(Grow(st, need, b), size, b);
    }
  }

  lemma LastBounds(st: State)
    requires Inv(st)
    ensures st.cs != [] && OVERHEAD <= LastSize(st) <= st.Length() < 0x1_0000_0000
  {
    TilesBounds(st.cs, st.lo, st.hi);
    assert st.cs[|st.cs| - 1] in st.cs;
  }

  lemma LastIndexed(st: State)
    requires Inv(st) && st.cs != [] && st.cs[|st.cs| - 1].hole
    ensures GrowSafe(st) && st.ix != []
  {
    IndexHasHole(st, st.cs[|st.cs| - 1]);
  }

  /** From a last hole of g >= 1 requests a served request takes at most k + 1 - g more growths. */
  lemma {:induction false} ServedGrowths(st: State, size: nat, b: Build, g: nat, k: nat)
    requires Inv(st) && size + OVERHEAD < 0x1_0000_0000 && OnlyLast(st, size + OVERHEAD)
    requires Alloc(st, size, true, b).Done?
    requires 1 <= g <= k + 1 && k * (size + OVERHEAD) >= PAGE && LastSize(st) >= g * (size + OVERHEAD)
    ensures Growths(st, size, true, b) <= k + 1 - g
    decreases k + 1 - g
  {
    hide Coalesced, Holes, Blocks, Tiles, ExpandedLength, Grow, FirstFit, AlignSafe, Carve, SizeAt, GrowSafe, Room,
         Refused;
    var need := size + OVERHEAD;
    LastServes(st, size, b);
    LastBounds(st);
    if !Fits(st.cs[|st.cs| - 1].pos, Wrap(LastSize(st)), need, true) && Growths(st, size, true, b) > 0 {
      MoreRequests(g, k, need);
      ServedMisses(st, size, b);
      GrownOnlyLast(st, need, b);
      LastIndexed(st);
      LastGrows(st, need, b);
      ServedGrowths(Grow(st, need, b), size, b, g + 1, k);
    }
  }

  /** A last hole of a request or more that does not fit misses the request by less than a page. */
  lemma ServedMisses(st: State, size: nat, b: Build)
    requires Inv(st) && size + OVERHEAD < 0x1_0000_0000 && OnlyLast(st, size + OVERHEAD)
    requires Alloc(st, size, true, b).Done? && LastSize(st) >= size + OVERHEAD
    requires !Fits(st.cs[|st.cs| - 1].pos, Wrap(LastSize(st)), size + OVERHEAD, true)
    ensures LastSize(st) < size + OVERHEAD + PAGE
  {
    hide Coalesced, Holes, Blocks, Tiles, Alloc;
    var need := size + OVERHEAD;
    LastBounds(st);
    if need < 0x8000_0000 {
      ServedSmall(st, size, b);
    }
  }

  /**
    On every heap, for every size and either build: a page-aligned request that is served grows the
    heap at most k + 1 times, where k requests fill a page.
  */
  lemma ServedGrowth(st: State, size: nat, b: Build, k: nat)
    requires Inv(st)
    ensures Alloc(st, size, true, b).Done? && k * (size + OVERHEAD) >= PAGE ==> Growths(st, size, true, b) <= k + 1
  {
    hide Coalesced, Holes, Blocks, Tiles, ExpandedLength, Grow, FirstFit, AlignSafe, Carve, SizeAt, GrowSafe, Room,
         Refused;
    var need := size + OVERHEAD;
    if Alloc(st, size, true, b).Done? && k * need >= PAGE && Growths(st, size, true, b) > 0 {
      GrownOnlyLast(st, need, b);
      GrowthStep(st, need, b);
      ServedGrowths(Grow(st, need, b), size, b, 1, k);
    }
  }

  /** Every growth of a served request moves the end by the size of the request with its tags, or more. */
  lemma {:induction false} GrowthsMoveEnd(st: State, size: nat, align: bool, b: Build)
    requires Inv(st)
    ensures var r, n := Alloc(st, size, align, b), Growths(st, size, align, b);
            r.Done? ==> (n == 0 <==> r.st.hi == st.hi) && r.st.hi >= st.hi + n * (size + OVERHEAD)
    decreases if st.max > st.hi then st.max - st.hi else 0
  {
    hide Coalesced, Holes, Blocks, Tiles, ExpandedLength, Grow, FirstFit, Carve, GrowSafe, Room, Refused;
    var need := size + OVERHEAD;
    if need < 0x1_0000_0000 && Alloc(st, size, align, b).Done? {
      AllocStep(st, size, align, b);
      var k := FirstFit(st.cs, st.ix, need, align);
      if k < |st.ix| {
        CarveEnd(st, k, need, align);
      } else {
        RoomBounds(st, need, b);
        GrowKeeps(st, need, b);
        GrowthsMoveEnd(Grow(st, need, b), size, align, b);
        var n := Growths(Grow(st, need, b), size, align, b);
        assert (n + 1) * need == n * need + need;
      }
    }
  }

  lemma CarveEnd(st: State, k: nat, need: nat, align: bool)
    requires k < |st.ix|
    ensures Carve(st, k, need, align).Done? ==> Carve(st, k, need, align).st.hi == st.hi
  {
  }

  // ---------- requests whose size with the tags wraps ----------

  /**
    From 2^32 - 20 bytes on the size with the tags wraps below 20.  Whatever hole is found, the pieces
    that are cut from it do not tile it, or the block is the whole hole and holds fewer than 20 bytes.
  */
  lemma HugeRequest(c: Chunk, size: Word, align: bool)
    requires size + OVERHEAD >= 0x1_0000_0000
    requires PAGE <= c.pos && c.End() < 0x1_0000_0000 && OVERHEAD <= c.size
    ensures var need := Wrap(size + OVERHEAD);
            var r := Cut(c, need, align);
            && need < OVERHEAD
            && (Tiles(r.All(), c.pos, c.End()) <==> !align && c.size < need + OVERHEAD)
            && (Tiles(r.All(), c.pos, c.End()) ==> r.block.size == c.size && r.block.size - OVERHEAD < OVERHEAD)
  {
    hide Tiles;
    var need := Wrap(size + OVERHEAD);
    var r := Cut(c, need, align);
    assert need == size + OVERHEAD - 0x1_0000_0000;
    if align {
      assert r.front == [r.front[0]];
      TilesTwo(r.front[0], r.block, r.tail, c.pos, c.End());
    } else {
      assert r.All() == [r.block] + r.tail;
      TilesOne(r.block, r.tail, c.pos, c.End());
    }
  }

  // ---------- inputs on which the code as written fails ----------

  /** A heap of three chunks. */
  function ThreeChunks(a: nat, h: nat, z: nat, hole: bool): (st: State) {
    var lo := 0x80000;
    State([Chunk(lo, a, false), Chunk(lo + a, h, hole), Chunk(lo + a + h, z, false)],
          if hole then [lo + a] else [], lo, lo + a + h + z, 0x200000, {})
  }

  lemma ThreeChunksInv(a: nat, h: nat, z: nat, hole: bool)
    requires OVERHEAD <= a && OVERHEAD <= h && OVERHEAD <= z && PAGE <= a + h + z <= 0x100000
    ensures var st := ThreeChunks(a, h, z, hole);
            && Inv(st) && (forall i :: 0 <= i < 3 ==> Find(st.cs, st.cs[i].pos) == i)
  {
    hide Tiles, Holes, Coalesced, Find;
    var st := ThreeChunks(a, h, z, hole);
    var x, y, w := st.cs[0], st.cs[1], st.cs[2];
    Single(w);
    Cons(y, [w], st.hi);
    Cons(x, [y] + [w], st.hi);
    assert st.cs == [x] + ([y] + [w]);
    forall i | 0 <= i < 3
      ensures Find(st.cs, st.cs[i].pos) == i
    {
      FindAt(st.cs, i, st.lo, st.hi);
    }
  }

  /**
    Freeing a block of 32 bytes in front of a hole of 4000 with a block behind it: as written the
    footer keeps naming the old header, with the comment followed the heap stays in shape.
  */
  lemma RightJoinLosesFooter() returns (st: State, p: nat)
    ensures Inv(st) && p != 0
    ensures Free(st, p, AsWritten, false) == Broken && Free(st, p, AsCommented, false).Done?
  {
    hide Tiles, Holes, Coalesced, Find, Free, Merged;
    st := ThreeChunks(32, 4000, 64, true);
    ThreeChunksInv(32, 4000, 64, true);
    p := st.cs[0].pos + HEADER;
    MergedEnds(st);
    FreeAsWrittenExactly(st, p, false);
    FreeAsCommentedExactly(st, p, false);
  }

  lemma MergedEnds(st: State)
    requires |st.cs| == 3 && !st.cs[0].hole && !st.cs[2].hole
    ensures Merged(st.cs, 0).End() == st.cs[0].pos + st.cs[0].size + if st.cs[1].hole then st.cs[1].size else 0
    ensures Merged(st.cs, 2).pos == if st.cs[1].hole then st.cs[1].pos else st.cs[2].pos
    ensures Merged(st.cs, 2).End() == Merged(st.cs, 2).pos + st.cs[2].size + if st.cs[1].hole then st.cs[1].size else 0
  {
  }

  /**
    Freeing the last block, which begins 0x71000 bytes into the heap: as written contract cuts the
    heap to 0x70000 bytes, below the block itself.  The comment's rounding keeps 0x71000 bytes.
  */
  lemma ContractionCutsTooFar() returns (st: State, p: nat)
    ensures Inv(st) && p != 0
    ensures Free(st, p, AsWritten, false) == Broken && Free(st, p, AsCommented, false).Done?
  {
    hide Tiles, Holes, Coalesced, Find, Free, Merged;
    st := ThreeChunks(0x40000, 0x31000, 0x1000, false);
    ThreeChunksInv(0x40000, 0x31000, 0x1000, false);
    p := st.cs[2].pos + HEADER;
    MergedEnds(st);
    FreeAsWrittenExactly(st, p, false);
    FreeAsCommentedExactly(st, p, false);
  }

  /**
    A page-aligned request of 100 bytes and a hole of 0x3000 whose data would be aligned where it
    stands: the search finds that it fits, and the pieces that are cut, a front hole of size 0 among
    them, do not tile it.
  */
  lemma AlignedCutOverlaps() returns (st: State, size: nat)
    ensures Inv(st) && forall b :: Alloc(st, size, true, b) == Broken
    ensures exists c :: c in st.cs && c.hole && Fits(c.pos, Wrap(c.size), Wrap(size + OVERHEAD), true)
                        && !Tiles(Cut(c, size + OVERHEAD, true).All(), c.pos, c.End())
  {
    hide Tiles, Holes, Coalesced, Find, Alloc, FirstFit;
    st, size := ThreeChunks(0xFF4, 0x3000, 0x100, true), 100;
    ThreeChunksInv(0xFF4, 0x3000, 0x100, true);
    var c := st.cs[1];
    assert c in st.cs && c.pos == 0x80FF4;
    CutTiles(c, size + OVERHEAD, true);
    NoFit(st, size + OVERHEAD, true);
    forall b
      ensures Alloc(st, size, true, b) == Broken
    {
      AlignedAllocExactly(st, size, b);
    }
  }

  /**
    A hole of 100 bytes with a block behind it and a request of 200: the code gives the new space to
    that hole, which does not end where the space begins.
  */
  lemma GrowthMissesTheEnd() returns (st: State, size: nat)
    ensures Inv(st) && forall b :: Alloc(st, size, false, b) == Broken
  {
    hide Tiles, Holes, Coalesced, Find, Alloc, ExpandedLength;
    st, size := ThreeChunks(32, 100, 3964, true), 200;
    ThreeChunksInv(32, 100, 3964, true);
    forall b
      ensures Alloc(st, size, false, b) == Broken
    {
      AllocExactly(st, size, b);
      assert ExpandedLength(b, st.Length() + 220) <= 0x2000 by {
        ExpandedSmall(b);
      }
    }
  }

  lemma ExpandedSmall(b: Build)
    ensures ExpandedLength(b, 0x1000 + 220) <= 0x2000
  {
  }

  /**
    Freeing the last block, which begins 10 bytes before a page boundary beyond the minimum length:
    with the comments followed, contraction leaves those 10 bytes, too few for the tags of a hole.
  */
  lemma RemainderTooSmall() returns (st: State, p: nat)
    ensures Inv(st) && p != 0 && Free(st, p, AsCommented, false) == Broken
  {
    hide Tiles, Holes, Coalesced, Find, Free, Merged;
    st := ThreeChunks(0x40000, 0x30FF6, 0x100A, false);
    ThreeChunksInv(0x40000, 0x30FF6, 0x100A, false);
    p := st.cs[2].pos + HEADER;
    MergedEnds(st);
    FreeAsCommentedExactly(st, p, false);
  }
}
