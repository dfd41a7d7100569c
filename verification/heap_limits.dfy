/** How often alloc grows the heap, which hole it takes, and which pages are backed by frames. */
module HeapLimits {
  import opened Chunks
  import opened Kernel
  import opened Memory
  import opened HeapSpec
  import opened HeapSteps

  // ---------- growth ----------

  /** How many times alloc calls itself after growing the heap. */
  function Growths(st: State, size: nat, align: bool, b: Build): (n: nat)
    requires st.lo <= st.hi
    decreases if st.max > st.hi then st.max - st.hi else 0
  {
    var need := size + OVERHEAD;
    if need >= 0x1_0000_0000 || FirstFit(st.cs, st.ix, need, align) < |st.ix| || !Room(st, need, b)
       || !GrowSafe(st) then 0
    else 1 + Growths(Grow(st, need, b), size, align, b)
  }

  /** No hole of the heap fits exactly when the search runs off the end of the index. */
  lemma NoFit(st: State, need: Word, align: bool)
    requires Inv(st)
    ensures FirstFit(st.cs, st.ix, need, align) == |st.ix| <==>
            forall c :: c in st.cs && c.hole ==> !Fits(c.pos, Wrap(c.size), need, align)
  {
    TilesBounds(st.cs, st.lo, st.hi);
    var k := FirstFit(st.cs, st.ix, need, align);
    if k < |st.ix| {
      IndexedHole(st, k);
      assert st.cs[Find(st.cs, st.ix[k])] in st.cs;
    } else {
      forall c | c in st.cs && c.hole
        ensures !Fits(c.pos, Wrap(c.size), need, align)
      {
        IndexHasHole(st, c);
        var j :| 0 <= j < |st.ix| && st.ix[j] == c.pos;
        var i :| 0 <= i < |st.cs| && st.cs[i] == c;
        FindAt(st.cs, i, st.lo, st.hi);
      }
    }
  }

  /** A request without alignment grows the heap at most once. */
  lemma GrowsOnce(st: State, size: nat, b: Build)
    requires Inv(st)
    ensures Growths(st, size, false, b) <= 1
  {
    hide Blocks, Holes, Coalesced, Grow, FirstFit;
    var need := size + OVERHEAD;
    if Growths(st, size, false, b) > 0 {
      GrowKeeps(st, need, b);
      var r := Grow(st, need, b);
      TilesBounds(r.cs, r.lo, r.hi);
      assert r.cs[|r.cs| - 1] in r.cs;
      NoFit(r, need, false);
    }
  }

  /** The size of the last chunk. */
  function LastSize(st: State): (n: nat) {
    if st.cs == [] then 0 else st.cs[|st.cs| - 1].size
  }

  /** A last hole that the aligned search passes over misses the request by less than a page. */
  lemma PassedOver(st: State, need: nat)
    requires Inv(st) && st.cs != [] && st.cs[|st.cs| - 1].hole
    requires need < 0x8000_0000 && st.hi < st.lo + 0x8000_0000
    requires FirstFit(st.cs, st.ix, need, true) == |st.ix|
    ensures LastSize(st) < need + PAGE
  {
    hide Blocks, Holes, Coalesced, FirstFit;
    TilesBounds(st.cs, st.lo, st.hi);
    assert st.cs[|st.cs| - 1] in st.cs;
    NoFit(st, need, true);
  }

  /** Each growth adds a request to the last hole and at most a page more than that to the heap. */
  lemma GrowthStep(st: State, need: nat, b: Build)
    requires Inv(st) && GrowSafe(st) && OVERHEAD <= need && Room(st, need, b)
    ensures var r := Grow(st, need, b);
            Inv(r) && r.cs != [] && r.cs[|r.cs| - 1].hole && LastSize(r) >= need
                && r.Length() <= st.Length() + need + PAGE
  {
    hide Tiles, Holes, Coalesced, Blocks;
    GrowKeeps(st, need, b);
  }

  /** From a heap that ends in a hole of g requests or more it takes at most k - g + 1 growths to fill the padding. */
  lemma {:induction false} GrowsUntilPadded(st: State, size: nat, b: Build, g: nat, k: nat)
    requires Inv(st) && st.cs != [] && st.cs[|st.cs| - 1].hole && g <= k + 1
    requires var need := size + OVERHEAD;
             && LastSize(st) >= g * need && k * need >= PAGE && need < 0x8000_0000
             && st.Length() + (k + 1 - g) * (need + PAGE) < 0x8000_0000
    ensures Growths(st, size, true, b) <= k + 1 - g
    decreases k + 1 - g
  {
    hide Tiles, Holes, Coalesced, FirstFit, ExpandedLength, Grow, GrowSafe, Room, Refused;
    var need := size + OVERHEAD;
    var n := Growths(st, size, true, b);
    if n > 0 {
      MoreRequests(g, k, need);
      PassedOver(st, need);
      GrowthStep(st, need, b);
      LastGrows(st, need, b);
      GrowsUntilPadded(Grow(st, need, b), size, b, g + 1, k);
    }
  }

  lemma MoreRequests(g: nat, k: nat, need: nat)
    requires k * need >= PAGE && g <= k + 1
    ensures (g + 1) * need == g * need + need
    ensures 1 <= g ==> g * need >= need
    ensures g == k + 1 ==> g * need >= need + PAGE
    ensures g <= k ==> (k + 1 - g) * (need + PAGE) == (k + 1 - (g + 1)) * (need + PAGE) + need + PAGE
    ensures (k + 1 - g) * (need + PAGE) >= 0
  {
  }

  lemma LastGrows(st: State, need: nat, b: Build)
    requires Inv(st) && GrowSafe(st) && st.cs != [] && st.cs[|st.cs| - 1].hole
    ensures LastSize(Grow(st, need, b)) >= LastSize(st) + need
  {
    IndexHasHole(st, st.cs[|st.cs| - 1]);
  }

  /**
    A page-aligned request grows the heap at most k + 1 times, where k requests fill a page: the first
    growth makes a last hole of one request and each further one adds a request, until the padding,
    which is less than a page, fits as well.  The search compares signed sizes, so the heap must stay
    below 2 GB for that long.
  */
  lemma AlignedGrowth(st: State, size: nat, b: Build, k: nat)
    requires Inv(st)
    requires var need := size + OVERHEAD;
             k * need >= PAGE && st.Length() + (k + 1) * (need + PAGE) < 0x8000_0000
    ensures Growths(st, size, true, b) <= k + 1
  {
    hide Blocks, Holes, Tiles, Coalesced, FirstFit, Grow, GrowSafe, Room, Refused;
    var need := size + OVERHEAD;
    MoreRequests(0, k, need);
    if Growths(st, size, true, b) > 0 {
      GrowthStep(st, need, b);
      GrowsUntilPadded(Grow(st, need, b), size, b, 1, k);
    }
  }
}
