/** What holds over whole runs of requests. */
module HeapRuns {
  import opened Chunks
  import opened Kernel
  import opened Memory
  import opened HeapSpec
  import opened HeapSteps

  /** The block that backs the pointer p. */
  ghost function Owner(st: State, p: nat): (b: Chunk) {
    Chunk(if p < HEADER then 0 else p - HEADER, SizeAt(st.cs, p - HEADER), false)
  }

  /**
    alloc keeps the invariant; the block it returns is the only change to the set of live blocks,
    is large enough for the request, lies within the heap, and is page-aligned when asked to be.
  */
  lemma AllocKeeps(st: State, size: nat, align: bool, b: Build)
    requires Inv(st) && Alloc(st, size, align, b).Done?
    ensures var r := Alloc(st, size, align, b);
            && Inv(r.st) && r.st.lo == st.lo && r.st.max == st.max
            && (r.st.hi == st.hi || st.hi < r.st.hi <= st.max)
            && var k := Owner(r.st, r.ptr);
               BlockFor(k, r.ptr, size, align, st.lo, r.st.hi) && Added(Blocks(st.cs), Blocks(r.st.cs), k)
    decreases if st.max > st.hi then st.max - st.hi else 0
  {
    hide Carve, Grow, Blocks, Holes, Coalesced, Added, ExpandedLength;
    var need := size + OVERHEAD;
    var k := FirstFit(st.cs, st.ix, need, align);
    if k < |st.ix| {
      TakeKeeps(st, k, need, align);
    } else {
      GrowKeeps(st, need, b);
      AllocKeeps(Grow(st, need, b), size, align, b);
    }
  }

  /** The same for the step that takes a hole that fits. */
  lemma TakeKeeps(st: State, k: nat, need: nat, align: bool)
    requires Inv(st) && k < |st.ix| && OVERHEAD <= need < 0x1_0000_0000
    requires Fits(st.ix[k], Wrap(SizeAt(st.cs, st.ix[k])), need, align)
    requires Carve(st, k, need, align).Done?
    ensures var r := Carve(st, k, need, align);
            && Inv(r.st) && r.st == st.(cs := r.st.cs, ix := r.st.ix)
            && var b := Owner(r.st, r.ptr);
               BlockFor(b, r.ptr, need - OVERHEAD, align, st.lo, st.hi) && Added(Blocks(st.cs), Blocks(r.st.cs), b)
  {
    hide Blocks, Holes, Coalesced, Added, Cut, IndexAfterCut;
    IndexedHole(st, k);
    TilesBounds(st.cs, st.lo, st.hi);
    CarveKeeps(st, k, need, align);
    var i, r := Find(st.cs, st.ix[k]), Carve(st, k, need, align);
    var b := Cut(st.cs[i], need, align).block;
    AddedMember(st.cs, r.st.cs, b);
    OwnerOf(r.st, b);
  }

  /** A block that was added to the blocks of a list is a chunk of the list. */
  lemma AddedMember(before: seq<Chunk>, after: seq<Chunk>, b: Chunk)
    requires Added(Blocks(before), Blocks(after), b)
    ensures b in after && !b.hole
  {
    var n :| 0 <= n <= |Blocks(before)| && Blocks(after) == Blocks(before)[..n] + [b] + Blocks(before)[n..];
    assert Blocks(after)[n] == b;
    BlocksAreChunks(after, b);
  }

  lemma {:induction false} BlocksAreChunks(cs: seq<Chunk>, b: Chunk)
    requires b in Blocks(cs)
    ensures b in cs && !b.hole
  {
    if b != cs[0] || cs[0].hole {
      BlocksAreChunks(cs[1..], b);
    }
  }

  lemma OwnerOf(st: State, b: Chunk)
    requires Tiles(st.cs, st.lo, st.hi) && b in st.cs && !b.hole
    ensures Owner(st, b.pos + HEADER) == b
  {
    var i :| 0 <= i < |st.cs| && st.cs[i] == b;
    FindAt(st.cs, i, st.lo, st.hi);
  }

  /** A request: for memory, or to free a pointer (see Free for `stale`). */
  datatype Request = Get(size: nat, align: bool) | GiveBack(p: nat, stale: bool)

  function Serve(st: State, q: Request, b: Build): (r: Outcome)
    requires st.lo <= st.hi
  {
    match q
    case Get(size, align) => Alloc(st, size, align, b)
    case GiveBack(p, stale) => Free(st, p, b, stale)
  }

  lemma ServeKeeps(st: State, q: Request, b: Build)
    requires Inv(st) && Serve(st, q, b).Done?
    ensures Inv(Serve(st, q, b).st)
  {
    match q {
      case Get(size, align) =>
        AllocKeeps(st, size, align, b);
      case GiveBack(p, stale) =>
        if p != 0 {
          FreeKeeps(st, p, b, stale);
        }
    }
  }

  /** The state after serving the requests in order, or nothing once a request panics or is Broken. */
  ghost predicate Runs(st: State, qs: seq<Request>, b: Build, end: State)
    requires Inv(st)
    decreases |qs|
  {
    if qs == [] then st == end
    else
      var r := Serve(st, qs[0], b);
      r.Done? && (ServeKeeps(st, qs[0], b); Runs(r.st, qs[1..], b, end))
  }

  /** The pointers clients hold after the requests: those handed out and not given back yet. */
  ghost function Held(st: State, qs: seq<Request>, b: Build, held: multiset<nat>): (ps: multiset<nat>)
    requires Inv(st)
    decreases |qs|
  {
    if qs == [] then held
    else
      var r := Serve(st, qs[0], b);
      if !r.Done? then held
      else
        ServeKeeps(st, qs[0], b);
        Held(r.st, qs[1..], b, if qs[0].Get? then held + multiset{r.ptr} else held - multiset{qs[0].p})
  }

  /** The pointers to the live blocks of the heap. */
  ghost function Pointers(bs: seq<Chunk>): (ps: multiset<nat>) {
    multiset(Addresses(bs))
  }

  ghost function Addresses(bs: seq<Chunk>): (ps: seq<nat>) {
    seq(|bs|, i requires 0 <= i < |bs| => bs[i].pos + HEADER)
  }

  lemma PointersAdded(before: seq<Chunk>, after: seq<Chunk>, b: Chunk)
    requires Added(before, after, b)
    ensures Pointers(after) == Pointers(before) + multiset{b.pos + HEADER}
  {
    var n :| 0 <= n <= |before| && after == before[..n] + [b] + before[n..];
    var x, y := Addresses(before[..n]), Addresses(before[n..]);
    assert Addresses(before) == x + y;
    assert Addresses(after) == x + [b.pos + HEADER] + y;
  }

  lemma NoPointers(bs: seq<Chunk>)
    ensures bs != [] ==> Pointers(bs) != multiset{}
  {
    if bs != [] {
      assert Addresses(bs)[0] in Pointers(bs);
    }
  }

  lemma NoNullPointer(cs: seq<Chunk>, lo: nat, hi: int)
    requires Tiles(cs, lo, hi)
    ensures 0 !in Pointers(Blocks(cs))
  {
    assert 0 !in Addresses(Blocks(cs));
  }

  /**
    Over every run the invariant holds at the end, and the heap's live blocks are exactly the
    pointers handed out and not yet given back: none is lost, none is shared.
  */
  lemma {:induction false} RunKeeps(st: State, qs: seq<Request>, b: Build, end: State, held: multiset<nat>)
    requires Inv(st) && Runs(st, qs, b, end)
    requires held == Pointers(Blocks(st.cs))
    ensures Inv(end) && end.lo == st.lo
    ensures Pointers(Blocks(end.cs)) == Held(st, qs, b, held)
    decreases |qs|
  {
    hide Blocks, Alloc, Free, Pointers, Added, Tiles, Coalesced, Holes;
    if qs != [] {
      var q, r := qs[0], Serve(st, qs[0], b);
      ServeKeeps(st, q, b);
      ServeHeld(st, q, b);
      RunKeeps(r.st, qs[1..], b, end, if q.Get? then held + multiset{r.ptr} else held - multiset{q.p});
    }
  }

  lemma FreeNothing(st: State, b: Build, stale: bool)
    ensures Free(st, 0, b, stale) == Done(0, st)
  {
  }

  lemma ServeHeld(st: State, q: Request, b: Build)
    requires Inv(st) && Serve(st, q, b).Done?
    ensures var r, held := Serve(st, q, b), Pointers(Blocks(st.cs));
            && r.st.lo == st.lo
            && Pointers(Blocks(r.st.cs)) == if q.Get? then held + multiset{r.ptr} else held - multiset{q.p}
  {
    hide Blocks, Alloc, Free, Pointers, Added, Holes, Coalesced, Tiles, Find;
    var r := Serve(st, q, b);
    match q {
      case Get(size, align) =>
        AllocKeeps(st, size, align, b);
        PointersAdded(Blocks(st.cs), Blocks(r.st.cs), Owner(r.st, r.ptr));
      case GiveBack(p, stale) =>
        if p == 0 {
          FreeNothing(st, b, stale);
          NoNullPointer(st.cs, st.lo, st.hi);
        } else {
          FreeKeeps(st, p, b, stale);
          PointersAdded(Blocks(r.st.cs), Blocks(st.cs), st.cs[Find(st.cs, p - HEADER)]);
        }
    }
  }

  lemma CreatedInv(start: nat, end: nat, max: nat, pages: set<nat>)
    requires start % PAGE == 0 && end % PAGE == 0 && start + 4 * INDEX_ENTRIES < end
    requires end + PAGE <= 0x1_0000_0000 && max + PAGE <= 0x1_0000_0000
    requires start + 4 * INDEX_ENTRIES + MIN_LENGTH + PAGE <= 0x1_0000_0000
    ensures var st := Created(start, end, max, pages);
            && Inv(st) && Blocks(st.cs) == []
            && st.cs == [Chunk(start + 0x80000, end - start - 0x80000, true)] && st.ix == [start + 0x80000]
            && st.lo == start + 0x80000 && st.hi == end && st.max == max && st.pages == pages
  {
    var st := Created(start, end, max, pages);
    Single(st.cs[0]);
  }

  /**
    Whatever is allocated and freed, in whatever order: once everything handed out has been given
    back, the heap is one hole that spans it, and the index holds that hole alone.
  */
  lemma EverythingGivenBack(st: State, qs: seq<Request>, b: Build, end: State)
    requires Inv(st) && Blocks(st.cs) == [] && Runs(st, qs, b, end)
    requires Held(st, qs, b, multiset{}) == multiset{}
    ensures Inv(end) && end.cs == [Chunk(end.lo, end.hi - end.lo, true)] && end.ix == [end.lo]
  {
    RunKeeps(st, qs, b, end, multiset{});
    NoPointers(Blocks(end.cs));
    NoBlocks(end.cs, end.lo, end.hi);
    Single(end.cs[0]);
    assert multiset(end.ix) == multiset{end.lo};
    assert |end.ix| == |multiset(end.ix)| == 1;
    assert end.ix[0] in multiset(end.ix);
  }

  /** A block occurs once in the block list of a tiling. */
  lemma {:induction false} BlockOnce(cs: seq<Chunk>, i: nat, j: nat, lo: int, hi: int)
    requires Tiles(cs, lo, hi) && i < j < |Blocks(cs)|
    ensures Blocks(cs)[i] != Blocks(cs)[j]
  {
    var rest := cs[1..];
    if cs[0].hole {
      BlockOnce(rest, i, j, cs[0].End(), hi);
    } else if i > 0 {
      BlockOnce(rest, i - 1, j - 1, cs[0].End(), hi);
    } else {
      assert Blocks(cs)[j] == Blocks(rest)[j - 1];
      BlocksAreChunks(rest, Blocks(rest)[j - 1]);
      TilesBounds(rest, cs[0].End(), hi);
    }
  }

  /** Adding a block and dropping it again restores the block list. */
  lemma AddDrop(a: seq<Chunk>, cs: seq<Chunk>, c: seq<Chunk>, b: Chunk, lo: int, hi: int)
    requires Tiles(cs, lo, hi) && Added(a, Blocks(cs), b) && Dropped(Blocks(cs), c, b)
    ensures a == c
  {
    var s := Blocks(cs);
    var m :| 0 <= m <= |a| && s == a[..m] + [b] + a[m..];
    var n :| 0 <= n <= |c| && s == c[..n] + [b] + c[n..];
    assert s[m] == b && s[n] == b;
    if m < n {
      BlockOnce(cs, m, n, lo, hi);
    } else if n < m {
      BlockOnce(cs, n, m, lo, hi);
    }
    assert a == s[..m] + s[m + 1..] && c == s[..n] + s[n + 1..];
  }

  /**
    Freeing what was just allocated restores the heap's chunks, as long as neither step moved the
    end of the heap.
  */
  lemma AllocThenFree(st: State, size: nat, align: bool, b: Build, stale: bool)
    requires Inv(st) && Alloc(st, size, align, b).Done?
    ensures var r := Alloc(st, size, align, b);
            var f := Free(r.st, r.ptr, b, stale);
            f.Done? && f.st.hi == st.hi ==>
              f.st.cs == st.cs && multiset(f.st.ix) == multiset(st.ix)
  {
    hide Alloc, Free, Blocks, Holes, Coalesced, Added;
    var r := Alloc(st, size, align, b);
    AllocKeeps(st, size, align, b);
    var f := Free(r.st, r.ptr, b, stale);
    if f.Done? && f.st.hi == st.hi {
      FreeKeeps(r.st, r.ptr, b, stale);
      AddedMember(st.cs, r.st.cs, Owner(r.st, r.ptr));
      AddDrop(Blocks(st.cs), r.st.cs, Blocks(f.st.cs), Owner(r.st, r.ptr), r.st.lo, r.st.hi);
      Canonical(st.cs, f.st.cs, st.lo, st.hi);
    }
  }

  /** Live blocks never overlap: the payloads of two of them are disjoint address ranges. */
  lemma PayloadsDisjoint(st: State, a: Chunk, b: Chunk)
    requires Inv(st) && a in st.cs && b in st.cs && a != b
    ensures a.End() <= b.pos || b.End() <= a.pos
  {
    var i :| 0 <= i < |st.cs| && st.cs[i] == a;
    var j :| 0 <= j < |st.cs| && st.cs[j] == b;
    if i < j {
      Increasing(st.cs, i, j, st.lo, st.hi);
    } else {
      Increasing(st.cs, j, i, st.lo, st.hi);
    }
  }

  /** The index never outgrows its 0x20000 entries while the heap is shorter than 0x500014 bytes. */
  lemma IndexCapacity(st: State)
    requires Inv(st)
    ensures 2 * OVERHEAD * |st.ix| <= st.Length() + OVERHEAD
    ensures st.Length() < 0x500014 ==> |st.ix| <= INDEX_ENTRIES
  {
    HoleBound(st.cs, st.lo, st.hi);
    assert |st.ix| == |multiset(st.ix)| == |multiset(Holes(st.cs))| == |Holes(st.cs)|;
  }

  /** A comb of 20-byte chunks: n blocks, a hole in front of each, and a hole of 20 + extra bytes at the end. */
  function Comb(lo: nat, n: nat, extra: nat): (cs: seq<Chunk>)
    ensures cs != []
    decreases n
  {
    if n == 0 then [Chunk(lo, OVERHEAD + extra, true)]
    else [Chunk(lo, OVERHEAD, true)] + ([Chunk(lo + OVERHEAD, OVERHEAD, false)] + Comb(lo + 2 * OVERHEAD, n - 1, extra))
  }

  /** A comb attains the bound on the number of holes. */
  lemma {:induction false} CombHoles(lo: nat, n: nat, extra: nat)
    ensures var cs := Comb(lo, n, extra);
            && Tiles(cs, lo, lo + 2 * OVERHEAD * n + OVERHEAD + extra) && Coalesced(cs)
            && |Holes(cs)| == n + 1
    decreases n
  {
    hide Tiles, Coalesced, Holes;
    if n == 0 {
      Single(Chunk(lo, OVERHEAD + extra, true));
    } else {
      var hi := lo + 2 * OVERHEAD * n + OVERHEAD + extra;
      var rest := Comb(lo + 2 * OVERHEAD, n - 1, extra);
      CombHoles(lo + 2 * OVERHEAD, n - 1, extra);
      var block := Chunk(lo + OVERHEAD, OVERHEAD, false);
      Cons(block, rest, hi);
      Cons(Chunk(lo, OVERHEAD, true), [block] + rest, hi);
    }
  }

  /**
    Among the heaps of a given length there is one with more holes than the index has entries, which
    insert_ordered_array does not look at, if and only if the length is 0x500014 bytes or more.
  */
  lemma IndexOverflows(lo: nat, length: nat)
    requires 4 * INDEX_ENTRIES <= lo && lo % PAGE == 0 && PAGE <= length
    requires lo + MIN_LENGTH + PAGE <= 0x1_0000_0000 && lo + length + PAGE <= 0x1_0000_0000
    ensures (exists st :: Inv(st) && st.lo == lo && st.Length() == length && |st.ix| > INDEX_ENTRIES) <==>
              length >= 0x500014
  {
    hide Tiles, Coalesced, Holes;
    forall st | Inv(st) && st.lo == lo && st.Length() == length && |st.ix| > INDEX_ENTRIES
      ensures length >= 0x500014
    {
      IndexCapacity(st);
    }
    if length >= 0x500014 {
      CombHoles(lo, INDEX_ENTRIES, length - 0x500014);
      var cs := Comb(lo, INDEX_ENTRIES, length - 0x500014);
      var st := State(cs, Holes(cs), lo, lo + length, lo + length, {});
      assert Inv(st) && st.Length() == length;
    }
  }
}
