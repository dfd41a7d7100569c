/** What free's writes do to a memory that describes a heap shape. */
module HeapFree {
  import opened Chunks
  import opened Kernel
  import opened Memory
  import opened OrderedArrays
  import opened HeapSpec
  import opened HeapSteps
  import opened HeapRuns
  import opened HeapTags
  import opened HeapImage
  import opened HeapOrder

  function ChunkIf(cs: seq<Chunk>, i: int): (c: seq<Chunk>)
    ensures |c| <= 1
  {
    if HoleAt(cs, i) then [cs[i]] else []
  }

  /** The bytes at a look like the header of a hole. */
  predicate HoleTagAt(m: seq<Byte>, a: nat)
    requires a + 5 <= |m|
  {
    Peek(m, a) == MAGIC && m[a + 4] != 0
  }

  /** The bytes just below a are the footer of a hole. */
  predicate HoleFooterBelow(m: seq<Byte>, a: nat)
    requires FOOTER <= a <= |m|
  {
    Peek(m, a - FOOTER) == MAGIC && Peek(m, a - 4) + 4 < |m| && m[Peek(m, a - 4) + 4] == 1
  }

  /** p is a pointer that alloc handed out and that has not been freed. */
  ghost predicate Live(st: State, p: nat) {
    var i := Find(st.cs, p - HEADER);
    HEADER <= p && i < |st.cs| && !st.cs[i].hole
  }

  /** What free finds around the block that it frees. */
  lemma Surroundings(st: State, m: seq<Byte>, p: nat) returns (i: nat, c: Chunk)
    requires Describes(st, m) && Live(st, p)
    ensures i == Find(st.cs, p - HEADER) < |st.cs| && c == st.cs[i] && c.pos == p - HEADER
    ensures st.lo <= c.pos && c.End() <= st.hi && OVERHEAD <= c.size && !c.hole
    ensures HeaderIs(m, c.pos, false, c.size) && FooterIs(m, c.End() - FOOTER, c.pos)
    ensures HoleFooterBelow(m, c.pos) <==> HoleAt(st.cs, i as int - 1)
    ensures Peek(m, c.pos - FOOTER) == MAGIC ==> Peek(m, c.pos - 4) < c.pos
    ensures HoleAt(st.cs, i as int - 1) ==>
              var l := st.cs[i - 1];
              st.lo <= l.pos && l.End() == c.pos && HeaderIs(m, l.pos, true, l.size)
                  && FooterIs(m, l.End() - FOOTER, l.pos) && OVERHEAD <= l.size
    ensures i + 1 < |st.cs| ==>
              var r := st.cs[i + 1];
              && r.pos == c.End() && HeaderIs(m, r.pos, r.hole, r.size) && OVERHEAD <= r.size && r.End() <= st.hi
              && (r.End() < st.hi ==> FooterIs(m, r.End() - FOOTER, r.pos))
    ensures i + 1 == |st.cs| <==> c.End() == st.hi
    ensures (HoleTagAt(m, c.End()) && i + 1 < |st.cs|) <==> HoleAt(st.cs, i + 1)
  {
    hide Peek, Coalesced, Holes;
    i := Find(st.cs, p - HEADER);
    c := st.cs[i];
    ChunkFacts(st, m, i);
    if i > 0 {
      ChunkFacts(st, m, i - 1);
    }
    if i + 1 < |st.cs| {
      ChunkFacts(st, m, i + 1);
    }
  }

  lemma ChunkFacts(st: State, m: seq<Byte>, i: nat)
    requires Describes(st, m) && i < |st.cs|
    ensures var c := st.cs[i];
            && st.lo <= c.pos && c.End() <= st.hi && OVERHEAD <= c.size && st.hi + PAGE <= |m|
            && c.End() == Edge(st.cs, i + 1, st.hi) && (i == 0 ==> c.pos == st.lo)
            && (i + 1 < |st.cs| ==> c.End() < st.hi)
            && HeaderIs(m, c.pos, c.hole, c.size)
            && ((c.hole && c.End() == st.hi) || FooterIs(m, c.End() - FOOTER, c.pos))
  {
    TilesBounds(st.cs, st.lo, st.hi);
    assert st.cs[i] in st.cs;
    Adjacent(st.cs, i, st.lo, st.hi);
    if i + 1 < |st.cs| {
      assert st.cs[i + 1] in st.cs;
    }
  }

  // ---------- joining the neighbours ----------

  /** The block c turned into a hole, together with the hole on its left if there is one. */
  function LeftJoined(c: Chunk, left: seq<Chunk>): (h: Chunk) {
    if left == [] then Chunk(c.pos, c.size, true) else Chunk(left[0].pos, left[0].size + c.size, true)
  }

  function RightJoined(h: Chunk, right: seq<Chunk>): (r: Chunk) {
    if right == [] then h else Chunk(h.pos, h.size + right[0].size, true)
  }

  /** The memory after lines 285-301. */
  function LeftMemory(m: seq<Byte>, c: Chunk, left: seq<Chunk>): (r: seq<Byte>)
    requires OVERHEAD <= c.size && c.End() <= |m| && c.End() < 0x1_0000_0000
    requires left != [] ==> left[0].End() == c.pos && OVERHEAD <= left[0].size
    ensures |r| == |m|
  {
    var m1 := m[c.pos + 4 := 1];
    if left == [] then m1
    else Poke(Poke(m1, c.End() - 4, left[0].pos), left[0].pos + 8, left[0].size + c.size)
  }

  /** The memory after lines 304-313; the footer is redirected only where the comment is followed. */
  function RightMemory(m: seq<Byte>, h: Chunk, right: seq<Chunk>, b: Build): (r: seq<Byte>)
    requires OVERHEAD <= h.size && h.End() <= |m| && h.End() < 0x1_0000_0000
    requires right != [] ==>
               && right[0].pos == h.End() && OVERHEAD <= right[0].size && right[0].End() <= |m|
               && right[0].End() < 0x1_0000_0000
    ensures |r| == |m|
  {
    if right == [] then m
    else
      var m1 := Poke(m, h.pos + 8, h.size + right[0].size);
      if b.AsWritten? then m1 else Poke(m1, right[0].End() - 4, h.pos)
  }

  lemma LeftTags(m: seq<Byte>, c: Chunk, left: seq<Chunk>)
    requires OVERHEAD <= c.size && c.End() <= |m| && c.End() < 0x1_0000_0000
    requires left != [] ==>
               && left[0].End() == c.pos && OVERHEAD <= left[0].size
               && HeaderIs(m, left[0].pos, true, left[0].size)
    requires HeaderIs(m, c.pos, false, c.size) && FooterIs(m, c.End() - FOOTER, c.pos)
    ensures var w, h := LeftMemory(m, c, left), LeftJoined(c, left);
            HeaderIs(w, h.pos, true, h.size) && FooterIs(w, h.End() - FOOTER, h.pos)
                && SameOutside(m, w, h.pos, h.End())
  {
    hide Poke, Peek;
    var m1 := m[c.pos + 4 := 1];
    PeekSame(m, m1, c.pos);
    PeekSame(m, m1, c.pos + 8);
    FooterFrame(m, m1, c.End() - FOOTER, c.pos);
    if left != [] {
      var l := left[0];
      var m2 := Poke(m1, c.End() - 4, l.pos);
      var m3 := Poke(m2, l.pos + 8, l.size + c.size);
      Poked(m1, c.End() - 4, l.pos);
      Poked(m2, l.pos + 8, l.size + c.size);
      HeaderFrame(m, m2, l.pos, true, l.size);
      HeaderResized(m2, l.pos, true, l.size, l.size + c.size);
      PeekSame(m1, m3, c.End() - FOOTER);
      PeekSame(m2, m3, c.End() - 4);
    }
  }

  /** A footer that names the header h, if the footer was there before (a last hole may lack it). */
  ghost predicate FooterMoved(m: seq<Byte>, w: seq<Byte>, r: Chunk, h: nat) {
    FooterIs(m, r.End() - FOOTER, r.pos) ==> FooterIs(w, r.End() - FOOTER, h)
  }

  lemma RightTags(m: seq<Byte>, h: Chunk, right: seq<Chunk>, b: Build)
    requires OVERHEAD <= h.size && h.End() <= |m| && h.End() < 0x1_0000_0000
    requires right != [] ==>
               && right[0].pos == h.End() && OVERHEAD <= right[0].size && right[0].End() <= |m|
               && right[0].End() < 0x1_0000_0000
    requires HeaderIs(m, h.pos, true, h.size)
    ensures var w, j := RightMemory(m, h, right, b), RightJoined(h, right);
            && HeaderIs(w, j.pos, true, j.size) && SameOutside(m, w, j.pos, j.End())
            && (right == [] ==> w == m)
            && (right != [] && b.AsWritten? ==> FooterMoved(m, w, right[0], right[0].pos))
            && (right != [] && b.AsCommented? ==> FooterMoved(m, w, right[0], h.pos))
  {
    hide Poke, Peek;
    if right != [] {
      var r := right[0];
      var m1 := Poke(m, h.pos + 8, h.size + r.size);
      HeaderResized(m, h.pos, true, h.size, h.size + r.size);
      if FooterIs(m, r.End() - FOOTER, r.pos) {
        FooterFrame(m, m1, r.End() - FOOTER, r.pos);
      }
      if b.AsCommented? {
        var m2 := Poke(m1, r.End() - 4, h.pos);
        Poked(m1, r.End() - 4, h.pos);
        HeaderFrame(m1, m2, h.pos, true, h.size + r.size);
        if FooterIs(m, r.End() - FOOTER, r.pos) {
          PeekSame(m1, m2, r.End() - FOOTER);
        }
      }
    }
  }

  /** A block with its hole neighbours, lying in memory one after the other. */
  ghost predicate InARow(n: int, c: Chunk, left: seq<Chunk>, right: seq<Chunk>) {
    && OVERHEAD <= c.size && c.End() <= n && c.End() < 0x1_0000_0000
    && (left != [] ==> left[0].End() == c.pos && OVERHEAD <= left[0].size)
    && (right != [] ==>
          && right[0].pos == c.End() && OVERHEAD <= right[0].size && right[0].End() <= n
          && right[0].End() < 0x1_0000_0000)
  }

  /** The memory after lines 285-313: all that is written before the heap is contracted. */
  function JoinedMemory(m: seq<Byte>, c: Chunk, left: seq<Chunk>, right: seq<Chunk>, b: Build): (r: seq<Byte>)
    requires InARow(|m|, c, left, right)
    ensures |r| == |m|
  {
    RightMemory(LeftMemory(m, c, left), LeftJoined(c, left), right, b)
  }

  lemma MergedIs(cs: seq<Chunk>, i: nat)
    requires i < |cs|
    ensures Merged(cs, i) == RightJoined(LeftJoined(cs[i], ChunkIf(cs, i - 1)), ChunkIf(cs, i + 1))
  {
  }

  /** The tags once the neighbours have been joined. */
  lemma JoinedTags(st: State, m: seq<Byte>, p: nat, b: Build)
    returns (i: nat, c: Chunk, left: seq<Chunk>, right: seq<Chunk>)
    requires Describes(st, m) && Live(st, p)
    ensures i == Find(st.cs, p - HEADER) < |st.cs| && c == st.cs[i]
    ensures left == ChunkIf(st.cs, i as int - 1) && right == ChunkIf(st.cs, i + 1) && InARow(|m|, c, left, right)
    ensures var w, h := JoinedMemory(m, c, left, right, b), Merged(st.cs, i);
            && st.lo <= h.pos && OVERHEAD <= h.size && h.End() <= st.hi && (i + 1 == |st.cs| ==> h.End() == st.hi)
            && HeaderIs(w, h.pos, true, h.size) && SameOutside(m, w, h.pos, h.End())
            && (h.End() != st.hi ==>
                  FooterIs(w, h.End() - FOOTER, if right != [] && b.AsWritten? then right[0].pos else h.pos))
  {
    hide Describes, Live, Find, HeaderIs, Peek, SameOutside, LeftMemory, RightMemory, Merged;
    i, c := Surroundings(st, m, p);
    left, right := ChunkIf(st.cs, i as int - 1), ChunkIf(st.cs, i + 1);
    DescribedBounds(st, m);
    MergedIs(st.cs, i);
    var m1, h1 := LeftMemory(m, c, left), LeftJoined(c, left);
    var w := RightMemory(m1, h1, right, b);
    LeftTags(m, c, left);
    RightTags(m1, h1, right, b);
    JoinWrites(m, m1, w, h1, RightJoined(h1, right));
    if right != [] && right[0].End() != st.hi {
      var r := right[0];
      FooterKept(m, m1, r.End() - FOOTER, r.pos, h1.pos, h1.End());
    }
  }

  lemma JoinWrites(m: seq<Byte>, r: seq<Byte>, w: seq<Byte>, h: Chunk, j: Chunk)
    requires SameOutside(m, r, h.pos, h.End()) && SameOutside(r, w, j.pos, j.End()) && h.pos == j.pos
             && h.End() <= j.End()
    ensures SameOutside(m, w, j.pos, j.End())
  {
  }

  lemma FooterKept(m: seq<Byte>, r: seq<Byte>, a: int, h: nat, p: int, q: int)
    requires FooterIs(m, a, h) && SameOutside(m, r, p, q) && (a + FOOTER <= p || q <= a)
    ensures FooterIs(r, a, h)
  {
    FooterFrame(m, r, a, h);
  }

  /** The chunks on either side of the merged hole keep their tags, and live blocks every byte. */
  lemma SidesKept(st: State, m: seq<Byte>, w: seq<Byte>, i: nat)
    requires Describes(st, m) && i < |st.cs| && !st.cs[i].hole
    requires var h := Merged(st.cs, i); SameOutside(m, w, h.pos, h.End())
    ensures Tagged(w, Before(st.cs, i), st.hi) && Tagged(w, After(st.cs, i), st.hi)
    ensures Peek(w, st.lo - FOOTER) != MAGIC
    ensures forall x :: x in st.cs && !x.hole && x != st.cs[i] ==> SameWithin(m, w, x.pos, x.End())
  {
    hide Peek, Tiles, Coalesced, Holes, Tagged;
    var a, h, z := Before(st.cs, i), Merged(st.cs, i), After(st.cs, i);
    MergedAround(st.cs, i, st.lo, st.hi);
    TilesBounds(a, st.lo, h.pos);
    TilesBounds(z, h.End(), st.hi);
    assert Tagged(m, a, st.hi) && Tagged(m, z, st.hi) by {
      SidesTagged(m, st.cs, i, st.hi);
    }
    TaggedFrame(m, w, a, st.lo, h.pos, h.pos, h.End(), st.hi);
    TaggedFrame(m, w, z, h.End(), st.hi, h.pos, h.End(), st.hi);
    PeekSame(m, w, st.lo - FOOTER);
    forall x | x in st.cs && !x.hole && x != st.cs[i]
      ensures SameWithin(m, w, x.pos, x.End())
    {
      BesidesMerged(st.cs, i, x);
    }
  }

  lemma SidesTagged(m: seq<Byte>, cs: seq<Chunk>, i: nat, end: int)
    requires Tagged(m, cs, end) && i < |cs|
    ensures Tagged(m, Before(cs, i), end) && Tagged(m, After(cs, i), end)
  {
  }

  lemma BesidesMerged(cs: seq<Chunk>, i: nat, x: Chunk)
    requires i < |cs| && x in cs && !x.hole && x != cs[i]
    ensures x in Before(cs, i) || x in After(cs, i)
  {
    var j :| 0 <= j < |cs| && cs[j] == x;
    var l := if HoleAt(cs, i - 1) then i - 1 else i;
    var r := if HoleAt(cs, i + 1) then i + 2 else i + 1;
    if j < l {
      assert x == cs[..l][j];
    } else {
      assert x == cs[r..][j - r];
    }
  }

  // ---------- the outcomes ----------

  /** Freeing a block whose merged hole does not end the heap. */
  lemma InnerFreed(st: State, m: seq<Byte>, p: nat, b: Build, stale: bool) returns (w: seq<Byte>, r: Outcome)
    requires Describes(st, m) && Live(st, p)
    requires Merged(st.cs, Find(st.cs, p - HEADER)).End() != st.hi
    ensures r == HeapSpec.Free(st, p, b, stale)
    ensures var i := Find(st.cs, p - HEADER);
            && InARow(|m|, st.cs[i], ChunkIf(st.cs, i as int - 1), ChunkIf(st.cs, i + 1))
            && w == JoinedMemory(m, st.cs[i], ChunkIf(st.cs, i as int - 1), ChunkIf(st.cs, i + 1), b)
            && !r.Panic? && (r.Broken? <==> b.AsWritten? && HoleAt(st.cs, i + 1))
            && (r.Done? ==> Describes(r.st, w) && OthersSame(st.cs, st.cs[i], m, w)
                            && r.st == st.(cs := r.st.cs,
                               ix := Reindexed(IndexWithoutRight(st, i), Merged(st.cs, i),
                               !HoleAt(st.cs, i as int - 1), r.st.cs)))
            && (r.Broken? ==> forall t: State :: t.lo == st.lo && t.hi == st.hi ==> !Describes(t, w))
  {
    hide Peek, Coalesced, Holes, Blocks, Tagged, HeaderIs, SameOutside, JoinedMemory, Dropped, Reindexed,
         IndexWithoutRight, Added;
    var i, c, left, right := JoinedTags(st, m, p, b);
    w := JoinedMemory(m, c, left, right, b);
    r := HeapSpec.Free(st, p, b, stale);
    var h := Merged(st.cs, i);
    SidesKept(st, m, w, i);
    var ds := Before(st.cs, i) + [h] + After(st.cs, i);
    MergedShape(st.cs, i);
    FreeInside(st, i, h.size, st.hi);
    if r.Done? {
      FreeKeeps(st, p, b, stale);
      TaggedOne(w, h, st.hi);
      TaggedJoin(w, Before(st.cs, i), [h], st.hi);
      TaggedJoin(w, Before(st.cs, i) + [h], After(st.cs, i), st.hi);
    } else {
      forall t: State | t.lo == st.lo && t.hi == st.hi && Describes(t, w)
        ensures false
      {
        HeadersOf(w, Before(st.cs, i), h, After(st.cs, i), st.hi);
        TaggedHeaders(w, t.cs, t.hi);
        OneTiling(w, ds, t.cs, st.lo, st.hi);
        WrongFooter(w, t.cs, h, right[0].pos, st.hi);
      }
    }
  }

  /** Live blocks other than c keep every byte. */
  ghost predicate OthersSame(cs: seq<Chunk>, c: Chunk, m: seq<Byte>, r: seq<Byte>) {
    forall x :: x in cs && !x.hole && x != c ==> SameWithin(m, r, x.pos, x.End())
  }

  lemma TaggedHeaders(m: seq<Byte>, cs: seq<Chunk>, end: int)
    requires Tagged(m, cs, end)
    ensures forall c :: c in cs ==> HeaderIs(m, c.pos, c.hole, c.size)
  {
  }

  lemma HeadersOf(m: seq<Byte>, a: seq<Chunk>, h: Chunk, z: seq<Chunk>, end: int)
    requires Tagged(m, a, end) && Tagged(m, z, end) && HeaderIs(m, h.pos, h.hole, h.size)
    ensures forall c :: c in a + [h] + z ==> HeaderIs(m, c.pos, c.hole, c.size)
  {
  }

  /** A chunk that does not end the heap is not tagged if its footer names another header. */
  lemma WrongFooter(m: seq<Byte>, cs: seq<Chunk>, h: Chunk, other: nat, end: int)
    requires h in cs && h.End() != end && other != h.pos
    requires FooterIs(m, h.End() - FOOTER, other)
    ensures !Tagged(m, cs, end)
  {
    assert !ChunkTags(m, h, end);
  }

  /** The memory after lines 329-343: the trailing hole resized, unless nothing is left of it. */
  function ShrunkMemory(m: seq<Byte>, h: Chunk, left: nat): (r: seq<Byte>)
    requires left == 0 || (OVERHEAD <= left && h.pos + HEADER <= |m| && h.pos + left <= |m|
             && h.pos + left < 0x1_0000_0000)
    ensures |r| == |m|
  {
    if left == 0 then m else Resized(m, h, left)
  }

  /** Freeing a block whose merged hole ends the heap. */
  lemma TrailingFreed(st: State, m: seq<Byte>, p: nat, b: Build, w: seq<Byte>, c: Chunk)
    requires Describes(st, m) && Live(st, p) && c == st.cs[Find(st.cs, p - HEADER)] && |w| == |m|
    requires var i := Find(st.cs, p - HEADER);
             var h := Merged(st.cs, i);
             && h.End() == st.hi && OVERHEAD <= h.size && st.lo <= h.pos && ContractSafe(st, h, b)
             && HeaderIs(w, h.pos, true, h.size) && SameOutside(m, w, h.pos, h.End())
    ensures var h := Merged(st.cs, Find(st.cs, p - HEADER));
            var r, left := HeapSpec.Free(st, p, b, false), Remainder(st, h, b);
            && 0 <= left && h.pos + left <= |m| && h.pos + left < 0x1_0000_0000
            && r.Done? && Describes(r.st, ShrunkMemory(w, h, left)) && OthersSame(st.cs, c, m, ShrunkMemory(w, h, left))
  {
    hide Peek, Coalesced, Holes, Blocks, Tagged, HeaderIs, SameOutside, Dropped, Reindexed, IndexWithoutRight, Added,
         Resized, RoundUp, PagesDown, Before, After;
    var i := Find(st.cs, p - HEADER);
    var a, h, z := Before(st.cs, i), Merged(st.cs, i), After(st.cs, i);
    var r, left := HeapSpec.Free(st, p, b, false), Remainder(st, h, b);
    SidesKept(st, m, w, i);
    FreeKeeps(st, p, b, false);
    MergedAround(st.cs, i, st.lo, st.hi);
    ContractBound(st, h, b, |m|);
    TaggedElsewhere(w, a, st.lo, h.pos, st.hi, r.st.hi);
    if left != 0 {
      var rest := h.(size := left);
      var u := Resized(w, h, left);
      ChunkResized(w, h, left, r.st.hi);
      ResizedSides(st, m, w, u, i, left, r.st.hi);
      TaggedOne(u, rest, r.st.hi);
      TaggedJoin(u, a, [rest], r.st.hi);
    }
  }

  lemma ContractBound(st: State, h: Chunk, b: Build, n: int)
    requires Inv(st) && st.lo <= h.pos && h.End() == st.hi && st.hi + PAGE <= n && n % PAGE == 0 && n <= 0x1_0000_0000
    requires st.lo + MIN_LENGTH + PAGE <= n && ContractSafe(st, h, b)
    ensures 0 <= Remainder(st, h, b) && h.pos + Remainder(st, h, b) + PAGE <= n
    ensures h.pos + Remainder(st, h, b) == st.lo + ContractedLength(b, h.pos - st.lo)
  {
  }

  /** Resizing the trailing hole leaves what lies before it as it was. */
  lemma ResizedSides(st: State, m: seq<Byte>, w: seq<Byte>, u: seq<Byte>, i: nat, left: nat, end: int)
    requires Describes(st, m) && i < |st.cs| && !st.cs[i].hole && |w| == |m|
    requires var h := Merged(st.cs, i);
             && h.End() == st.hi && OVERHEAD <= h.size && SameOutside(m, w, h.pos, h.End())
                && SameOutside(w, u, h.pos, h.pos + left)
             && Tagged(w, Before(st.cs, i), end)
    ensures Tagged(u, Before(st.cs, i), end) && Peek(u, st.lo - FOOTER) != MAGIC && OthersSame(st.cs, st.cs[i], m, u)
  {
    hide Peek, Coalesced, Holes, Blocks, Tagged;
    var a, h, z := Before(st.cs, i), Merged(st.cs, i), After(st.cs, i);
    MergedAround(st.cs, i, st.lo, st.hi);
    TilesBounds(a, st.lo, h.pos);
    TilesBounds(z, h.End(), st.hi);
    TaggedFrame(w, u, a, st.lo, h.pos, h.pos, h.pos + left, end);
    PeekSame(m, u, st.lo - FOOTER);
    forall x | x in st.cs && !x.hole && x != st.cs[i]
      ensures SameWithin(m, u, x.pos, x.End())
    {
      BesidesMerged(st.cs, i, x);
    }
  }

  /** A contraction that is not safe leaves an index entry without room for a chunk. */
  lemma TrailingBroken(st: State, h: Chunk, b: Build, t: State)
    requires st.lo <= h.pos && !ContractSafe(st, h, b) && Remainder(st, h, b) < OVERHEAD
    requires t.lo == st.lo && t.hi == st.lo + ContractedLength(b, h.pos - st.lo) && h.pos in t.ix
    ensures !Inv(t)
  {
    if Inv(t) {
      var k :| 0 <= k < |t.ix| && t.ix[k] == h.pos;
      EntryRoom(t, k);
    }
  }

  lemma EntryRoom(t: State, k: nat)
    requires Inv(t) && k < |t.ix|
    ensures t.ix[k] + OVERHEAD <= t.hi
  {
    IndexedHole(t, k);
    TilesBounds(t.cs, t.lo, t.hi);
    assert t.cs[Find(t.cs, t.ix[k])] in t.cs;
  }

  /** The address past the merged hole is not in the index once the right neighbour is out of it. */
  lemma PastNotIndexed(st: State, m: seq<Byte>, i: nat)
    requires Describes(st, m) && i < |st.cs| && !st.cs[i].hole
    ensures !HoleAt(st.cs, i + 1) ==> st.cs[i].End() !in st.ix
    ensures HoleAt(st.cs, i + 1) ==> st.cs[i + 1].pos in st.ix && st.cs[i].End() == st.cs[i + 1].pos
    ensures st.cs[i].End() !in IndexWithoutRight(st, i)
  {
    ChunkFacts(st, m, i);
    if HoleAt(st.cs, i + 1) {
      IndexHasHole(st, st.cs[i + 1]);
      WithoutRight(st, i);
    } else if st.cs[i].End() in st.ix {
      var k :| 0 <= k < |st.ix| && st.ix[k] == st.cs[i].End();
      EntryIsHole(st, k, i);
    }
  }

  lemma EntryIsHole(st: State, k: nat, i: nat)
    requires Inv(st) && k < |st.ix| && i < |st.cs| && st.ix[k] == st.cs[i].End()
    ensures HoleAt(st.cs, i + 1)
  {
    IndexedHole(st, k);
    TilesBounds(st.cs, st.lo, st.hi);
    var j := Find(st.cs, st.ix[k]);
    assert st.cs[j] in st.cs;
    Adjacent(st.cs, i, st.lo, st.hi);
    if i + 1 < |st.cs| {
      FindAt(st.cs, i + 1, st.lo, st.hi);
    }
  }

  /** The new end stays inside the memory. */
  lemma ContractedWithin(b: Build, lo: nat, h: nat, hi: nat, n: int)
    requires lo % PAGE == 0 && n % PAGE == 0 && lo <= h < hi && hi + PAGE <= n && lo + MIN_LENGTH + PAGE <= n
    ensures lo + ContractedLength(b, h - lo) + PAGE <= n
  {
  }

  // ---------- what the method relies on ----------

  /** The block to be freed, its hole neighbours, and what the tests on their tags see. */
  lemma FreePlan(st: State, m: seq<Byte>, p: nat) returns (i: nat, c: Chunk, left: seq<Chunk>, right: seq<Chunk>)
    requires Describes(st, m) && Live(st, p)
    ensures i == Find(st.cs, p - HEADER) < |st.cs| && c == st.cs[i] && c.pos == p - HEADER && !c.hole
    ensures left == ChunkIf(st.cs, i as int - 1) && right == ChunkIf(st.cs, i + 1) && InARow(|m|, c, left, right)
    ensures st.lo <= c.pos && c.End() <= st.hi && (i + 1 == |st.cs| <==> c.End() == st.hi)
    ensures HeaderIs(m, c.pos, false, c.size) && FooterIs(m, c.End() - FOOTER, c.pos)
    ensures HoleFooterBelow(m, c.pos) <==> left != []
    ensures Peek(m, c.pos - FOOTER) == MAGIC ==> Peek(m, c.pos - 4) < c.pos
    ensures left != [] ==> FooterIs(m, c.pos - FOOTER, left[0].pos) && HeaderIs(m, left[0].pos, true, left[0].size)
    ensures right != [] ==> c.End() in st.ix
    ensures right == [] ==> c.End() !in st.ix
    ensures c.End() !in IndexWithoutRight(st, i)
    ensures right == [] && HoleTagAt(m, c.End()) ==> c.End() == st.hi
  {
    hide Describes, Live, Peek, HeaderIs, FooterIs, IndexWithoutRight;
    i, c := Surroundings(st, m, p);
    left, right := ChunkIf(st.cs, i as int - 1), ChunkIf(st.cs, i + 1);
    DescribedBounds(st, m);
    PastNotIndexed(st, m, i);
  }

  lemma HeaderHasSize(m: seq<Byte>, a: nat, hole: bool, size: nat)
    requires HeaderIs(m, a, hole, size)
    ensures a + HEADER <= |m| && Peek(m, a + 8) == size
  {
  }

  /** After joining on the left the right neighbour looks as it did. */
  lemma RightUnchanged(st: State, m: seq<Byte>, p: nat)
    requires Describes(st, m) && Live(st, p)
    ensures var i := Find(st.cs, p - HEADER);
            var c, left, right := st.cs[i], ChunkIf(st.cs, i as int - 1), ChunkIf(st.cs, i + 1);
            && InARow(|m|, c, left, right) && c.End() + HEADER <= |m|
            && var m1, h := LeftMemory(m, c, left), LeftJoined(c, left);
               && HeaderIs(m1, h.pos, true, h.size) && h.End() == c.End() && InARow(|m|, h, [], right)
               && (HoleTagAt(m1, c.End()) <==> HoleTagAt(m, c.End()))
               && (right != [] ==> HoleTagAt(m1, c.End()) && HeaderIs(m1, c.End(), true, right[0].size))
  {
    hide Describes, Live, Peek, LeftMemory;
    var i, c := Surroundings(st, m, p);
    DescribedBounds(st, m);
    var left, right := ChunkIf(st.cs, i as int - 1), ChunkIf(st.cs, i + 1);
    var m1 := LeftMemory(m, c, left);
    LeftTags(m, c, left);
    PeekSame(m, m1, c.End());
    if right != [] {
      HeaderFrame(m, m1, c.End(), true, right[0].size);
    }
  }

  lemma WithoutAbsent(ix: seq<nat>, x: nat)
    requires x !in ix
    ensures Without(ix, x) == ix
  {
  }

  lemma InsertedHas(ix: seq<nat>, x: nat, less: (nat, nat) -> bool)
    ensures x in Inserted(ix, x, less)
  {
    InsertedMultiset(ix, x, less);
    assert x in multiset(Inserted(ix, x, less));
  }

  /** The index that the method leaves is the one of the specification. */
  lemma ReindexedFits(st: State, w: seq<Byte>, ix: seq<nat>, h: Chunk, add: bool)
    requires Describes(st, w) && st.ix == Reindexed(ix, h, add, st.cs)
    ensures st.ix == if add then Inserted(ix, h.pos, SmallerHeader(w)) else ix
  {
    hide Describes, Inserted;
    if add {
      InsertedMultiset(ix, h.pos, Smaller(st.cs));
      InsertedFits(st, w, ix, h.pos);
    }
  }

  /** How free ends when the merged hole ends the heap. */
  lemma TrailingOutcome(st: State, m: seq<Byte>, p: nat, b: Build, w: seq<Byte>)
    requires Describes(st, m) && Live(st, p) && |w| == |m|
    requires var i := Find(st.cs, p - HEADER);
             var h := Merged(st.cs, i);
             && h.End() == st.hi && OVERHEAD <= h.size && st.lo <= h.pos
             && HeaderIs(w, h.pos, true, h.size) && SameOutside(m, w, h.pos, h.End())
    ensures var i := Find(st.cs, p - HEADER);
            var h, add, ix := Merged(st.cs, i), !HoleAt(st.cs, i as int - 1), IndexWithoutRight(st, i);
            var r, left := HeapSpec.Free(st, p, b, false), Remainder(st, h, b);
            && !r.Panic? && (r.Done? <==> ContractSafe(st, h, b))
            && (r.Done? ==>
                  && 0 <= left && h.pos + left <= |m| && h.pos + left < 0x1_0000_0000
                  && var u := ShrunkMemory(w, h, left);
                     && Describes(r.st, u) && OthersSame(st.cs, st.cs[i], m, u)
                     && r.st == st.(cs := r.st.cs, ix := r.st.ix, hi := h.pos + left,
                                    pages := st.pages - PagesDown(st.lo, st.Length() - PAGE, h.pos + left - st.lo))
                     && (left == 0 ==> b.AsCommented? && r.st.ix == Without(ix, h.pos))
                     && (left != 0 ==> r.st.ix == if add then Inserted(ix, h.pos, SmallerHeader(u)) else ix))
  {
    hide Peek, Tiles, Coalesced, Holes, Blocks, Tagged, HeaderIs, SameOutside, Merged, IndexWithoutRight, PagesDown,
         RoundUp, Resized, Before, Without, OthersSame, Inserted;
    var i := Find(st.cs, p - HEADER);
    var h, add, ix := Merged(st.cs, i), !HoleAt(st.cs, i as int - 1), IndexWithoutRight(st, i);
    var r, left := HeapSpec.Free(st, p, b, false), Remainder(st, h, b);
    if ContractSafe(st, h, b) {
      TrailingFreed(st, m, p, b, w, st.cs[i]);
      if left == 0 {
        MergedIndexed(st, i);
        if add {
          WithoutAbsent(ix, h.pos);
        }
      } else {
        ReindexedFits(r.st, ShrunkMemory(w, h, left), ix, h.(size := left), add);
      }
    }
  }

  /** The index after the last step of free. */
  ghost function Reinserted(ix: seq<nat>, h: nat, add: bool, w: seq<Byte>): (r: seq<nat>) {
    if add then Inserted(ix, h, SmallerHeader(w)) else ix
  }

  /** All that the method needs when the merged hole does not end the heap. */
  lemma InnerEnds(st: State, m: seq<Byte>, p: nat, b: Build, stale: bool) returns (r: Outcome, w: seq<Byte>, h: Chunk)
    requires Describes(st, m) && Live(st, p)
    requires Merged(st.cs, Find(st.cs, p - HEADER)).End() != st.hi
    ensures r == HeapSpec.Free(st, p, b, stale) && !r.Panic? && h == Merged(st.cs, Find(st.cs, p - HEADER))
    ensures var i := Find(st.cs, p - HEADER);
            && InARow(|m|, st.cs[i], ChunkIf(st.cs, i as int - 1), ChunkIf(st.cs, i + 1))
            && w == JoinedMemory(m, st.cs[i], ChunkIf(st.cs, i as int - 1), ChunkIf(st.cs, i + 1), b)
            && (r.Done? ==>
                  && Describes(r.st, w) && OthersSame(st.cs, Owner(st, p), m, w)
                  && r.st == st.(cs := r.st.cs, ix := Reinserted(IndexWithoutRight(st, i), h.pos,
                     !HoleAt(st.cs, i as int - 1), w)))
    ensures r.Broken? ==> forall t: State :: t.lo == st.lo && t.hi == st.hi ==> !Describes(t, w)
  {
    hide Describes, JoinedMemory, Reindexed, IndexWithoutRight, OthersSame, HeapSpec.Free, Inserted;
    w, r := InnerFreed(st, m, p, b, stale);
    h := Merged(st.cs, Find(st.cs, p - HEADER));
    OwnerIs(st, p);
    if r.Done? {
      var i := Find(st.cs, p - HEADER);
      ReindexedFits(r.st, w, IndexWithoutRight(st, i), h, !HoleAt(st.cs, i as int - 1));
    }
  }

  lemma OwnerIs(st: State, p: nat)
    requires Live(st, p)
    ensures Owner(st, p) == st.cs[Find(st.cs, p - HEADER)]
  {
  }

  /** All that the method needs when the merged hole ends the heap: the memory w is the joined one. */
  lemma TrailingEnds(st: State, m: seq<Byte>, p: nat, b: Build) returns (r: Outcome, w: seq<Byte>, h: Chunk)
    requires Describes(st, m) && Live(st, p)
    requires Merged(st.cs, Find(st.cs, p - HEADER)).End() == st.hi
    ensures r == HeapSpec.Free(st, p, b, false) && !r.Panic? && h == Merged(st.cs, Find(st.cs, p - HEADER))
    ensures st.lo <= h.pos && OVERHEAD <= h.size && HeaderIs(w, h.pos, true, h.size)
    ensures var i := Find(st.cs, p - HEADER);
            && InARow(|m|, st.cs[i], ChunkIf(st.cs, i as int - 1), ChunkIf(st.cs, i + 1))
            && w == JoinedMemory(m, st.cs[i], ChunkIf(st.cs, i as int - 1), ChunkIf(st.cs, i + 1), b)
    ensures var i := Find(st.cs, p - HEADER);
            var add, ix, left := !HoleAt(st.cs, i as int - 1), IndexWithoutRight(st, i), Remainder(st, h, b);
            && (!add ==> h.pos in ix) && st.cs[i].End() !in ix
            && (r.Done? ==>
                  && (left == 0 || OVERHEAD <= left) && h.pos + left <= |m| && h.pos + left < 0x1_0000_0000
                  && (left == 0 ==> b.AsCommented?)
                  && var u := ShrunkMemory(w, h, left);
                     && Describes(r.st, u) && OthersSame(st.cs, Owner(st, p), m, u)
                     && r.st == st.(cs := r.st.cs, hi := h.pos + left,
                                    pages := st.pages - PagesDown(st.lo, st.Length() - PAGE, h.pos + left - st.lo),
                                    ix := if left == 0 then Without(ix, h.pos) else Reinserted(ix, h.pos, add, u)))
            && (r.Broken? ==>
                  && left < OVERHEAD && !(b.AsCommented? && left == 0)
                  && forall t: State, v: seq<Byte> ::
                       t.lo == st.lo && t.hi == h.pos + left && h.pos in t.ix ==> !Describes(t, v))
  {
    hide Describes, JoinedMemory, Reindexed, IndexWithoutRight, OthersSame, HeapSpec.Free, Inserted, ShrunkMemory,
         PagesDown, HeaderIs, Without, ContractedLength;
    var i, c, left, right := JoinedTags(st, m, p, b);
    w := JoinedMemory(m, c, left, right, b);
    h := Merged(st.cs, i);
    r := HeapSpec.Free(st, p, b, false);
    OwnerIs(st, p);
    DescribedInv(st, m);
    MergedIndexed(st, i);
    PastNotIndexed(st, m, i);
    TrailingOutcome(st, m, p, b, w);
    if r.Broken? {
      forall t: State, v: seq<Byte> | t.lo == st.lo && t.hi == h.pos + Remainder(st, h, b) && h.pos in t.ix
        ensures !Describes(t, v)
      {
        TrailingBroken(st, h, b, t);
        if Describes(t, v) {
          DescribedInv(t, v);
        }
      }
    }
  }

  /** free fails an ASSERT exactly when the last block is freed and a stale hole header follows the heap. */
  lemma PanicsWhen(st: State, p: nat, b: Build, stale: bool)
    requires Live(st, p)
    ensures var i, r := Find(st.cs, p - HEADER), HeapSpec.Free(st, p, b, stale);
            if i + 1 == |st.cs| && stale then r == Panic else !r.Panic? && r == HeapSpec.Free(st, p, b, false)
  {
  }

  /** With the comments followed, contraction leaves nothing of the trailing hole h. */
  ghost predicate Vanishes(st: State, h: Chunk, b: Build) {
    b.AsCommented? && st.lo <= h.pos && Remainder(st, h, b) == 0
  }

  /**
    free of p gives the index an entry and takes none out: no neighbour is a hole, and the block is
    not a last one that fails an ASSERT or vanishes.
  */
  ghost predicate AddsEntry(st: State, p: nat, b: Build, stale: bool) {
    var i := Find(st.cs, p - HEADER);
    && i < |st.cs| && !HoleAt(st.cs, i - 1) && !HoleAt(st.cs, i + 1)
    && !(i + 1 == |st.cs| && (stale || Vanishes(st, st.cs[i], b)))
  }

  /** An index of capacity n with room for the entry that free adds has it when the hole is inserted. */
  lemma RoomForEntry(st: State, m: seq<Byte>, p: nat, b: Build, stale: bool, n: nat)
    requires Describes(st, m) && Live(st, p) && !(Find(st.cs, p - HEADER) + 1 == |st.cs| && stale)
    requires |st.ix| <= n && (AddsEntry(st, p, b, stale) ==> |st.ix| < n)
    ensures var i := Find(st.cs, p - HEADER);
            var h := Merged(st.cs, i);
            !HoleAt(st.cs, i - 1) && !(h.End() == st.hi && Vanishes(st, h, b)) ==> |IndexWithoutRight(st, i)| < n
  {
    hide Describes, Vanishes, Find;
    var i, c, left, right := FreePlan(st, m, p);
    DescribedInv(st, m);
    if HoleAt(st.cs, i + 1) {
      assert st.cs[i + 1] in st.cs;
      IndexHasHole(st, st.cs[i + 1]);
      RemovedCount(st.ix, Position(st.ix, st.cs[i + 1].pos));
    } else if !HoleAt(st.cs, i as int - 1) {
      assert Merged(st.cs, i) == Chunk(c.pos, c.size, true);
      assert Vanishes(st, Merged(st.cs, i), b) == Vanishes(st, c, b) by {
        VanishesBy(st, c, Merged(st.cs, i), b);
      }
    }
  }

  lemma VanishesBy(st: State, c: Chunk, h: Chunk, b: Build)
    requires c.pos == h.pos
    ensures Vanishes(st, h, b) == Vanishes(st, c, b)
  {
  }

  lemma RemovedCount(ix: seq<nat>, k: nat)
    requires k < |ix|
    ensures |Removed(ix, k)| == |ix| - 1
  {
  }

  lemma StartAligned(st: State, m: seq<Byte>)
    requires Describes(st, m)
    ensures st.lo % PAGE == 0 && |m| % PAGE == 0
  {
  }

  lemma LiveBlock(st: State, p: nat)
    requires Live(st, p)
    ensures var i := Find(st.cs, p - HEADER); HEADER <= p && i < |st.cs| && !st.cs[i].hole
  {
  }

  /** The index once the last hole has been resized or dropped, and once it has been put back. */
  lemma AfterShrink(ix: seq<nat>, h: nat, test: nat, add: bool, b: Build, left: int, r: seq<nat>)
    requires (!add ==> h in ix) && test !in ix
    requires r == if left == 0 then Without(ix, if b.AsCommented? then h else test) else ix
    ensures |r| <= |ix|
    ensures left != 0 || b.AsWritten? ==> r == ix
    ensures left != 0 || b.AsWritten? ==>
              forall w: seq<Byte> :: h in Reinserted(ix, h, add, w)
    ensures left == 0 && b.AsCommented? ==>
              forall w: seq<Byte> :: Reinserted(r, h, false, w) == Without(ix, h)
  {
    WithoutAbsent(ix, test);
    forall w: seq<Byte>
      ensures h in ix ==> h in Reinserted(ix, h, add, w)
      ensures add ==> h in Reinserted(ix, h, add, w)
    {
      InsertedHas(ix, h, SmallerHeader(w));
    }
  }
}
