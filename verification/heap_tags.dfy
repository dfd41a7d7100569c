/** The boundary tags of a heap as they lie in memory: a header and a footer for every chunk. */
module HeapTags {
  import opened Chunks
  import opened Memory
  import opened OrderedArrays
  import opened HeapSpec
  import opened HeapSteps

  const MAGIC: Word := 0x123890AB

  function Flag(hole: bool): (b: Byte) {
    if hole then 1 else 0
  }

  /** The 12 bytes at a are the header of a chunk: magic, flag byte, padding, size. */
  ghost predicate HeaderIs(m: seq<Byte>, a: nat, hole: bool, size: nat) {
    a + HEADER <= |m| && Peek(m, a) == MAGIC && m[a + 4] == Flag(hole) && Peek(m, a + 8) == size
  }

  /** The 8 bytes at a are the footer of a chunk whose header is at h. */
  ghost predicate FooterIs(m: seq<Byte>, a: int, h: nat) {
    0 <= a && a + FOOTER <= |m| && Peek(m, a) == MAGIC && Peek(m, a + 4) == h
  }

  /** Both tags of the chunk; only a hole that ends the heap may lack its footer, as the first one does. */
  ghost predicate ChunkTags(m: seq<Byte>, c: Chunk, hi: int) {
    && HeaderIs(m, c.pos, c.hole, c.size)
    && (FooterIs(m, c.End() - FOOTER, c.pos) || (c.hole && c.End() == hi))
  }

  ghost predicate Tagged(m: seq<Byte>, cs: seq<Chunk>, hi: int) {
    forall c :: c in cs ==> ChunkTags(m, c, hi)
  }

  lemma HeaderFrame(m: seq<Byte>, r: seq<Byte>, a: nat, hole: bool, size: nat)
    requires SameWithin(m, r, a, a + HEADER) && HeaderIs(m, a, hole, size)
    ensures HeaderIs(r, a, hole, size)
  {
    hide Peek;
    PeekSame(m, r, a);
    PeekSame(m, r, a + 8);
  }

  lemma FooterFrame(m: seq<Byte>, r: seq<Byte>, a: int, h: nat)
    requires SameWithin(m, r, a, a + FOOTER) && FooterIs(m, a, h)
    ensures FooterIs(r, a, h)
  {
    hide Peek;
    PeekSame(m, r, a);
    PeekSame(m, r, a + 4);
  }

  /** Writes that miss a chunk's tags leave them as they are. */
  lemma TagsFrame(m: seq<Byte>, r: seq<Byte>, c: Chunk, hi: int)
    requires ChunkTags(m, c, hi) && OVERHEAD <= c.size
    requires SameWithin(m, r, c.pos, c.pos + HEADER) && SameWithin(m, r, c.End() - FOOTER, c.End())
    ensures ChunkTags(r, c, hi)
  {
    hide HeaderIs, FooterIs;
    HeaderFrame(m, r, c.pos, c.hole, c.size);
    if FooterIs(m, c.End() - FOOTER, c.pos) {
      FooterFrame(m, r, c.End() - FOOTER, c.pos);
    }
  }

  lemma TagsKept(m: seq<Byte>, r: seq<Byte>, c: Chunk, hi: int, p: int, q: int)
    requires ChunkTags(m, c, hi) && OVERHEAD <= c.size
    requires SameOutside(m, r, p, q) && (c.End() <= p || q <= c.pos)
    ensures ChunkTags(r, c, hi)
  {
    hide ChunkTags;
    TagsFrame(m, r, c, hi);
  }

  lemma WritesCompose(m: seq<Byte>, r: seq<Byte>, w: seq<Byte>, p: int, q: int, s: int)
    requires SameOutside(m, r, p, q) && SameOutside(r, w, q, s) && p <= q <= s
    ensures SameOutside(m, w, p, s)
  {
  }

  /** Writes confined to [p, q) leave the tags of chunks on either side as they are. */
  lemma TaggedFrame(m: seq<Byte>, r: seq<Byte>, cs: seq<Chunk>, lo: int, hi: int, p: int, q: int, end: int)
    requires Tagged(m, cs, end) && Tiles(cs, lo, hi) && SameOutside(m, r, p, q)
    requires hi <= p || q <= lo
    ensures Tagged(r, cs, end)
  {
    hide ChunkTags, Tiles;
    TilesBounds(cs, lo, hi);
    forall c | c in cs
      ensures ChunkTags(r, c, end)
    {
      TagsFrame(m, r, c, end);
    }
  }

  /** Chunks that end before the end of the heap are tagged wherever the heap ends. */
  lemma TaggedElsewhere(m: seq<Byte>, cs: seq<Chunk>, lo: int, hi: int, end: int, other: int)
    requires Tagged(m, cs, end) && Tiles(cs, lo, hi) && hi < end
    ensures Tagged(m, cs, other)
  {
    TilesBounds(cs, lo, hi);
  }

  lemma TaggedJoin(m: seq<Byte>, a: seq<Chunk>, b: seq<Chunk>, hi: int)
    ensures Tagged(m, a + b, hi) <==> Tagged(m, a, hi) && Tagged(m, b, hi)
  {
    assert forall c :: c in a || c in b ==> c in a + b;
  }

  /** The headers in memory determine the chunk list. */
  lemma {:induction false} OneTiling(m: seq<Byte>, a: seq<Chunk>, b: seq<Chunk>, lo: int, hi: int)
    requires Tiles(a, lo, hi) && Tiles(b, lo, hi)
    requires forall c :: c in a ==> HeaderIs(m, c.pos, c.hole, c.size)
    requires forall c :: c in b ==> HeaderIs(m, c.pos, c.hole, c.size)
    ensures a == b
  {
    TilesBounds(a, lo, hi);
    TilesBounds(b, lo, hi);
    if a != [] {
      assert a[0] in a && b[0] in b;
      assert a == [a[0]] + a[1..] && b == [b[0]] + b[1..];
      OneTiling(m, a[1..], b[1..], a[0].End(), hi);
    }
  }

  // ---------- writing tags ----------

  function WithHeader(m: seq<Byte>, a: nat, hole: bool, size: Word): (r: seq<Byte>)
    requires a + HEADER <= |m|
    ensures |r| == |m|
  {
    Poke(Poke(m, a, MAGIC)[a + 4 := Flag(hole)], a + 8, size)
  }

  lemma HeaderWritten(m: seq<Byte>, a: nat, hole: bool, size: Word)
    requires a + HEADER <= |m|
    ensures var r := WithHeader(m, a, hole, size);
            HeaderIs(r, a, hole, size) && SameOutside(m, r, a, a + HEADER)
  {
    hide Poke, Peek;
    var m1 := Poke(m, a, MAGIC);
    var m2 := m1[a + 4 := Flag(hole)];
    var r := Poke(m2, a + 8, size);
    Poked(m, a, MAGIC);
    Poked(m2, a + 8, size);
    PeekSame(m1, m2, a);
    PeekSame(m2, r, a);
  }

  function WithFooter(m: seq<Byte>, a: nat, h: Word): (r: seq<Byte>)
    requires a + FOOTER <= |m|
    ensures |r| == |m|
  {
    Poke(Poke(m, a, MAGIC), a + 4, h)
  }

  lemma FooterWritten(m: seq<Byte>, a: nat, h: Word)
    requires a + FOOTER <= |m|
    ensures var r := WithFooter(m, a, h);
            FooterIs(r, a, h) && SameOutside(m, r, a, a + FOOTER)
  {
    hide Poke, Peek;
    var m1 := Poke(m, a, MAGIC);
    var r := Poke(m1, a + 4, h);
    Poked(m, a, MAGIC);
    Poked(m1, a + 4, h);
    PeekSame(m1, r, a);
  }

  /** Memory m after both tags of the chunk are written. */
  function WithChunk(m: seq<Byte>, c: Chunk): (r: seq<Byte>)
    requires OVERHEAD <= c.size < 0x1_0000_0000 && c.End() <= |m| && c.pos < 0x1_0000_0000
    ensures |r| == |m|
  {
    WithFooter(WithHeader(m, c.pos, c.hole, c.size), c.End() - FOOTER, c.pos)
  }

  lemma ChunkWritten(m: seq<Byte>, c: Chunk, end: int)
    requires OVERHEAD <= c.size < 0x1_0000_0000 && c.End() <= |m| && c.pos < 0x1_0000_0000
    ensures ChunkTags(WithChunk(m, c), c, end)
    ensures SameOutside(m, WithChunk(m, c), c.pos, c.End())
  {
    hide WithHeader, WithFooter, HeaderIs, FooterIs;
    var m1 := WithHeader(m, c.pos, c.hole, c.size);
    var r := WithFooter(m1, c.End() - FOOTER, c.pos);
    HeaderWritten(m, c.pos, c.hole, c.size);
    FooterWritten(m1, c.End() - FOOTER, c.pos);
    HeaderFrame(m1, r, c.pos, c.hole, c.size);
  }

  /** Overwriting the size field of a header. */
  lemma HeaderResized(m: seq<Byte>, a: nat, hole: bool, size: nat, n: Word)
    requires HeaderIs(m, a, hole, size)
    ensures HeaderIs(Poke(m, a + 8, n), a, hole, n) && SameOutside(m, Poke(m, a + 8, n), a + 8, a + HEADER)
  {
    hide Poke, Peek;
    Poked(m, a + 8, n);
    PeekSame(m, Poke(m, a + 8, n), a);
  }

  /** The memory after the hole c is given the size n: a new size in the header, a footer at the new end. */
  function Resized(m: seq<Byte>, c: Chunk, n: Word): (r: seq<Byte>)
    requires OVERHEAD <= n && c.pos + HEADER <= |m| && c.pos + n <= |m| && c.pos < 0x1_0000_0000
    ensures |r| == |m|
  {
    WithFooter(Poke(m, c.pos + 8, n), c.pos + n - FOOTER, c.pos)
  }

  lemma ChunkResized(m: seq<Byte>, c: Chunk, n: Word, end: int)
    requires OVERHEAD <= n && c.pos + HEADER <= |m| && c.pos + n <= |m| && c.pos < 0x1_0000_0000
    requires HeaderIs(m, c.pos, c.hole, c.size)
    ensures ChunkTags(Resized(m, c, n), c.(size := n), end)
    ensures SameOutside(m, Resized(m, c, n), c.pos, c.pos + n)
  {
    hide Poke, WithFooter, HeaderIs, FooterIs;
    var m1 := Poke(m, c.pos + 8, n);
    HeaderResized(m, c.pos, c.hole, c.size, n);
    FooterWritten(m1, c.pos + n - FOOTER, c.pos);
    HeaderFrame(m1, Resized(m, c, n), c.pos, c.hole, n);
  }

  /** Chunks whose tags fit into the memory. */
  ghost predicate Writable(n: int, cs: seq<Chunk>) {
    forall c :: c in cs ==> OVERHEAD <= c.size < 0x1_0000_0000 && c.End() <= n && c.pos < 0x1_0000_0000
  }

  /** Memory m after the tags of a chunk, if there is one, are written. */
  function WithOptional(m: seq<Byte>, cs: seq<Chunk>): (r: seq<Byte>)
    requires |cs| <= 1 && Writable(|m|, cs)
    ensures |r| == |m|
  {
    if cs == [] then m else WithChunk(m, cs[0])
  }

  ghost predicate PiecesWritable(n: int, r: Pieces) {
    |r.front| <= 1 && |r.tail| <= 1 && Writable(n, r.front) && Writable(n, [r.block]) && Writable(n, r.tail)
  }

  /** Memory m after the tags of the pieces of a hole are written. */
  function WithPieces(m: seq<Byte>, r: Pieces): (w: seq<Byte>)
    requires PiecesWritable(|m|, r)
    ensures |w| == |m|
  {
    assert r.block in [r.block];
    WithOptional(WithChunk(WithOptional(m, r.front), r.block), r.tail)
  }

  /** The pieces of a hole lie one after the other. */
  lemma PiecesPlaced(m: seq<Byte>, r: Pieces, c: Chunk)
    requires PiecesOf(r, c) && c.End() <= |m| && c.End() < 0x1_0000_0000
    ensures PiecesWritable(|m|, r)
    ensures r.front != [] ==> r.front[0].pos == c.pos && r.front[0].End() == r.block.pos && r.front[0].size >= OVERHEAD
    ensures r.front == [] ==> r.block.pos == c.pos
    ensures r.block.size >= OVERHEAD
    ensures r.tail != [] ==> r.tail[0].pos == r.block.End() && r.tail[0].size >= OVERHEAD && r.tail[0].End() == c.End()
    ensures r.tail == [] ==> r.block.End() == c.End()
  {
    if r.front != [] {
      assert r.front == [r.front[0]];
      TilesTwo(r.front[0], r.block, r.tail, c.pos, c.End());
    } else {
      assert r.All() == [r.block] + r.tail;
      TilesOne(r.block, r.tail, c.pos, c.End());
    }
  }

  lemma PiecesTagged(m: seq<Byte>, r: Pieces, c: Chunk, end: int)
    requires PiecesOf(r, c) && c.End() <= |m| && c.End() < 0x1_0000_0000
    ensures PiecesWritable(|m|, r)
    ensures Tagged(WithPieces(m, r), r.All(), end) && SameOutside(m, WithPieces(m, r), c.pos, c.End())
  {
    hide Tagged, WithChunk, WithOptional, Tiles, SameOutside, Writable, PiecesOf;
    PiecesPlaced(m, r, c);
    var x, y := r.block.pos, r.block.End();
    var m1 := WithOptional(m, r.front);
    var m2 := WithChunk(m1, r.block);
    var m3 := WithOptional(m2, r.tail);
    OptionalTagged(m, r.front, c.pos, x, end);
    BlockTagged(m1, r.block, end);
    OptionalTagged(m2, r.tail, y, c.End(), end);
    WritesCompose(m, m1, m2, c.pos, x, y);
    WritesCompose(m, m2, m3, c.pos, y, c.End());
    WritesCompose(m1, m2, m3, x, y, c.End());
    OptionalKept(m1, m3, r.front, end, x, c.End());
    OptionalKept(m2, m3, [r.block], end, y, c.End());
    TaggedJoin(m3, r.front, [r.block], end);
    TaggedJoin(m3, r.front + [r.block], r.tail, end);
  }

  lemma OptionalKept(m: seq<Byte>, r: seq<Byte>, cs: seq<Chunk>, end: int, p: int, q: int)
    requires |cs| <= 1 && Tagged(m, cs, end) && SameOutside(m, r, p, q)
    requires cs != [] ==> cs[0].size >= OVERHEAD && (cs[0].End() <= p || q <= cs[0].pos)
    ensures Tagged(r, cs, end)
  {
    if cs != [] {
      assert cs[0] in cs;
      TagsKept(m, r, cs[0], end, p, q);
    }
  }

  lemma BlockTagged(m: seq<Byte>, c: Chunk, end: int)
    requires Writable(|m|, [c])
    ensures c in [c] && Tagged(WithChunk(m, c), [c], end) && SameOutside(m, WithChunk(m, c), c.pos, c.End())
  {
    assert c in [c];
    ChunkWritten(m, c, end);
  }

  lemma OptionalTagged(m: seq<Byte>, cs: seq<Chunk>, p: int, q: int, end: int)
    requires |cs| <= 1 && Writable(|m|, cs) && p <= q && (cs != [] ==> cs[0].pos == p && cs[0].End() == q)
    ensures Tagged(WithOptional(m, cs), cs, end) && SameOutside(m, WithOptional(m, cs), p, q)
  {
    hide WithChunk, ChunkTags;
    if cs != [] {
      ChunkWritten(m, cs[0], end);
    }
  }

  /** Cutting a hole: writing the tags of its pieces leaves every chunk of the new list tagged. */
  lemma CarveTagged(m: seq<Byte>, cs: seq<Chunk>, i: nat, r: Pieces, lo: int, hi: int)
    requires hi <= |m| && hi < 0x1_0000_0000
    requires Tagged(m, cs, hi) && Tiles(cs, lo, hi) && i < |cs| && PiecesOf(r, cs[i])
    ensures PiecesWritable(|m|, r)
    ensures Tagged(WithPieces(m, r), Replaced(cs, i, r.All()), hi)
    ensures SameOutside(m, WithPieces(m, r), cs[i].pos, cs[i].End())
  {
    hide ChunkTags, Tiles, WithPieces, PiecesOf;
    var p, q := cs[i].pos, cs[i].End();
    TilesAround(cs, i, lo, hi);
    TilesBounds(cs[i + 1..], q, hi);
    PiecesTagged(m, r, cs[i], hi);
    var w := WithPieces(m, r);
    TaggedJoin(m, cs[..i] + [cs[i]], cs[i + 1..], hi);
    TaggedJoin(m, cs[..i], [cs[i]], hi);
    TaggedFrame(m, w, cs[..i], lo, p, p, q, hi);
    TaggedFrame(m, w, cs[i + 1..], q, hi, p, q, hi);
    TaggedJoin(w, cs[..i], r.All(), hi);
    TaggedJoin(w, cs[..i] + r.All(), cs[i + 1..], hi);
  }

  /** The size field of the header at a, as the index's less_than reads it. */
  function HeaderSize(m: seq<Byte>, a: nat): (n: nat) {
    if a + HEADER <= |m| then Peek(m, a + 8) else 0
  }

  function SmallerHeader(m: seq<Byte>): (nat, nat) -> bool {
    (a: nat, b: nat) => HeaderSize(m, a) < HeaderSize(m, b)
  }

  /** Comparing header sizes in memory is comparing chunk sizes. */
  lemma InsertedAgrees(m: seq<Byte>, cs: seq<Chunk>, ix: seq<nat>, x: nat, lo: int, hi: int, end: int)
    requires Tiles(cs, lo, hi) && Tagged(m, cs, end)
    requires forall p :: p in ix || p == x ==> Find(cs, p) < |cs|
    ensures Inserted(ix, x, SmallerHeader(m)) == Inserted(ix, x, Smaller(cs))
  {
    hide Tiles, Find, Peek;
    forall p | p in ix || p == x
      ensures HeaderSize(m, p) == SizeAt(cs, p)
    {
      assert cs[Find(cs, p)] in cs;
    }
    SlotAgrees(ix, x, SmallerHeader(m), Smaller(cs));
  }
}
