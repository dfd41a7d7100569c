/**
  Chunk lists: the blocks and holes into which the heap's address range is divided, in address
  order.  A chunk's size counts its 12-byte header and its 8-byte footer (src/include/kheap.h).
*/
module Chunks {

  const HEADER := 12
  const FOOTER := 8
  const OVERHEAD := 20

  datatype Chunk = Chunk(pos: nat, size: nat, hole: bool) {
    function End(): nat {
      pos + size
    }
  }

  /** The chunks cover [lo, hi) exactly, one after the other, each large enough for its two tags. */
  ghost predicate Tiles(cs: seq<Chunk>, lo: int, hi: int)
  {
    if cs == [] then lo == hi
    else cs[0].pos == lo && OVERHEAD <= cs[0].size && Tiles(cs[1..], cs[0].End(), hi)
  }

  /** No two neighbouring chunks are both holes. */
  ghost predicate Coalesced(cs: seq<Chunk>)
  {
    |cs| > 1 ==> !(cs[0].hole && cs[1].hole) && Coalesced(cs[1..])
  }

  /** The addresses of the holes, in address order. */
  ghost function Holes(cs: seq<Chunk>): (ps: seq<nat>)
  {
    if cs == [] then []
    else if cs[0].hole then [cs[0].pos] + Holes(cs[1..]) else Holes(cs[1..])
  }

  /** The allocated blocks, in address order. */
  ghost function Blocks(cs: seq<Chunk>): (bs: seq<Chunk>)
  {
    if cs == [] then []
    else if cs[0].hole then Blocks(cs[1..]) else [cs[0]] + Blocks(cs[1..])
  }

  /** The index in the list of the chunk at address p, or the length of the list. */
  function Find(cs: seq<Chunk>, p: int): (i: nat)
    ensures i <= |cs|
    ensures i < |cs| ==> cs[i].pos == p
  {
    if cs == [] || cs[0].pos == p then 0 else 1 + Find(cs[1..], p)
  }

  /** The size of the chunk at address p. */
  function SizeAt(cs: seq<Chunk>, p: int): (n: nat)
  {
    var i := Find(cs, p);
    if i < |cs| then cs[i].size else 0
  }

  /** Where the address range of chunk i begins; the end of the whole range when there is none. */
  ghost function Edge(cs: seq<Chunk>, i: nat, hi: int): (e: int)
    requires i <= |cs|
  {
    if i < |cs| then cs[i].pos else hi
  }

  lemma {:induction false} TilesBounds(cs: seq<Chunk>, lo: int, hi: int)
    requires Tiles(cs, lo, hi)
    ensures lo <= hi && (cs != [] ==> lo + OVERHEAD <= hi)
    ensures forall c :: c in cs ==> lo <= c.pos && OVERHEAD <= c.size && c.End() <= hi
  {
    if cs != [] {
      TilesBounds(cs[1..], cs[0].End(), hi);
      assert cs == [cs[0]] + cs[1..];
    }
  }

  lemma {:induction false} TilesConcat(a: seq<Chunk>, b: seq<Chunk>, lo: int, mid: int, hi: int)
    requires Tiles(a, lo, mid) && Tiles(b, mid, hi)
    ensures Tiles(a + b, lo, hi)
  {
    if a == [] {
      assert a + b == b;
    } else {
      TilesConcat(a[1..], b, a[0].End(), mid, hi);
      assert (a + b)[1..] == a[1..] + b;
    }
  }

  lemma {:induction false} TilesSplit(cs: seq<Chunk>, i: nat, lo: int, hi: int)
    requires Tiles(cs, lo, hi) && i <= |cs|
    ensures Tiles(cs[..i], lo, Edge(cs, i, hi))
    ensures Tiles(cs[i..], Edge(cs, i, hi), hi)
  {
    if i == 0 {
      assert cs[..0] == [] && cs[0..] == cs;
    } else {
      TilesSplit(cs[1..], i - 1, cs[0].End(), hi);
      assert cs[..i][1..] == cs[1..][..i - 1] && cs[i..] == cs[1..][i - 1..];
    }
  }

  /** The list around its chunk i: what lies before it, the chunk, and what lies after it. */
  lemma TilesAround(cs: seq<Chunk>, i: nat, lo: int, hi: int)
    requires Tiles(cs, lo, hi) && i < |cs|
    ensures cs == cs[..i] + [cs[i]] + cs[i + 1..]
    ensures Tiles(cs[..i], lo, cs[i].pos) && OVERHEAD <= cs[i].size && Tiles(cs[i + 1..], cs[i].End(), hi)
  {
    TilesSplit(cs, i, lo, hi);
    assert cs[i..][1..] == cs[i + 1..];
  }

  /** Each chunk ends where the next one begins. */
  lemma Adjacent(cs: seq<Chunk>, i: nat, lo: int, hi: int)
    requires Tiles(cs, lo, hi) && i < |cs|
    ensures cs[i].End() == Edge(cs, i + 1, hi) && OVERHEAD <= cs[i].size
  {
    TilesSplit(cs, i, lo, hi);
    assert cs[i..][1..] == cs[i + 1..];
  }

  /** Replacing the middle of a tiling by another tiling of the same range. */
  lemma TilesReplace(a: seq<Chunk>, m: seq<Chunk>, b: seq<Chunk>, lo: int, p: int, q: int, hi: int)
    requires Tiles(a, lo, p) && Tiles(m, p, q) && Tiles(b, q, hi)
    ensures Tiles(a + m + b, lo, hi)
  {
    TilesConcat(a, m, lo, p, q);
    TilesConcat(a + m, b, lo, q, hi);
  }

  lemma {:induction false} HolesConcat(a: seq<Chunk>, b: seq<Chunk>)
    ensures Holes(a + b) == Holes(a) + Holes(b)
  {
    if a == [] {
      assert a + b == b;
    } else {
      HolesConcat(a[1..], b);
      assert (a + b)[1..] == a[1..] + b;
    }
  }

  lemma {:induction false} BlocksConcat(a: seq<Chunk>, b: seq<Chunk>)
    ensures Blocks(a + b) == Blocks(a) + Blocks(b)
  {
    if a == [] {
      assert a + b == b;
    } else {
      BlocksConcat(a[1..], b);
      assert (a + b)[1..] == a[1..] + b;
    }
  }

  /** Two lists may be joined when no two holes meet at the join. */
  ghost predicate Joinable(a: seq<Chunk>, b: seq<Chunk>)
  {
    a != [] && b != [] ==> !(a[|a| - 1].hole && b[0].hole)
  }

  lemma {:induction false} CoalescedConcat(a: seq<Chunk>, b: seq<Chunk>)
    ensures Coalesced(a + b) <==> Coalesced(a) && Coalesced(b) && Joinable(a, b)
  {
    if a == [] {
      assert a + b == b;
    } else {
      CoalescedConcat(a[1..], b);
      assert (a + b)[1..] == a[1..] + b;
    }
  }

  lemma NotBoth(cs: seq<Chunk>, i: nat)
    requires Coalesced(cs) && i + 1 < |cs|
    ensures !(cs[i].hole && cs[i + 1].hole)
  {
    assert cs == cs[..i + 1] + cs[i + 1..];
    CoalescedConcat(cs[..i + 1], cs[i + 1..]);
  }

  /** How joining two lists acts on their holes, on their blocks and on being coalesced. */
  lemma Join(a: seq<Chunk>, b: seq<Chunk>)
    ensures Holes(a + b) == Holes(a) + Holes(b)
    ensures Blocks(a + b) == Blocks(a) + Blocks(b)
    ensures Coalesced(a + b) <==> Coalesced(a) && Coalesced(b) && Joinable(a, b)
  {
    HolesConcat(a, b);
    BlocksConcat(a, b);
    CoalescedConcat(a, b);
  }

  /** A list of one chunk. */
  lemma Single(c: Chunk)
    ensures Holes([c]) == if c.hole then [c.pos] else []
    ensures Blocks([c]) == if c.hole then [] else [c]
    ensures Coalesced([c])
    ensures OVERHEAD <= c.size ==> Tiles([c], c.pos, c.End())
  {
    assert [c][1..] == [];
  }

  /** A chunk put in front of a list. */
  lemma Cons(c: Chunk, cs: seq<Chunk>, hi: int)
    ensures Tiles([c] + cs, c.pos, hi) <==> OVERHEAD <= c.size && Tiles(cs, c.End(), hi)
    ensures Holes([c] + cs) == (if c.hole then [c.pos] else []) + Holes(cs)
    ensures Coalesced([c] + cs) <==> Coalesced(cs) && (cs != [] ==> !(c.hole && cs[0].hole))
  {
    assert ([c] + cs)[1..] == cs;
  }

  /** Chunk addresses are pairwise different. */
  lemma {:induction false} FindAt(cs: seq<Chunk>, i: nat, lo: int, hi: int)
    requires Tiles(cs, lo, hi) && i < |cs|
    ensures Find(cs, cs[i].pos) == i
  {
    if i > 0 {
      TilesBounds(cs[1..], cs[0].End(), hi);
      FindAt(cs[1..], i - 1, cs[0].End(), hi);
    }
  }

  lemma Increasing(cs: seq<Chunk>, i: nat, j: nat, lo: int, hi: int)
    requires Tiles(cs, lo, hi) && i < j < |cs|
    ensures cs[i].pos < cs[i].End() <= cs[j].pos
  {
    TilesAround(cs, i, lo, hi);
    TilesBounds(cs[i + 1..], cs[i].End(), hi);
    assert cs[j] == cs[i + 1..][j - i - 1];
  }

  lemma {:induction false} HolesAreChunks(cs: seq<Chunk>, p: nat)
    requires p in Holes(cs)
    ensures exists c :: c in cs && c.hole && c.pos == p
  {
    if cs[0].hole && p == cs[0].pos {
      assert cs[0] in cs;
    } else {
      HolesAreChunks(cs[1..], p);
      var c :| c in cs[1..] && c.hole && c.pos == p;
      assert c in cs;
    }
  }

  lemma {:induction false} ChunksAreHoles(cs: seq<Chunk>, c: Chunk)
    requires c in cs && c.hole
    ensures c.pos in Holes(cs)
  {
    if c != cs[0] {
      ChunksAreHoles(cs[1..], c);
    }
  }

  /** Hole addresses increase, so none is listed twice. */
  lemma {:induction false} HolesDistinct(cs: seq<Chunk>, lo: int, hi: int, p: nat)
    requires Tiles(cs, lo, hi)
    ensures multiset(Holes(cs))[p] <= 1
  {
    if cs != [] {
      HolesDistinct(cs[1..], cs[0].End(), hi, p);
      if p in Holes(cs[1..]) {
        HolesAreChunks(cs[1..], p);
        TilesBounds(cs[1..], cs[0].End(), hi);
      }
    }
  }

  /**
    The holes of a coalesced tiling are determined by its blocks and its bounds: a heap holding
    given live blocks in a given range has one shape only.
  */
  lemma {:induction false} Canonical(a: seq<Chunk>, b: seq<Chunk>, lo: int, hi: int)
    requires Tiles(a, lo, hi) && Tiles(b, lo, hi)
    requires Coalesced(a) && Coalesced(b)
    requires Blocks(a) == Blocks(b)
    ensures a == b
  {
    TilesBounds(a, lo, hi);
    TilesBounds(b, lo, hi);
    if a != [] {
      FirstChunk(a, lo, hi);
      FirstChunk(b, lo, hi);
      assert a[0] == b[0];
      Canonical(a[1..], b[1..], a[0].End(), hi);
      assert a == [a[0]] + a[1..] && b == [b[0]] + b[1..];
    }
  }

  /** The first chunk of a coalesced tiling is the hole before the first block, or that block. */
  lemma FirstChunk(cs: seq<Chunk>, lo: int, hi: int)
    requires Tiles(cs, lo, hi) && Coalesced(cs) && cs != []
    ensures Blocks(cs) == [] ==> cs[0].hole && cs[0].End() == hi && Blocks(cs[1..]) == []
    ensures Blocks(cs) != [] ==>
              var b := Blocks(cs)[0];
              if b.pos == lo then cs[0] == b && Blocks(cs[1..]) == Blocks(cs)[1..]
              else cs[0].hole && cs[0].End() == b.pos && Blocks(cs[1..]) == Blocks(cs)
  {
    if |cs| > 1 {
      assert cs[1..][0] == cs[1];
    }
  }

  /** A coalesced tiling of a nonempty range without blocks is one hole spanning the range. */
  lemma NoBlocks(cs: seq<Chunk>, lo: nat, hi: nat)
    requires Tiles(cs, lo, hi) && Coalesced(cs) && lo < hi
    requires Blocks(cs) == []
    ensures cs == [Chunk(lo, hi - lo, true)]
  {
    var one := [Chunk(lo, hi - lo, true)];
    TilesBounds(cs, lo, hi);
    assert one[1..] == [];
    Canonical(cs, one, lo, hi);
  }

  /** At least every second chunk is a block of 20 bytes or more, which bounds the number of holes. */
  lemma {:induction false} HoleBound(cs: seq<Chunk>, lo: int, hi: int)
    requires Tiles(cs, lo, hi) && Coalesced(cs)
    ensures 2 * OVERHEAD * |Holes(cs)| <= hi - lo + OVERHEAD
    ensures cs != [] && !cs[0].hole ==> 2 * OVERHEAD * |Holes(cs)| <= hi - lo
  {
    if cs != [] {
      HoleBound(cs[1..], cs[0].End(), hi);
      TilesBounds(cs[1..], cs[0].End(), hi);
    }
  }
}
