/**
  What alloc, free, expand and contract of src/kheap.c do to the shape of the heap, stated on
  values.  Arithmetic on addresses wraps at 32 bits wherever the original could wrap.
*/
module HeapSpec {
  import opened Chunks
  import opened Kernel
  import opened Memory
  import opened OrderedArrays

  const MIN_LENGTH := 0x70000
  const INDEX_ENTRIES := 0x20000

  /**
    The shape of a heap: its chunks, the hole index in index order, its bounds, and the pages
    of the address space that are backed by a frame.
  */
  datatype State = State(cs: seq<Chunk>, ix: seq<nat>, lo: nat, hi: nat, max: nat, pages: set<nat>) {
    function Length(): int {
      hi - lo
    }
  }

  /**
    How a request ends: with a pointer and a new shape, in a failed ASSERT, or Broken, when the
    next step of the original would cut or join chunks so that they no longer tile the heap.
  */
  datatype Outcome = Done(ptr: nat, st: State) | Panic | Broken

  function RoundUp(x: nat): (r: nat)
    ensures x <= r < x + PAGE && r % PAGE == 0
  {
    if x % PAGE == 0 then x else x - x % PAGE + PAGE
  }

  /** The length that expand settles on; as written only an odd request is rounded. */
  function ExpandedLength(b: Build, n: nat): (r: nat)
    ensures n <= r < n + PAGE
  {
    if b.AsCommented? then RoundUp(n)
    else if n % 2 == 1 then n - n % PAGE + PAGE else n
  }

  /** The length that contract settles on; as written the mask keeps bit 12 alone. */
  function ContractedLength(b: Build, n: nat): (r: nat)
    ensures MIN_LENGTH <= r
  {
    var m := if b.AsCommented? then RoundUp(n) else if n / 0x1000 % 2 == 1 then 0x2000 else n;
    if m < MIN_LENGTH then MIN_LENGTH else m
  }

  /** The pages that expand asks frames for, stepping from offset i up to n. */
  function PagesUp(lo: nat, i: nat, n: nat): (ps: set<nat>)
    decreases n - i
  {
    if i < n then {(lo + i) / PAGE} + PagesUp(lo, i + PAGE, n) else {}
  }

  /** The pages whose frames contract gives back, stepping from offset i down to n. */
  function PagesDown(lo: nat, i: int, n: nat): (ps: set<nat>)
    decreases i
  {
    if n < i then {(lo + i) / PAGE} + PagesDown(lo, i - PAGE, n) else {}
  }

  function Signed(x: Word): (r: int) {
    if x < 0x8000_0000 then x else x - 0x1_0000_0000
  }

  /** The padding the search reserves for a page-aligned request in the hole at p. */
  function SearchOffset(p: nat): (n: nat)
    ensures n <= PAGE
  {
    if p + HEADER < PAGE then 0 else PAGE - (p + HEADER) % PAGE
  }

  predicate Fits(p: nat, size: Word, need: Word, align: bool) {
    if align then Signed(size) - SearchOffset(p) >= Signed(need) else size >= need
  }

  /** The position in the index of the first hole that fits, or the length of the index. */
  function FirstFit(cs: seq<Chunk>, ix: seq<nat>, need: Word, align: bool): (k: nat)
    ensures k <= |ix|
    ensures forall j :: 0 <= j < k ==> !Fits(ix[j], Wrap(SizeAt(cs, ix[j])), need, align)
    ensures k < |ix| ==> Fits(ix[k], Wrap(SizeAt(cs, ix[k])), need, align)
  {
    if ix == [] || Fits(ix[0], Wrap(SizeAt(cs, ix[0])), need, align) then 0
    else 1 + FirstFit(cs, ix[1..], need, align)
  }

  /** The pieces into which alloc cuts a hole: perhaps a hole in front, the block, perhaps a hole behind. */
  datatype Pieces = Pieces(front: seq<Chunk>, block: Chunk, tail: seq<Chunk>) {
    function All(): seq<Chunk> {
      front + [block] + tail
    }
  }

  /** The size of the front hole that puts the data of a page-aligned block on the next page. */
  function FrontSize(p: nat): (n: Word) {
    Wrap(PAGE - p % PAGE - HEADER)
  }

  function Cut(c: Chunk, need: nat, align: bool): (r: Pieces) {
    var taken := if Wrap(c.size - need) < OVERHEAD then c.size else need;
    var front := align && c.pos >= PAGE;
    var at := if front then Wrap(c.pos + FrontSize(c.pos)) else c.pos;
    var rest := if front then Wrap(c.size - FrontSize(c.pos)) else c.size;
    Pieces(if front then [Chunk(c.pos, FrontSize(c.pos), true)] else [],
           Chunk(at, taken, false),
           if Wrap(rest - taken) > 0 then [Chunk(at + taken, Wrap(rest - taken), true)] else [])
  }

  /** When a page-aligned request can be cut from the hole c without leaving a piece too small for its tags. */
  predicate AlignSafe(c: Chunk, need: nat) {
    && c.pos % PAGE <= 0xFE0
    && var left := c.size - FrontSize(c.pos) - need;
       left == 0 || left >= OVERHEAD
  }

  /** The index's less_than predicate: compares the sizes in the two headers. */
  function Smaller(cs: seq<Chunk>): (nat, nat) -> bool {
    (a, b) => SizeAt(cs, a) < SizeAt(cs, b)
  }

  /** The list with its chunk i replaced by the chunks m. */
  function Replaced(cs: seq<Chunk>, i: nat, m: seq<Chunk>): seq<Chunk>
    requires i < |cs|
  {
    cs[..i] + m + cs[i + 1..]
  }

  /** The index after the hole at its position k is cut: the front piece, if any, keeps the entry. */
  function IndexAfterCut(ix: seq<nat>, k: nat, r: Pieces, cs: seq<Chunk>): seq<nat>
    requires k < |ix|
  {
    var rest := if r.front == [] then Removed(ix, k) else ix;
    if r.tail == [] then rest else Inserted(rest, r.tail[0].pos, Smaller(cs))
  }

  /** The shape after alloc takes the hole at position k of the index. */
  function Carve(st: State, k: nat, need: nat, align: bool): (r: Outcome)
    requires k < |st.ix|
  {
    var i := Find(st.cs, st.ix[k]);
    if i == |st.cs| || (align && !AlignSafe(st.cs[i], need)) then Broken
    else
      var pieces := Cut(st.cs[i], need, align);
      var cs := Replaced(st.cs, i, pieces.All());
      Done(pieces.block.pos + HEADER, st.(cs := cs, ix := IndexAfterCut(st.ix, k, pieces, cs)))
  }

  function Largest(ix: seq<nat>): (p: nat)
    ensures forall x :: x in ix ==> x <= p
    ensures ix != [] ==> p in ix
  {
    assert ix != [] ==> ix == [ix[0]] + ix[1..];
    if ix == [] then 0
    else if |ix| == 1 || ix[0] > Largest(ix[1..]) then ix[0]
    else Largest(ix[1..])
  }

  /** The last chunk is the one that growth enlarges: it is a hole, or there are no holes at all. */
  predicate GrowSafe(st: State) {
    st.ix == [] || (st.cs != [] && st.cs[|st.cs| - 1].hole)
  }

  /** The chunk list with chunk i enlarged by n bytes. */
  function Enlarged(cs: seq<Chunk>, i: nat, n: nat): seq<Chunk>
    requires i < |cs|
  {
    cs[i := cs[i].(size := cs[i].size + n)]
  }

  /** The shape after the heap has grown to make room for a request of `need` bytes. */
  function Grow(st: State, need: nat, b: Build): (r: State)
    requires st.lo <= st.hi && GrowSafe(st)
    ensures r.lo == st.lo && r.max == st.max
    ensures r.hi == st.lo + ExpandedLength(b, st.Length() + need)
  {
    var n := ExpandedLength(b, st.Length() + need);
    var pages := st.pages + PagesUp(st.lo, st.Length(), n);
    if st.ix == [] then
      st.(cs := st.cs + [Chunk(st.hi, n - st.Length(), true)], ix := [st.hi], hi := st.lo + n, pages := pages)
    else
      st.(cs := Enlarged(st.cs, |st.cs| - 1, n - st.Length()), hi := st.lo + n, pages := pages)
  }

  /**
    An ASSERT of expand stops the growth: the new length, a 32-bit sum, is not above the old one (line
    105), or the new end, another, lies beyond max_address (line 113).
  */
  predicate Refused(st: State, need: nat, b: Build)
    requires st.lo <= st.hi
  {
    var n := Wrap(st.Length() + need);
    n <= st.Length() || Wrap(st.lo + ExpandedLength(b, n)) > st.max
  }

  /** No sum of expand wraps, and the new end is within max_address. */
  predicate Room(st: State, need: nat, b: Build)
    requires st.lo <= st.hi
  {
    st.Length() + need < 0x1_0000_0000 && st.lo + ExpandedLength(b, st.Length() + need) <= st.max
  }

  /** With room the heap grows, and nothing wraps. */
  lemma RoomBounds(st: State, need: nat, b: Build)
    requires st.lo <= st.hi && 0 < need
    ensures Room(st, need, b) && st.max < 0x1_0000_0000 ==>
              && !Refused(st, need, b) && Wrap(st.Length() + need) == st.Length() + need
              && var n := ExpandedLength(b, st.Length() + need);
                 st.hi < st.lo + n == Wrap(st.lo + n) <= st.max && Wrap(n) == n
    ensures Room(st, need, b) && GrowSafe(st) ==> st.hi < Grow(st, need, b).hi <= st.max
  {
    hide ExpandedLength;
  }

  /** The outcome of alloc(size, align): take the first hole that fits, or grow and try again. */
  function Alloc(st: State, size: nat, align: bool, b: Build): (r: Outcome)
    requires st.lo <= st.hi
    decreases if st.max > st.hi then st.max - st.hi else 0
  {
    var need := size + OVERHEAD;
    if need >= 0x1_0000_0000 then Broken
    else
      var k := FirstFit(st.cs, st.ix, need, align);
      if k < |st.ix| then Carve(st, k, need, align)
      else if Refused(st, need, b) then Panic
      else if !Room(st, need, b) || !GrowSafe(st) then Broken
      else Alloc(Grow(st, need, b), size, align, b)
  }

  /** Whether chunk i exists and is a hole. */
  predicate HoleAt(cs: seq<Chunk>, i: int) {
    0 <= i < |cs| && cs[i].hole
  }

  /** The hole that freeing the block i makes, joined with the holes on its left and right. */
  function Merged(cs: seq<Chunk>, i: nat): (h: Chunk)
    requires i < |cs|
  {
    var left := if HoleAt(cs, i - 1) then cs[i - 1].size else 0;
    var right := if HoleAt(cs, i + 1) then cs[i + 1].size else 0;
    Chunk(if HoleAt(cs, i - 1) then cs[i - 1].pos else cs[i].pos, left + cs[i].size + right, true)
  }

  function Before(cs: seq<Chunk>, i: nat): seq<Chunk>
    requires i < |cs|
  {
    cs[..if HoleAt(cs, i - 1) then i - 1 else i]
  }

  function After(cs: seq<Chunk>, i: nat): seq<Chunk>
    requires i < |cs|
  {
    cs[if HoleAt(cs, i + 1) then i + 2 else i + 1..]
  }

  /** Position of x in s, or the length of s. */
  function Position(s: seq<nat>, x: nat): (k: nat)
    ensures k <= |s|
    ensures k < |s| ==> s[k] == x
    ensures k == |s| ==> x !in s
  {
    if s == [] || s[0] == x then 0 else 1 + Position(s[1..], x)
  }

  function Without(s: seq<nat>, x: nat): seq<nat> {
    var k := Position(s, x);
    if k < |s| then Removed(s, k) else s
  }

  /** The index with the hole on the right of block i, if any, taken out. */
  function IndexWithoutRight(st: State, i: nat): seq<nat>
    requires i < |st.cs|
  {
    if HoleAt(st.cs, i + 1) then Without(st.ix, st.cs[i + 1].pos) else st.ix
  }

  /** Adds the merged hole h unless it took over a left neighbour that is in the index already. */
  function Reindexed(ix: seq<nat>, h: Chunk, add: bool, cs: seq<Chunk>): seq<nat> {
    if add then Inserted(ix, h.pos, Smaller(cs)) else ix
  }

  /** What is left of the trailing hole h once the heap has been contracted. */
  function Remainder(st: State, h: Chunk, b: Build): int
    requires st.lo <= h.pos
  {
    ContractedLength(b, h.pos - st.lo) - (h.pos - st.lo)
  }

  /** Contraction leaves a trailing hole that can hold its tags or, following the comments, none at all. */
  predicate ContractSafe(st: State, h: Chunk, b: Build)
    requires st.lo <= h.pos
  {
    var left := Remainder(st, h, b);
    left >= OVERHEAD || (b.AsCommented? && left == 0)
  }

  /**
    The outcome of free(p).  `stale` tells whether the bytes just past the end of the heap look
    like the header of a hole, which free would try to join.
  */
  function Free(st: State, p: nat, b: Build, stale: bool): (r: Outcome) {
    var i := Find(st.cs, p - HEADER);
    if p == 0 then Done(0, st)
    else if i == |st.cs| || st.cs[i].hole then Broken
    else if i == |st.cs| - 1 && stale then Panic
    else
      var h := Merged(st.cs, i);
      var add := !HoleAt(st.cs, i - 1);
      var ix := IndexWithoutRight(st, i);
      if h.End() != st.hi then
        var cs := Before(st.cs, i) + [h] + After(st.cs, i);
        if b.AsWritten? && HoleAt(st.cs, i + 1) then Broken
        else Done(0, st.(cs := cs, ix := Reindexed(ix, h, add, cs)))
      else if h.pos < st.lo || !ContractSafe(st, h, b) then Broken
      else
        var n := ContractedLength(b, h.pos - st.lo);
        var left := Remainder(st, h, b);
        var pages := st.pages - PagesDown(st.lo, st.Length() - PAGE, n);
        if left == 0 then
          var rest := if add then ix else Without(ix, h.pos);
          Done(0, st.(cs := Before(st.cs, i), ix := rest, hi := st.lo + n, pages := pages))
        else
          var rest := h.(size := left);
          var cs := Before(st.cs, i) + [rest];
          Done(0, st.(cs := cs, ix := Reindexed(ix, rest, add, cs), hi := st.lo + n, pages := pages))
  }

  /** The shape create_heap leaves: one hole covering [start + index, end). */
  function Created(start: nat, end: nat, max: nat, pages: set<nat>): (st: State)
    requires start + 4 * INDEX_ENTRIES <= end
  {
    var lo := start + 4 * INDEX_ENTRIES;
    State([Chunk(lo, end - lo, true)], [lo], lo, end, max, pages)
  }

  /** What holds of every heap between requests. */
  ghost predicate Inv(st: State) {
    && 4 * INDEX_ENTRIES <= st.lo && st.lo % PAGE == 0 && st.lo + PAGE <= st.hi
    && st.lo + MIN_LENGTH + PAGE <= 0x1_0000_0000
    && st.hi + PAGE <= 0x1_0000_0000 && st.max + PAGE <= 0x1_0000_0000
    && Tiles(st.cs, st.lo, st.hi)
    && Coalesced(st.cs)
    && multiset(st.ix) == multiset(Holes(st.cs))
  }
}
