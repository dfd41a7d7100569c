/**
  The kernel heap (src/kheap.c): boundary tags in byte-addressed memory and an index of holes,
  both updated in place.  The ghost field `cs` is the chunk list that the tags describe.
*/
module KernelHeap {
  import opened Chunks
  import opened Kernel
  import opened Memory
  import opened OrderedArrays
  import opened HeapSpec
  import opened HeapRuns
  import opened HeapTags
  import opened HeapImage
  import opened HeapFree

  class Heap {
    const ram: Ram
    const index: OrderedArray<nat>
    const start: nat
    const max: nat
    var end: nat
    var pages: set<nat>
    ghost var cs: seq<Chunk>

    /** The parts of the heap object are in order and do not overlap. */
    ghost predicate Separate()
      reads ram, ram.cells, index, index.data
    {
      ram.cells as object != index.data && index.Valid() && index.data.Length > 0 && ram.Valid()
    }

    ghost function Shape(): (st: State)
      reads this, index
    {
      State(cs, index.entries, start, end, max, pages)
    }

    /** The shape t has the bounds and the index that the heap now has. */
    ghost predicate Fitted(t: State)
      reads this, index
    {
      t.lo == start && t.hi == end && t.ix == index.entries
    }

    ghost predicate Valid()
      reads this, ram, ram.cells, index, index.data
    {
      Separate() && Describes(Shape(), ram.image)
    }

    /**
      create_heap: clears the memory of the index, and makes one hole of the rest.  The hole has a
      header only.
    */
    constructor (memory: Ram, base: nat, endAddress: nat, maxAddress: nat, backed: set<nat>)
      requires memory.Valid()
      requires base % PAGE == 0 && endAddress % PAGE == 0 && base + 4 * INDEX_ENTRIES < endAddress
      requires base + 4 * INDEX_ENTRIES + MIN_LENGTH + PAGE <= |memory.image|
      requires endAddress + PAGE <= |memory.image| && maxAddress + PAGE <= |memory.image| <= 0x1_0000_0000
               && |memory.image| % PAGE == 0
      modifies memory, memory.cells
      ensures Valid() && ram == memory && fresh(index) && fresh(index.data)
      ensures index.data.Length == INDEX_ENTRIES
      ensures Shape() == Created(base, endAddress, maxAddress, backed)
    {
      hide Describes, WithHeader, Created, SmallerHeader;
      var first := base + 4 * INDEX_ENTRIES;
      ram := memory;
      index := new OrderedArray<nat>(INDEX_ENTRIES, 0);
      start := first;
      end := endAddress;
      max := maxAddress;
      pages := backed;
      cs := [Chunk(first, endAddress - first, true)];
      new;
      ram.Fill(base, 0, 4 * INDEX_ENTRIES);
      ghost var m := ram.image;
      CreatedDescribes(m, base, endAddress, maxAddress, backed);
      PutHeader(first, true, endAddress - first);
      index.Insert(first, SmallerHeader(ram.Bytes()));
      assert index.entries == [first];
      assert Shape() == Created(base, endAddress, maxAddress, backed) by {
        CreatedIs(base, endAddress, maxAddress, backed);
      }
      assert Describes(Shape(), ram.image);
    }

    method PutHeader(a: nat, hole: bool, size: Word)
      requires ram.Valid() && a + HEADER <= |ram.image|
      modifies ram, ram.cells
      ensures ram.Valid() && ram.image == WithHeader(old(ram.image), a, hole, size)
    {
      ram.Store(a, MAGIC);
      ram.StoreByte(a + 4, Flag(hole));
      ram.Store(a + 8, size);
    }

    method PutFooter(a: nat, header: Word)
      requires ram.Valid() && a + FOOTER <= |ram.image|
      modifies ram, ram.cells
      ensures ram.Valid() && ram.image == WithFooter(old(ram.image), a, header)
    {
      ram.Store(a, MAGIC);
      ram.Store(a + 4, header);
    }

    /** Both tags of a chunk, the footer at the address f that the caller has worked out. */
    method PutTags(a: nat, hole: bool, size: Word, f: nat)
      requires ram.Valid() && OVERHEAD <= size && a < 0x1_0000_0000 && a + size <= |ram.image| && f == a + size - FOOTER
      modifies ram, ram.cells
      ensures ram.Valid() && ram.image == WithChunk(old(ram.image), Chunk(a, size, hole))
    {
      PutHeader(a, hole, size);
      PutFooter(f, a);
    }

    /** find_smallest_hole: the position of the first index entry that fits, or -1. */
    method FindSmallestHole(need: Word, align: bool) returns (r: int)
      requires Valid()
      ensures var k := FirstFit(cs, index.entries, need, align);
              r == if k == |index.entries| then -1 else k
    {
      hide Describes, Tiles, Tagged, FirstFit, SizeAt, Peek;
      ghost var st, m := Shape(), ram.image;
      var at := 0;
      var found := false;
      while at < index.size && !found
        invariant at <= index.size
        invariant forall j :: 0 <= j < at ==> !Fits(st.ix[j], Wrap(SizeAt(st.cs, st.ix[j])), need, align)
        invariant found ==> at < index.size && Fits(st.ix[at], Wrap(SizeAt(st.cs, st.ix[at])), need, align)
        decreases index.size - at, !found
      {
        EntryTagged(st, m, at);
        var header := index.Lookup(at);
        var size := ram.Load(header + 8);
        if align {
          var offset := 0;
          if header + HEADER >= PAGE {
            offset := PAGE - (header + HEADER) % PAGE;
          }
          found := Signed(size) - offset >= Signed(need);
        } else {
          found := size >= need;
        }
        if !found {
          at := at + 1;
        }
      }
      FirstFitIs(st.cs, st.ix, need, align, at);
      r := if found then at else -1;
    }

    /** alloc, lines 216-239: a page-aligned block leaves a hole in front; else the hole leaves the index. */
    method TakeFrom(k: nat, align: bool, p: nat, size: Word) returns (pos: nat, left: Word)
      requires Separate() && k < |index.entries| && PAGE <= p && p + PAGE <= |ram.image| <= 0x1_0000_0000
      requires align ==> p % PAGE <= 0xFE0 && FrontSize(p) <= size
      modifies ram, ram.cells, index, index.data
      ensures Separate()
      ensures align ==> pos == p + FrontSize(p) && left == size - FrontSize(p) && index.entries == old(index.entries)
                        && ram.image == WithChunk(old(ram.image), Chunk(p, FrontSize(p), true))
      ensures !align ==> pos == p && left == size && index.entries == Removed(old(index.entries), k)
                         && ram.image == old(ram.image)
    {
      hide WithChunk, Removed;
      if align && p >= PAGE {
        var front;
        pos, front := CutFront(p);
        left := size - front;
      } else {
        index.Remove(k);
        pos, left := p, size;
      }
    }

    /** alloc, lines 221-228: the tags of the hole in front of a page-aligned block. */
    method CutFront(pos: nat) returns (newLocation: nat, front: Word)
      requires ram.Valid() && pos % PAGE <= 0xFE0 && pos + PAGE <= |ram.image| <= 0x1_0000_0000
      modifies ram, ram.cells
      ensures front == PAGE - pos % PAGE - HEADER && newLocation == pos + front
      ensures ram.Valid() && ram.image == WithChunk(old(ram.image), Chunk(pos, front, true))
    {
      newLocation := pos + PAGE - pos % PAGE - HEADER;
      front := PAGE - pos % PAGE - HEADER;
      PutTags(pos, true, front, newLocation - FOOTER);
    }

    /** alloc, lines 240-267: the block's tags, and the tags and the index entry of the hole behind it. */
    method PlaceBlock(pos: nat, size: nat, newSize: Word, holeSize: Word, ghost block: Chunk, ghost behind: seq<Chunk>)
      requires Separate() && newSize == size + OVERHEAD
      requires newSize == holeSize || newSize + OVERHEAD <= holeSize
      requires pos + holeSize <= end <= |ram.image| && end < 0x1_0000_0000
      requires block == Chunk(pos, newSize, false) && behind == Behind(pos, newSize, holeSize)
      requires behind != [] ==> |index.entries| < index.data.Length
      modifies ram, ram.cells, index, index.data
      ensures Separate()
      ensures ram.image == WithOptional(WithChunk(old(ram.image), block), behind)
      ensures index.entries ==
              if behind == [] then old(index.entries)
              else Inserted(old(index.entries), behind[0].pos, SmallerHeader(ram.image))
    {
      hide WithChunk, Inserted;
      PutTags(pos, false, newSize, pos + HEADER + size);
      if Wrap(holeSize as int - newSize) > 0 {
        var tail := pos + HEADER + size + FOOTER;
        var footer := tail + Wrap(holeSize as int - newSize) - FOOTER;
        // The original tests footer < end before it writes the footer; that is always so here.
        assert footer < end;
        PutTags(tail, true, Wrap(holeSize as int - newSize), footer);
        index.Insert(tail, SmallerHeader(ram.Bytes()));
      }
    }

    /** alloc, lines 205-271: cut the hole c at position k of the index into the pieces r. */
    method CutHole(k: nat, need: Word, align: bool, ghost c: Chunk, ghost front: nat, ghost taken: nat, ghost r: Pieces)
      returns (p: nat)
      requires Separate() && k < |index.entries| && index.entries[k] == c.pos
               && HeaderIs(ram.image, c.pos, true, c.size)
      requires OVERHEAD <= need <= c.size && PAGE <= c.pos && c.End() <= end
      requires end + PAGE <= |ram.image| <= 0x1_0000_0000
      requires CutPlan(c, need, align, front, taken, r) && PiecesWritable(|ram.image|, r)
      requires align && r.tail != [] ==> |index.entries| < index.data.Length
      modifies ram, ram.cells, index, index.data
      ensures Separate() && p == c.pos + front + HEADER
      ensures ram.image == WithPieces(old(ram.image), r)
      ensures index.entries == IndexAfterPieces(old(index.entries), k, r, align, ram.image)
    {
      hide WithChunk, WithOptional, Inserted, Removed, SmallerHeader, WithPieces, FrontSize, Peek;
      ghost var m := ram.image;
      PiecesInOrder(m, r);
      var pos := index.Lookup(k);
      var holeSize := ram.Load(pos + 8);
      var size, newSize := need - OVERHEAD, need;
      if Wrap(holeSize as int - newSize) < OVERHEAD {
        size := size + Wrap(holeSize as int - newSize);
        newSize := holeSize;
      }
      assert newSize == taken && size == taken - OVERHEAD;
      pos, holeSize := TakeFrom(k, align, pos, holeSize);
      assert ram.image == WithOptional(m, r.front) by {
        OptionalIs(m, r.front);
      }
      PlaceBlock(pos, size, newSize, holeSize, r.block, r.tail);
      p := pos + HEADER;
    }

    /** The same on the heap as a whole: only the hole c is written to. */
    method TakeHole(k: nat, need: Word, align: bool) returns (p: nat)
      requires Valid() && k < |index.entries| && OVERHEAD <= need
      requires !align ==> need <= SizeAt(cs, index.entries[k])
      requires Carve(Shape(), k, need, align).Done?
      requires |Carve(Shape(), k, need, align).st.ix| <= index.data.Length
      modifies this`cs, ram, ram.cells, index, index.data
      ensures Valid()
      ensures Carve(old(Shape()), k, need, align) == Done(p, Shape())
      ensures BlocksSame(old(cs), old(ram.image), ram.image) && |ram.image| == |old(ram.image)|
    {
      hide Describes, Find, Carve, Inserted, Removed, SizeAt, BlocksSame, WithPieces, CutPlan, HeaderIs,
           IndexAfterPieces, PiecesWritable;
      ghost var st, m := Shape(), ram.image;
      ghost var c, front, taken, r, st' := TakeFacts(st, m, k, need, align);
      p := CutHole(k, need, align, c, front, taken, r);
      cs := st'.cs;
      assert index.entries == st'.ix && ram.image == WithPieces(m, r);
      assert Shape() == st';
      assert Describes(Shape(), ram.image);
    }

    /** expand: asks for frames up to the new end; false when one of its two ASSERTs fails. */
    method Expand(newSize: Word, b: Build) returns (ok: bool)
      requires start <= end
      modifies this`end, this`pages
      ensures ok <==> old(end) - start < newSize && Wrap(start + ExpandedLength(b, newSize)) <= max
      ensures ok ==> end == Wrap(start + ExpandedLength(b, newSize))
      ensures ok ==> pages == old(pages) + PagesUp(start, old(end) - start, Wrap(ExpandedLength(b, newSize)))
      ensures !ok ==> end == old(end) && pages == old(pages)
    {
      if newSize <= end - start {
        return false;
      }
      var n: Word := newSize;
      if b.AsCommented? {
        n := Wrap(RoundUp(n));
      } else if n % 2 == 1 {
        n := n - n % PAGE;
        n := Wrap(n + PAGE);
      }
      WrapTwice(start, ExpandedLength(b, newSize));
      if Wrap(start + n) > max {
        return false;
      }
      var oldSize := end - start;
      var i := oldSize;
      ghost var was := pages;
      while i < n
        invariant oldSize <= i
        invariant was + PagesUp(start, oldSize, n) == pages + PagesUp(start, i, n)
      {
        pages := pages + {(start + i) / PAGE};
        i := i + PAGE;
      }
      end := Wrap(start + n);
      ok := true;
    }

    /** The scan for the endmost header: the position of the largest address in the index, or -1. */
    method Endmost() returns (idx: int)
      requires index.Valid()
      ensures if index.entries == [] then idx == -1
              else 0 <= idx < |index.entries| && index.entries[idx] == Largest(index.entries)
      requires forall x :: x in index.entries ==> 0 < x
    {
      idx := -1;
      var at, value := 0, 0;
      while at < index.size
        invariant at <= index.size
        invariant idx == -1 ==> at == 0 && value == 0
        invariant idx != -1 ==> 0 <= idx < at && index.entries[idx] == value
        invariant forall j :: 0 <= j < at ==> index.entries[j] <= value
      {
        var tmp := index.Lookup(at);
        assert tmp in index.entries;
        if tmp > value {
          value := tmp;
          idx := at;
        }
        at := at + 1;
      }
      if idx != -1 {
        assert value in index.entries;
        assert Largest(index.entries) in index.entries;
      }
    }

    /** alloc, lines 167-201: give the space [oldEnd, oldEnd + n) to the endmost hole, or make it one. */
    method ExtendLast(oldEnd: nat, n: Word, ghost p: nat, ghost size: nat)
      requires Separate() && OVERHEAD <= n && oldEnd + n <= |ram.image| && oldEnd + n < 0x1_0000_0000
      requires forall x :: x in index.entries ==> 0 < x
      requires index.entries != [] ==> p == Largest(index.entries) && OVERHEAD <= size && p + size == oldEnd
      requires index.entries != [] ==> HeaderIs(ram.image, p, true, size)
      modifies ram, ram.cells, index, index.data
      ensures Separate() && ram.image == Extended(old(ram.image), old(index.entries), p, size, oldEnd, n)
      ensures index.entries == if old(index.entries) == [] then [oldEnd] else old(index.entries)
    {
      hide WithChunk, WithFooter, Poke, Peek, Largest, SmallerHeader;
      var idx := Endmost();
      if idx == -1 {
        PutTags(oldEnd, true, n, oldEnd + n - FOOTER);
        index.Insert(oldEnd, SmallerHeader(ram.Bytes()));
      } else {
        var header := index.Lookup(idx);
        var s := ram.Load(header + 8);
        ram.Store(header + 8, s + n);
        PutFooter(header + (s + n) - FOOTER, header);
      }
    }

    /** alloc, lines 161-201: grow the heap. */
    method GrowHeap(need: Word, b: Build) returns (ok: bool)
      requires Valid() && OVERHEAD <= need
      requires !Refused(Shape(), need, b) ==> Room(Shape(), need, b) && GrowSafe(Shape())
      modifies this`cs, this`end, this`pages, ram, ram.cells, index, index.data
      ensures ok <==> !Refused(old(Shape()), need, b)
      ensures ok ==> Valid() && Shape() == Grow(old(Shape()), need, b)
      ensures ok ==> BlocksSame(old(cs), old(ram.image), ram.image) && |ram.image| == |old(ram.image)|
    {
      hide Describes, ExpandedLength, PagesUp, Extended, HeaderIs, Inv, Grow, BlocksSame, Largest;
      ghost var st, m := Shape(), ram.image;
      DescribedBounds(st, m);
      RoomBounds(st, need, b);
      var oldLength, oldEnd := end - start, end;
      ok := Expand(Wrap(oldLength + need), b);
      if !ok {
        return;
      }
      ghost var p, size, st', w := GrowFacts(st, m, need, b);
      var grown := end - start - oldLength;
      assert grown == st'.hi - st.hi && ram.image == m && index.entries == st.ix;
      ExtendLast(oldEnd, grown, p, size);
      cs := st'.cs;
      assert ram.image == w;
      assert index.entries == st'.ix;
      assert Shape() == st';
      assert Describes(Shape(), ram.image);
    }

    /**
      alloc: the outcome is the one the specification gives.  Live blocks keep every byte, and the
      search always finds its way back to the index it started from.
    */
    method Alloc(size: nat, align: bool, b: Build) returns (panicked: bool, p: nat)
      requires Valid() && HeapSpec.Alloc(Shape(), size, align, b) != Broken
      requires var r := HeapSpec.Alloc(Shape(), size, align, b);
               align && r.Done? ==> |r.st.ix| <= index.data.Length
      modifies this`cs, this`end, this`pages, ram, ram.cells, index, index.data
      ensures HeapSpec.Alloc(old(Shape()), size, align, b) == if panicked then Panic else Done(p, Shape())
      ensures !panicked ==> Valid() && BlocksSame(old(cs), old(ram.image), ram.image)
      decreases if max > end then max - end else 0
    {
      hide Describes, FirstFit, Carve, Grow, BlocksSame, ExpandedLength, SizeAt, HeapSpec.Alloc, Tiles, Coalesced,
           Holes, Refused, Room;
      ghost var st, m := Shape(), ram.image;
      DescribedBounds(st, m);
      AllocNeed(st, size, align, b);
      var need := size + OVERHEAD;
      var at := FindSmallestHole(need, align);
      if at == -1 {
        AllocGrows(st, size, align, b);
        var ok := GrowHeap(need, b);
        if !ok {
          return true, 0;
        }
        ghost var r := ram.image;
        RoomBounds(st, need, b);
        panicked, p := Alloc(size, align, b);
        if !panicked {
          DescribedInv(st, m);
          BlocksCarriedOver(st, need, b);
          BlocksSameTrans(st.cs, Grow(st, need, b).cs, m, r, ram.image);
        }
      } else {
        AllocTakes(st, m, size, align, b);
        panicked := false;
        p := TakeHole(at, need, align);
      }
    }

    /** The position of the address x in the index, or the size of the index. */
    method IndexOf(x: nat) returns (at: nat)
      requires index.Valid()
      ensures at == Position(index.entries, x)
    {
      at := 0;
      ghost var rest := index.entries;
      while at < index.size && index.data[at] != x
        invariant at <= index.size
        invariant rest == index.entries[at..] && at + Position(rest, x) == Position(index.entries, x)
      {
        at := at + 1;
        rest := rest[1..];
      }
    }

    /** free, lines 285-301: mark the block as a hole and join it to a hole on its left. */
    method JoinLeft(header: nat, footer: nat, ghost c: Chunk, ghost left: seq<Chunk>) returns (h: nat, add: bool)
      requires ram.Valid() && FOOTER <= header == c.pos && footer == c.End() - FOOTER
               && InARow(|ram.image|, c, left, [])
      requires HeaderIs(ram.image, c.pos, false, c.size)
      requires HoleFooterBelow(ram.image, c.pos) <==> left != []
      requires Peek(ram.image, c.pos - FOOTER) == MAGIC ==> Peek(ram.image, c.pos - 4) < c.pos
      requires left != [] ==>
                 && FooterIs(ram.image, c.pos - FOOTER, left[0].pos)
                 && HeaderIs(ram.image, left[0].pos, true, left[0].size)
      modifies ram, ram.cells
      ensures ram.Valid() && ram.image == LeftMemory(old(ram.image), c, left)
      ensures h == LeftJoined(c, left).pos && (add <==> left == [])
    {
      hide Peek, Poke;
      ghost var m := ram.image;
      ram.StoreByte(header + 4, 1);
      PeekSame(m, ram.image, header - FOOTER);
      PeekSame(m, ram.image, header - 4);
      PeekSame(m, ram.image, header + 8);
      h, add := header, true;
      var magic := ram.Load(header - FOOTER);
      var other := ram.Load(header - 4);
      var joins := false;
      if magic == MAGIC {
        var flag := ram.LoadByte(other + 4);
        joins := flag == 1;
      }
      if joins {
        var cacheSize := ram.Load(header + 8);
        h := other;
        ghost var m1 := ram.image;
        HeaderFrame(m, m1, left[0].pos, true, left[0].size);
        ram.Store(footer + 4, h);
        Poked(m1, footer + 4, h);
        HeaderFrame(m1, ram.image, left[0].pos, true, left[0].size);
        var size := ram.Load(h + 8);
        ram.Store(h + 8, size + cacheSize);
        add := false;
      }
    }

    /**
      free, lines 304-323: join a hole on the right.  Bytes past the end of the heap that look
      like a hole are joined as well, and the search for it in the index then fails an ASSERT.
    */
    method JoinRight(h: nat, footer: nat, b: Build, ghost c: Chunk, ghost right: seq<Chunk>)
      returns (ok: bool, last: nat)
      requires Separate() && h == c.pos && footer == c.End() - FOOTER && InARow(|ram.image|, c, [], right)
      requires c.End() + HEADER <= |ram.image| && HeaderIs(ram.image, c.pos, true, c.size)
      requires right != [] ==>
                 && HoleTagAt(ram.image, c.End()) && HeaderIs(ram.image, c.End(), true, right[0].size)
                 && c.End() in index.entries
      requires right == [] ==> c.End() !in index.entries
      modifies ram, ram.cells, index, index.data
      ensures Separate() && (ok <==> right != [] || !HoleTagAt(old(ram.image), c.End()))
      ensures ok ==>
                && ram.image == RightMemory(old(ram.image), c, right, b)
                && last == RightJoined(c, right).End() - FOOTER
      ensures ok ==> index.entries ==
                     if right == [] then old(index.entries) else Without(old(index.entries), right[0].pos)
    {
      hide Peek, Poke, Removed;
      var test := footer + FOOTER;
      ok, last := true, footer;
      var magic := ram.Load(test);
      var flag := ram.LoadByte(test + 4);
      if magic == MAGIC && flag != 0 {
        var size := ram.Load(test + 8);
        var own := ram.Load(h + 8);
        ram.Store(h + 8, Wrap(own + size));
        last := test + size - FOOTER;
        var at := IndexOf(test);
        if at == index.size {
          return false, last;
        }
        index.Remove(at);
        if b.AsCommented? {
          ram.Store(last + 4, h);
        }
      }
    }

    /** The heap, whose end and pages were these, has been contracted to offset `off`. */
    ghost predicate Contracted(was: nat, backed: set<nat>, off: nat, b: Build)
      reads this`end, this`pages
    {
      end == start + ContractedLength(b, off)
      && pages == backed - PagesDown(start, was - start - PAGE, ContractedLength(b, off))
    }

    /** contract: gives frames back down to the new end. */
    method Contract(newSize: nat, b: Build) returns (n: nat)
      requires start <= end && newSize < end - start
      modifies this`end, this`pages
      ensures end == start + n && Contracted(old(end), old(pages), newSize, b)
    {
      n := newSize;
      if b.AsCommented? {
        n := RoundUp(n);
      } else if n / 0x1000 % 2 == 1 {
        n := 0x1000 + 0x1000;
      }
      if n < MIN_LENGTH {
        n := MIN_LENGTH;
      }
      var i: int := end - start - PAGE;
      ghost var gone := PagesDown(start, i, n);
      while n < i
        invariant pages - PagesDown(start, i, n) == old(pages) - gone
        decreases i
      {
        pages := pages - {(start + i) / PAGE};
        i := i - PAGE;
      }
      end := start + n;
    }

    /** free, lines 329-356: contract the heap, and resize its last hole c or drop it. */
    method Shrink(h: nat, add: bool, test: nat, b: Build, ghost c: Chunk) returns (stillAdd: bool)
      requires Separate() && start <= h == c.pos && OVERHEAD <= c.size && c.End() == end
      requires end + PAGE <= |ram.image| <= 0x1_0000_0000 && |ram.image| % PAGE == 0 && start % PAGE == 0
      requires start + MIN_LENGTH + PAGE <= |ram.image| && HeaderIs(ram.image, c.pos, true, c.size)
      modifies this`end, this`pages, ram, ram.cells, index, index.data
      ensures Separate() && |ram.image| == |old(ram.image)|
      ensures Contracted(old(end), old(pages), h - start, b)
      ensures var left := end - h;
              && index.entries == (if left == 0 then Without(old(index.entries), if b.AsCommented? then h else test)
                                   else old(index.entries))
              && (stillAdd <==> add && !(b.AsCommented? && left == 0))
              && (left == 0 || OVERHEAD <= left ==> ram.image == ShrunkMemory(old(ram.image), c, left))
    {
      hide Peek, Poke, WithFooter, Removed, ContractedLength, PagesDown;
      ContractedWithin(b, start, h, end, |ram.image|);
      var oldLength := end - start;
      var newLength := Contract(h - start, b);
      stillAdd := add;
      var size := ram.Load(h + 8);
      ghost var left := end - h;
      assert size as int - (oldLength - newLength) == left;
      if Wrap(size as int - (oldLength - newLength)) > 0 {
        ram.Store(h + 8, Wrap(size as int - (oldLength - newLength)));
        var footer := Wrap(h + Wrap(size as int - (oldLength - newLength)) - FOOTER);
        assert footer == h + left - FOOTER;
        PutFooter(footer, h);
      } else {
        // The original looks for test_header here; its comment speaks of the hole itself, which
        // then must not be put back into the index either.
        var at := IndexOf(if b.AsCommented? then h else test);
        if at < index.size {
          index.Remove(at);
        }
        if b.AsCommented? {
          stillAdd := false;
        }
      }
    }

    /** free, lines 285-323: the neighbours joined; false when an ASSERT fails. */
    method JoinNeighbours(p: nat, b: Build) returns (ok: bool, h: nat, footer: nat, test: nat, add: bool)
      requires Valid() && Live(Shape(), p)
      modifies ram, ram.cells, index, index.data
      ensures Separate() && |ram.image| == |old(ram.image)|
      ensures var st, m, i := old(Shape()), old(ram.image), Find(old(cs), p - HEADER);
              && ok == !(i + 1 == |st.cs| && HoleTagAt(m, st.hi))
              && (ok ==>
                    && h == Merged(st.cs, i).pos && footer == Merged(st.cs, i).End() - FOOTER && test == st.cs[i].End()
                    && add == !HoleAt(st.cs, i as int - 1)
                    && InARow(|m|, st.cs[i], ChunkIf(st.cs, i as int - 1), ChunkIf(st.cs, i + 1))
                    && ram.image == JoinedMemory(m, st.cs[i], ChunkIf(st.cs, i as int - 1), ChunkIf(st.cs, i + 1), b)
                    && index.entries == IndexWithoutRight(st, i))
    {
      hide Describes, Live, LeftMemory, RightMemory, Peek, Without, HeaderIs, FooterIs, Find, HoleTagAt,
           HoleFooterBelow;
      ghost var st, m := Shape(), ram.image;
      ghost var i, c, left, right := FreePlan(st, m, p);
      RightUnchanged(st, m, p);
      DescribedBounds(st, m);
      MergedIs(st.cs, i);
      HeaderHasSize(m, c.pos, false, c.size);
      var header := p - HEADER;
      var size := ram.Load(header + 8);
      footer := header + size - FOOTER;
      test := footer + FOOTER;
      h, add := JoinLeft(header, footer, c, left);
      ok, footer := JoinRight(h, footer, b, LeftJoined(c, left), right);
    }

    /**
      free.  The outcome is the one the specification gives, other live blocks keep every byte,
      and when the specification calls the outcome Broken then no chunk list whatever fits the
      memory, the bounds and the index that are left behind.  Either way the heap contracts just when
      the merged hole ends it.
    */
    method Free(p: nat, b: Build) returns (panicked: bool)
      requires Valid() && (p == 0 || Live(Shape(), p))
      requires p != 0 && AddsEntry(Shape(), p, b, HoleTagAt(ram.image, end)) ==> |index.entries| < index.data.Length
      modifies this`cs, this`end, this`pages, ram, ram.cells, index, index.data
      ensures p == 0 ==> !panicked && Valid() && Shape() == old(Shape()) && ram.image == old(ram.image)
      ensures p != 0 ==>
                var r := HeapSpec.Free(old(Shape()), p, b, HoleTagAt(old(ram.image), old(end)));
                && (panicked <==> r.Panic?)
                && (r.Done? ==>
                      && Valid() && Shape() == r.st
                      && OthersSame(old(cs), Owner(old(Shape()), p), old(ram.image), ram.image))
                && (r.Broken? ==>
                      forall t: State :: Fitted(t) ==> !Describes(t, ram.image))
      ensures p != 0 && !panicked ==>
                var h := Merged(old(cs), Find(old(cs), p - HEADER));
                if h.End() == old(end) then start <= h.pos && Contracted(old(end), old(pages), h.pos - start, b)
                else end == old(end) && pages == old(pages)
    {
      hide Describes, Find, HoleTagAt, JoinedMemory, IndexWithoutRight, OthersSame, HeapSpec.Free, Inserted,
           ShrunkMemory, PagesDown,
           HeaderIs, Without, ContractedLength, Reinserted, Merged, HoleAt;
      if p == 0 {
        return false;
      }
      ghost var st, m := Shape(), ram.image;
      DescribedBounds(st, m);
      ghost var stale := HoleTagAt(m, end);
      PanicsWhen(st, p, b, stale);
      var ok, h, footer, test, add := JoinNeighbours(p, b);
      if !ok {
        return true;
      }
      panicked := false;
      LiveBlock(st, p);
      RoomForEntry(st, m, p, b, stale, index.data.Length);
      if footer + FOOTER == end {
        FreeLast(h, test, add, b, st, m, p);
      } else {
        ghost var r, w, c := InnerEnds(st, m, p, b, stale);
        Reindex(h, add);
        if r.Done? {
          cs := r.st.cs;
          assert ram.image == w;
          assert index.entries == r.st.ix;
          assert Shape() == r.st;
          assert Describes(Shape(), ram.image);
        }
      }
    }

    /** free, lines 325-362, when the merged hole ends the heap. */
    method FreeLast(h: nat, test: nat, add: bool, b: Build, ghost st: State, ghost m: seq<Byte>, ghost p: nat)
      requires Separate() && Shape() == st.(ix := index.entries) && Describes(st, m) && Live(st, p)
               && |ram.image| == |m|
      requires var i := Find(st.cs, p - HEADER);
               && Merged(st.cs, i).End() == st.hi && h == Merged(st.cs, i).pos && test == st.cs[i].End()
               && add == !HoleAt(st.cs, i as int - 1)
               && InARow(|m|, st.cs[i], ChunkIf(st.cs, i as int - 1), ChunkIf(st.cs, i + 1))
               && ram.image == JoinedMemory(m, st.cs[i], ChunkIf(st.cs, i as int - 1), ChunkIf(st.cs, i + 1), b)
               && index.entries == IndexWithoutRight(st, i)
      requires add && !Vanishes(st, Merged(st.cs, Find(st.cs, p - HEADER)), b) ==> |index.entries| < index.data.Length
      modifies this`cs, this`end, this`pages, ram, ram.cells, index, index.data
      ensures var r := HeapSpec.Free(st, p, b, false);
              && !r.Panic?
              && (r.Done? ==> Valid() && Shape() == r.st && OthersSame(st.cs, Owner(st, p), m, ram.image))
              && (r.Broken? ==>
                    forall t: State :: Fitted(t) ==> !Describes(t, ram.image))
      ensures start <= h && Contracted(st.hi, st.pages, h - start, b)
    {
      hide Describes, Find, JoinedMemory, IndexWithoutRight, OthersSame, HeapSpec.Free, Inserted, ShrunkMemory,
           PagesDown,
           HeaderIs, Without, ContractedLength, Reinserted, Merged, HoleAt, Live;
      DescribedBounds(st, m);
      StartAligned(st, m);
      ghost var r, w, c := TrailingEnds(st, m, p, b);
      ghost var ix := index.entries;
      var still := Shrink(h, add, test, b, c);
      AfterShrink(ix, c.pos, test, add, b, end - h, index.entries);
      Reindex(h, still);
      if r.Done? {
        cs := r.st.cs;
        assert ram.image == ShrunkMemory(w, c, end - h);
        assert index.entries == r.st.ix;
        assert Shape() == r.st;
        assert Describes(Shape(), ram.image);
      } else {
        assert c.pos in index.entries;
      }
    }

    /** free, lines 358-362 */
    method Reindex(h: nat, add: bool)
      requires Separate() && (add ==> |index.entries| < index.data.Length)
      modifies index, index.data
      ensures Separate() && index.entries == Reinserted(old(index.entries), h, add, ram.image)
    {
      if add {
        index.Insert(h, SmallerHeader(ram.Bytes()));
      }
    }
  }
}
