/** Frames, page tables and directories as they are updated in place (src/page.c). */
module Paging {
  import opened Kernel
  import opened Memory
  import opened Frames
  import opened PageWorld
  import opened PageIsolation
  import opened PageClone
  import opened Physical

  /** sizeof(page_table_t), an array of entries, and of page_directory_t, two arrays of words and a word. */
  const TABLE_SIZE := 4 * ENTRIES
  const DIRECTORY_SIZE := 2 * 4 * ENTRIES + 4

  /** Why an operation did not finish: PANIC("No free frames!"), or kmalloc returned the null pointer. */
  datatype Fault = Fine | NoFrames | NoMemory

  /** The tables differ in entry j of table t at most. */
  ghost predicate OnlyEntry(was: map<nat, Table>, now: map<nat, Table>, t: nat, j: nat) {
    && now.Keys == was.Keys && t in was && t in now && |now[t]| == |was[t]| && j < |was[t]|
    && (forall k :: 0 <= k < |was[t]| && k != j ==> now[t][k] == was[t][k])
    && (forall u :: u in was && u != t ==> now[u] == was[u])
  }

  /** The access of entry q, which was p: as asked if p had no frame, else as it was. */
  predicate Accessible(p: Page, q: Page, isKernel: bool, isWriteable: bool) {
    if p.frame != 0 then q == p
    else
      && q.present && (q.rw <==> isWriteable) && (q.user <==> !isKernel)
      && q.accessed == p.accessed && q.dirty == p.dirty
  }

  function PageAligned(a: nat): (r: nat)
    ensures r % PAGE == 0 && a <= r < a + PAGE
  {
    if a % PAGE == 0 then a else a - a % PAGE + PAGE
  }

  lemma TableAfter(a: nat)
    ensures PageAligned(PageAligned(a) + TABLE_SIZE) == PageAligned(a) + TABLE_SIZE
  {
  }

  class Mmu {
    const frameMap: FrameMap
    const memory: PhysicalMemory
    var tables: map<nat, Table>
    var dirs: map<nat, Directory>
    const master: nat
    var placement: Word

    ghost function Now(): (w: World)
      reads this, frameMap.frames, memory
    {
      World(frameMap.Frames(), frameMap.nframes, tables, dirs, master, memory.image)
    }

    ghost predicate Valid()
      reads this, frameMap.frames, memory, memory.words
    {
      && frameMap.Valid() && memory.Valid() && placement > 0
      && Inv(Now())
      && (forall t :: t in tables ==> t < placement)
      && (forall d :: d in dirs ==> d < placement)
    }

    /** The stated starting point: only frame 0 is taken, and the master directory at `at` is empty. */
    constructor (words: nat, at: Word)
      requires 0 < words && 32 * words <= 0x10_0000
      requires 0 < at && at + DIRECTORY_SIZE < 0x1_0000_0000
      ensures Valid() && fresh(frameMap.frames) && fresh(memory) && fresh(memory.words)
      ensures master == at && Now().used == {0} && Accounted(Now()) && Exclusive(Now())
              && frameMap.nframes == 32 * words
    {
      var f := new FrameMap(seq(words, _ => AllBits(false)), AsCommented);
      f.SetFrame(0);
      var m := new PhysicalMemory(32 * words);
      frameMap := f;
      memory := m;
      tables := map[];
      dirs := map[at := NoTables()];
      master := at;
      placement := at + DIRECTORY_SIZE;
    }

    /**
      kmalloc_ap before the kernel heap exists: the next page boundary.  Addresses are 32 bits wide,
      so rounding up may wrap to 0, which callers take for the null pointer, as they do the 0
      returned when the block would pass the end of the address space.
    */
    method KmallocAp(size: Word) returns (r: Option<Word>)
      requires placement > 0 && size > 0
      modifies this`placement
      ensures r.None? <==> PageAligned(old(placement)) + size >= 0x1_0000_0000
      ensures r.Some? ==> r.value == PageAligned(old(placement)) && placement == r.value + size
    {
      if placement % PAGE != 0 {
        placement := placement - placement % PAGE;
        placement := Wrap(placement + PAGE);
      }
      var tmp := placement;
      if Wrap(placement + size) < placement {
        return None;
      }
      placement := Wrap(placement + size);
      r := if tmp == 0 then None else Some(tmp);
    }

    /** The entry gets the lowest free frame unless it has one; without a free frame the kernel stops. */
    method AllocFrame(t: nat, j: nat, isKernel: bool, isWriteable: bool) returns (fault: Fault)
      requires Valid() && t in tables && j < ENTRIES
      modifies this`tables, frameMap.frames
      ensures fault != NoMemory
      ensures fault == NoFrames <==>
              old(tables[t][j].frame) == 0 && forall f: nat :: f < frameMap.nframes ==> f in old(frameMap.Frames())
      ensures fault == NoFrames ==> Now() == old(Now())
      ensures fault == Fine ==>
                && OnlyEntry(old(tables), tables, t, j)
                && Accessible(old(tables[t][j]), tables[t][j], isKernel, isWriteable)
      ensures fault == Fine ==>
                && Valid() && t in tables && |tables[t]| == ENTRIES
                && var f := tables[t][j].frame;
                   Now() == WithFrame(old(Now()), t, j, f, isKernel, isWriteable)
                   && (old(tables[t][j].frame) == 0 ==>
                         f < frameMap.nframes && f !in old(frameMap.Frames())
                         && forall g: nat :: g < f ==> g in old(frameMap.Frames()))
    {
      ghost var w := Now();
      assert |tables[t]| == ENTRIES;
      var page := tables[t][j];
      if page.frame != 0 {
        return Fine;
      }
      var idx := frameMap.FirstFrame();
      assert frameMap.Frames() == w.used;
      if idx == NONE {
        return NoFrames;
      }
      frameMap.SetFrame(idx * 0x1000);
      assert idx * 0x1000 / PAGE == idx;
      tables := tables[t := tables[t][j := page.(present := true, rw := isWriteable, user := !isKernel, frame := idx)]];
      WithFrameKeeps(w, t, j, idx, isKernel, isWriteable);
      assert Now() == WithFrame(w, t, j, idx, isKernel, isWriteable);
      return Fine;
    }

    /** free_frame; see FreeUndoesAlloc for what each build gives back. */
    method FreeFrame(t: nat, j: nat, b: Build)
      requires Valid() && t in tables && j < ENTRIES
      modifies this`tables, frameMap.frames
      ensures |old(tables[t])| == ENTRIES && Now() == WithoutFrame(old(Now()), t, j, b)
      ensures OnlyEntry(old(tables), tables, t, j) && tables[t][j] == old(tables[t][j]).(frame := 0)
      ensures b.AsCommented? ==> (Valid() <==> Releasable(old(Now()), t, j))
    {
      ghost var w := Now();
      assert |tables[t]| == ENTRIES;
      var frame := tables[t][j].frame;
      if frame == 0 {
        return;
      }
      assert frame in w.used;
      frameMap.ClearFrame(if b.AsCommented? then frame * 0x1000 else frame);
      tables := tables[t := tables[t][j := tables[t][j].(frame := 0)]];
      assert Now() == WithoutFrame(w, t, j, b);
      if b.AsCommented? {
        WithoutFrameKeeps(w, t, j);
      }
    }

    /**
      get_page: the table and the index of the entry for va.  `contents` is what the memory of a new
      table holds; the original does not clear it (src/page.c:277).
    */
    method GetPage(va: Word, make: bool, d: nat, contents: Table) returns (r: Option<(nat, nat)>, fault: Fault)
      requires Valid() && d in dirs && |contents| == ENTRIES
      modifies this`tables, this`dirs, this`placement
      ensures fault == NoMemory <==>
                make && old(dirs[d])[TableIndex(va)].None? && PageAligned(old(placement)) + TABLE_SIZE >= 0x1_0000_0000
      ensures fault != NoFrames
      ensures fault == Fine && r.None? ==> !make && old(dirs[d])[TableIndex(va)].None? && Now() == old(Now())
      ensures fault == Fine && r.Some? ==>
                && Now() == WithTable(old(Now()), d, va, r.value.0, contents)
                && r.value.0 in tables && dirs[d][TableIndex(va)] == Some(r.value.0) && r.value.1 == PageIndex(va)
                && (old(dirs[d])[TableIndex(va)].None? ==> make && r.value.0 !in old(tables))
      ensures fault == Fine && (contents == Zeroed() || old(dirs[d])[TableIndex(va)].Some?) ==> Valid()
    {
      ghost var w := Now();
      fault := Fine;
      var address := va / 0x1000;
      var tableIdx := address / 1024;
      if dirs[d][tableIdx].Some? {
        r := Some((dirs[d][tableIdx].value, address % 1024));
      } else if make {
        var p := KmallocAp(TABLE_SIZE);
        if p.None? {
          return None, NoMemory;
        }
        var t := p.value;
        tables := tables[t := contents];
        dirs := dirs[d := dirs[d][tableIdx := Some(t)]];
        r := Some((t, address % 1024));
        assert Now() == WithTable(w, d, va, t, contents);
        if contents == Zeroed() {
          WithTableKeeps(w, d, va, t);
        }
      } else {
        r := None;
      }
    }

    static method CopyFlags(p: Page, to: Page) returns (q: Page)
      ensures q == Page(p.present || to.present, p.rw || to.rw, p.user || to.user,
                        p.accessed || to.accessed, p.dirty || to.dirty, to.frame)
    {
      q := to;
      if p.present { q := q.(present := true); }
      if p.rw { q := q.(rw := true); }
      if p.user { q := q.(user := true); }
      if p.accessed { q := q.(accessed := true); }
      if p.dirty { q := q.(dirty := true); }
    }

    /** The entry of a cloned page p: alloc_frame with neither flag, then the flags of the source. */
    method CloneEntry(p: Page, t: nat, i: nat) returns (f: nat, fault: Fault)
      requires Valid() && t in tables && i < ENTRIES && tables[t][i] == EMPTY
      modifies this`tables, frameMap.frames
      ensures fault != NoMemory
      ensures fault == NoFrames ==> forall g: nat :: g < frameMap.nframes ==> g in frameMap.Frames()
      ensures fault == Fine ==>
                && f < frameMap.nframes && f !in old(frameMap.Frames())
                && frameMap.Frames() == old(frameMap.Frames()) + {f}
                && tables == old(tables)[t := old(tables[t])[i := ClonedPage(p, f)]]
    {
      hide Inv, OnlyEntry, Accessible;
      ghost var r := Now();
      fault := AllocFrame(t, i, false, false);
      if fault != Fine {
        return 0, fault;
      }
      f := tables[t][i].frame;
      assert Now() == WithFrame(r, t, i, f, false, false);
      var q := CopyFlags(p, tables[t][i]);
      assert q == ClonedPage(p, f);
      assert tables[t][i := q] == r.tables[t][i := q];
      tables := tables[t := tables[t][i := q]];
    }

    /** The next entry of a cloned table, and the words of its frame. */
    method ClonePage(s: nat, t: nat, i: nat, ghost w: World) returns (fault: Fault)
      requires Valid() && i < ENTRIES && TableInProgress(w, Now(), s, t, i) && w.tables[s][i].frame != 0
      modifies this`tables, frameMap.frames, memory, memory.words
      ensures fault != NoMemory
      ensures fault == NoFrames ==> forall f: nat :: f < frameMap.nframes ==> f in frameMap.Frames()
      ensures fault == Fine ==> Valid() && TableInProgress(w, Now(), s, t, i + 1)
    {
      hide Inv, Kept, EntryCloned, FrameWords, Copied, NewFramesReferred;
      ghost var r := Now();
      SourceKept(w, r, s, t, i);
      var p := tables[s][i];
      var f;
      f, fault := CloneEntry(p, t, i);
      if fault != Fine {
        return;
      }
      memory.CopyPagePhysical(p.frame * 0x1000, f * 0x1000);
      TableStep(w, r, s, t, i, f, memory.image);
      assert Now() == r.(used := r.used + {f}, tables := tables, phys := memory.image);
    }

    method ClonePageTable(s: nat) returns (t: nat, fault: Fault)
      requires Valid() && s in tables
      modifies this`tables, this`placement, frameMap.frames, memory, memory.words
      ensures fault == NoFrames ==> forall f: nat :: f < frameMap.nframes ==> f in frameMap.Frames()
      ensures fault == NoMemory <==> PageAligned(old(placement)) + TABLE_SIZE >= 0x1_0000_0000
      ensures fault != NoMemory ==> placement == PageAligned(old(placement)) + TABLE_SIZE
      ensures fault == Fine ==> Valid() && TableInProgress(old(Now()), Now(), s, t, ENTRIES)
    {
      ghost var w := Now();
      var p := KmallocAp(TABLE_SIZE);
      if p.None? {
        return 0, NoMemory;
      }
      t, fault := p.value, Fine;
      tables := tables[t := Zeroed()];
      TableBegun(w, s, t);
      for i := 0 to 1024
        invariant fault == Fine && Valid() && TableInProgress(w, Now(), s, t, i)
        invariant frameMap.nframes == w.nframes && placement == t + TABLE_SIZE
      {
        if tables[s][i].frame != 0 {
          fault := ClonePage(s, t, i, w);
          if fault != Fine {
            return;
          }
        } else {
          TableSkip(w, Now(), s, t, i);
        }
      }
    }

    /**
      clone_page_directory: share the master's tables, copy the others.  The result is a Cloned
      directory, no frame is missing unless every frame is taken, and memory is missing only when the
      directory and one table for each that is copied do not fit below the end of the address space.
    */
    method CloneDirectory(d: nat) returns (c: nat, fault: Fault)
      requires Valid() && d in dirs
      modifies this`tables, this`dirs, this`placement, frameMap.frames, memory, memory.words
      ensures fault == NoFrames ==> forall f: nat :: f < frameMap.nframes ==> f in frameMap.Frames()
      ensures fault == NoMemory ==> !ClonePlaced(old(Now()), old(placement), d)
      ensures fault == Fine ==>
                Valid() && Cloned(old(Now()), Now(), d, c) && ClonePlaced(old(Now()), old(placement), d)
    {
      hide DirectoryInProgress, SlotCloned, Kept, NewFramesReferred, Owned, Unshared, Copies, CopiedSlot, Cloned,
           PageAligned, Formed;
      ghost var w := Now();
      CopiesGrow(w, d, 0, ENTRIES);
      var p := KmallocAp(DIRECTORY_SIZE);
      if p.None? {
        return 0, NoMemory;
      }
      c, fault := p.value, Fine;
      dirs := dirs[c := NoTables()];
      DirectoryBegun(w, d, c);
      ghost var first := PageAligned(placement);
      for i := 0 to 1024
        invariant fault == Fine && Valid() && DirectoryInProgress(w, Now(), d, c, i)
        invariant PageAligned(placement) == first + Copies(w, d, i) * TABLE_SIZE
        invariant Copies(w, d, i) > 0 ==> first + Copies(w, d, i) * TABLE_SIZE < 0x1_0000_0000
      {
        CopiesGrow(w, d, i, ENTRIES);
        CopiesGrow(w, d, i + 1, ENTRIES);
        TableAfter(placement);
        fault := CloneSlot(d, c, i, w);
        if fault != Fine {
          return;
        }
      }
      DirectoryDone(w, Now(), d, c);
    }

    /** A directory and the tables that a clone of d copies lie below the end of the address space. */
    static ghost predicate ClonePlaced(w: World, from: nat, d: nat)
      requires Formed(w) && d in w.dirs
    {
      && PageAligned(from) + DIRECTORY_SIZE < 0x1_0000_0000
      && var n := Copies(w, d, ENTRIES);
         n > 0 ==> PageAligned(PageAligned(from) + DIRECTORY_SIZE) + n * TABLE_SIZE < 0x1_0000_0000
    }

    /** One slot: nothing, the master's table, or a copy in a new table. */
    method CloneSlot(d: nat, c: nat, i: nat, ghost w: World) returns (fault: Fault)
      requires Valid() && i < ENTRIES && DirectoryInProgress(w, Now(), d, c, i)
      modifies this`tables, this`dirs, this`placement, frameMap.frames, memory, memory.words
      ensures fault == NoFrames ==> forall f: nat :: f < frameMap.nframes ==> f in frameMap.Frames()
      ensures fault == NoMemory <==> CopiedSlot(w, d, i) && PageAligned(old(placement)) + TABLE_SIZE >= 0x1_0000_0000
      ensures fault == Fine ==>
                placement == if CopiedSlot(w, d, i) then PageAligned(old(placement)) + TABLE_SIZE else old(placement)
      ensures fault == Fine ==> Valid() && DirectoryInProgress(w, Now(), d, c, i + 1)
    {
      hide Inv, Kept, SlotCloned, NewFramesReferred;
      ghost var r := Now();
      SlotSource(w, r, d, c, i);
      fault := Fine;
      if dirs[d][i].None? {
        SlotSkipped(w, r, d, c, i);
      } else if dirs[master][i] == dirs[d][i] {
        SlotShared(w, r, d, c, i);
        dirs := dirs[c := dirs[c][i := dirs[d][i]]];
        assert Now() == r.(dirs := dirs);
      } else {
        fault := CopySlot(d, c, i, w);
      }
    }

    method CopySlot(d: nat, c: nat, i: nat, ghost w: World) returns (fault: Fault)
      requires Valid() && i < ENTRIES && DirectoryInProgress(w, Now(), d, c, i) && CopiedSlot(w, d, i)
      modifies this`tables, this`dirs, this`placement, frameMap.frames, memory, memory.words
      ensures fault == NoFrames ==> forall f: nat :: f < frameMap.nframes ==> f in frameMap.Frames()
      ensures fault == NoMemory <==> PageAligned(old(placement)) + TABLE_SIZE >= 0x1_0000_0000
      ensures fault == Fine ==> placement == PageAligned(old(placement)) + TABLE_SIZE
      ensures fault == Fine ==> Valid() && DirectoryInProgress(w, Now(), d, c, i + 1)
    {
      hide Inv, TableInProgress, Kept, SlotCloned, TableCloned, NewFramesReferred;
      ghost var r := Now();
      SlotSource(w, r, d, c, i);
      var s := dirs[d][i].value;
      var t;
      t, fault := ClonePageTable(s);
      if fault == Fine {
        ghost var z := Now();
        TableFinished(w, r, d, c, i, z, s, t);
        SlotSource(w, z, d, c, i);
        SlotCopied(w, z, d, c, i, s, t);
        dirs := dirs[c := dirs[c][i := Some(t)]];
        assert Now() == z.(dirs := dirs);
      }
    }
  }
}
