/**
  Address spaces as values: page tables, directories that refer to them by address, the used
  frames, and the words of physical memory (src/page.c, src/include/paging.h).
*/
module PageWorld {
  import opened Memory
  import opened Kernel

  const ENTRIES := 1024

  datatype Page = Page(present: bool, rw: bool, user: bool, accessed: bool, dirty: bool, frame: nat)

  const EMPTY := Page(false, false, false, false, false, 0)

  type Table = seq<Page>

  type Directory = seq<Option<nat>>

  datatype World = World(used: set<nat>, nframes: nat, tables: map<nat, Table>, dirs: map<nat, Directory>,
                         master: nat, phys: seq<Word>)

  /** The words of frame f. */
  function FrameWords(phys: seq<Word>, f: nat): (ws: seq<Word>)
    requires ENTRIES * (f + 1) <= |phys|
  {
    phys[ENTRIES * f..ENTRIES * (f + 1)]
  }

  /** Tables and directories are whole, refer to what exists, and use frames whose bits are set. */
  ghost predicate Formed(w: World) {
    && |w.phys| == ENTRIES * w.nframes && w.nframes <= 0x10_0000
    && 0 in w.used && (forall f :: f in w.used ==> f < w.nframes)
    && w.master in w.dirs
    && (forall t :: t in w.tables ==> TableFormed(w.tables[t], w.used))
    && (forall d :: d in w.dirs ==>
                      && |w.dirs[d]| == ENTRIES
                      && forall i :: 0 <= i < ENTRIES && w.dirs[d][i].Some? ==> w.dirs[d][i].value in w.tables)
  }

  ghost predicate TableFormed(t: Table, used: set<nat>) {
    |t| == ENTRIES && forall i :: 0 <= i < ENTRIES ==> t[i].frame in used
  }

  /** The table does not belong to the master directory, with which every directory may share. */
  ghost predicate Private(w: World, t: nat)
    requires w.master in w.dirs
  {
    Some(t) !in w.dirs[w.master]
  }

  /** A frame that a private table refers to is referred to by nothing else. */
  ghost predicate Owned(w: World)
    requires Formed(w)
  {
    forall t, i, u, j :: t in w.tables && u in w.tables && 0 <= i < ENTRIES && 0 <= j < ENTRIES && Private(w, t)
                         && w.tables[t][i].frame != 0 && w.tables[t][i].frame == w.tables[u][j].frame
                         ==> t == u && i == j
  }

  /** A table hangs at one index only, and a private one in one directory only. */
  ghost predicate Unshared(w: World)
    requires Formed(w)
  {
    forall d, i, e, j :: d in w.dirs && e in w.dirs && 0 <= i < ENTRIES && 0 <= j < ENTRIES
                         && w.dirs[d][i].Some? && w.dirs[d][i] == w.dirs[e][j]
                         ==> i == j && (Private(w, w.dirs[d][i].value) ==> d == e)
  }

  ghost predicate Inv(w: World) {
    Formed(w) && Owned(w) && Unshared(w)
  }

  // ---------- translation ----------

  function TableIndex(va: nat): (i: nat) {
    va / PAGE / ENTRIES
  }

  function PageIndex(va: nat): (i: nat)
    ensures i < ENTRIES
  {
    va / PAGE % ENTRIES
  }

  /** virtual_address_to_physical; the shifts and masks of an unsigned number are quotients and remainders. */
  function Translate(w: World, d: nat, va: Word): (pa: int)
    requires Formed(w) && d in w.dirs
    ensures pa == -1 || 0 <= pa < PAGE * w.nframes
  {
    var offset := va % 0x1000;
    var tableIdx := va / 0x40_0000;
    var pageIdx := va / 0x1000 % 0x400;
    match w.dirs[d][tableIdx]
    case None => -1
    case Some(t) =>
      var page := w.tables[t][pageIdx];
      if page.frame == 0 then -1
      else
        assert page.frame in w.used;
        page.frame * 0x1000 + offset
  }

  /** The index of get_page is the index of virtual_address_to_physical. */
  lemma IndexesAgree(va: Word)
    ensures TableIndex(va) == va / 0x40_0000 < ENTRIES
    ensures PageIndex(va) == va / 0x1000 % 0x400
  {
  }

  /** The word that a read at va through directory d returns. */
  function Read(w: World, d: nat, va: Word): (r: Option<Word>)
    requires Formed(w) && d in w.dirs
  {
    var pa := Translate(w, d, va);
    if pa == -1 then None else Some(w.phys[pa / 4])
  }

  lemma ReadsFrame(w: World, d: nat, va: Word)
    requires Formed(w) && d in w.dirs && Translate(w, d, va) != -1
    ensures var f := Translate(w, d, va) / PAGE;
            && f < w.nframes
            && Read(w, d, va) == Some(FrameWords(w.phys, f)[va % PAGE / 4])
  {
    var pa := Translate(w, d, va);
    var f := pa / PAGE;
    assert pa == f * PAGE + va % PAGE;
    assert pa / 4 == ENTRIES * f + va % PAGE / 4;
  }

  // ---------- what allocation and cloning leave as it was ----------

  /** Everything of w is still in r: tables, directories, and the contents of every used frame. */
  ghost predicate Kept(w: World, r: World)
    requires Formed(w)
  {
    && w.used <= r.used && r.nframes == w.nframes && r.master == w.master && |r.phys| == |w.phys|
    && (forall t :: t in w.tables ==> t in r.tables && r.tables[t] == w.tables[t])
    && (forall d :: d in w.dirs ==> d in r.dirs && r.dirs[d] == w.dirs[d])
    && (forall f :: f in w.used ==> FrameWords(r.phys, f) == FrameWords(w.phys, f))
  }

  lemma KeptTrans(w: World, r: World, s: World)
    requires Formed(w) && Formed(r) && Kept(w, r) && Kept(r, s)
    ensures Kept(w, s)
  {
  }

  /** What is kept translates and reads as before. */
  lemma KeptReads(w: World, r: World, d: nat, va: Word)
    requires Formed(w) && Formed(r) && Kept(w, r) && d in w.dirs
    ensures Translate(r, d, va) == Translate(w, d, va) && Read(r, d, va) == Read(w, d, va)
  {
    if Translate(w, d, va) != -1 {
      ReadsFrame(w, d, va);
      ReadsFrame(r, d, va);
      var t := w.dirs[d][va / 0x40_0000].value;
      assert w.tables[t][va / 0x1000 % 0x400].frame in w.used;
    }
  }

  // ---------- cloning ----------

  /** The entry that clone_page_table makes for p in the frame f: alloc_frame sets present and user. */
  function ClonedPage(p: Page, f: nat): (r: Page) {
    Page(true, p.rw, true, p.accessed, p.dirty, f)
  }

  /** Table t of r is a deep copy of table s of w. */
  ghost predicate TableCloned(w: World, r: World, s: Table, t: Table)
    requires Formed(w) && Formed(r) && TableFormed(s, w.used) && TableFormed(t, r.used) && r.nframes == w.nframes
  {
    forall i :: 0 <= i < ENTRIES ==> EntryCloned(w, r, s[i], t[i])
  }

  ghost predicate EntryCloned(w: World, r: World, p: Page, q: Page)
    requires Formed(w) && Formed(r) && p.frame in w.used && q.frame in r.used && r.nframes == w.nframes
  {
    if p.frame == 0 then q == EMPTY
    else q == ClonedPage(p, q.frame) && q.frame !in w.used && FrameWords(r.phys, q.frame) == FrameWords(w.phys, p.frame)
  }

  /** A slot of the clone: empty, shared with the master directory, or a deep copy in a new table. */
  ghost predicate SlotCloned(w: World, r: World, i: nat, a: Option<nat>, b: Option<nat>)
    requires Formed(w) && Formed(r) && r.nframes == w.nframes && i < ENTRIES
  {
    && (a.Some? ==> a.value in w.tables)
    && (b.Some? ==> b.value in r.tables)
    && (a.None? ==> b.None?)
    && (a.Some? && w.dirs[w.master][i] == a ==> b == a)
    && (a.Some? && w.dirs[w.master][i] != a ==>
          b.Some? && b.value !in w.tables && TableCloned(w, r, w.tables[a.value], r.tables[b.value]))
  }

  /** Entry j of table t refers to frame f. */
  predicate Refers(w: World, t: nat, j: nat, f: nat) {
    t in w.tables && j < |w.tables[t]| && w.tables[t][j].frame == f
  }

  /** Entry j of table t is the only one that refers to its frame. */
  ghost predicate Sole(w: World, t: nat, j: nat)
    requires t in w.tables && j < |w.tables[t]|
  {
    forall u: nat, k: nat :: Refers(w, u, k, w.tables[t][j].frame) ==> u == t && k == j
  }

  /** No two entries of any tables, the master's among them, refer to the same frame. */
  ghost predicate Exclusive(w: World) {
    forall t: nat, j: nat :: t in w.tables && j < |w.tables[t]| && w.tables[t][j].frame != 0 ==> Sole(w, t, j)
  }

  /** Every frame taken since w belongs to an entry of some table. */
  ghost predicate NewFramesReferred(w: World, r: World) {
    forall f :: f in r.used && f !in w.used ==> exists t, j :: Refers(r, t, j, f)
  }

  /** No frame is leaked: the set bits are frame 0 and the frames that entries refer to. */
  ghost predicate Accounted(w: World) {
    forall f :: f in w.used && f != 0 ==> exists t, j :: Refers(w, t, j, f)
  }

  /** Directory c of r is the clone of directory d of w. */
  ghost predicate Cloned(w: World, r: World, d: nat, c: nat)
    requires Formed(w) && Formed(r)
  {
    && Kept(w, r) && d in w.dirs && c in r.dirs && c !in w.dirs && NewFramesReferred(w, r)
    && forall i :: 0 <= i < ENTRIES ==> SlotCloned(w, r, i, w.dirs[d][i], r.dirs[c][i])
  }

  /**
    A clone means what its source means: the same addresses are mapped, every one of them reads the
    same word, and addresses under a table shared with the master translate to the same place.
  */
  lemma CloneMeansTheSame(w: World, r: World, d: nat, c: nat, va: Word)
    requires Formed(w) && Formed(r) && Cloned(w, r, d, c)
    ensures Translate(r, c, va) == -1 <==> Translate(w, d, va) == -1
    ensures Read(r, c, va) == Read(w, d, va)
    ensures w.dirs[d][va / 0x40_0000] == w.dirs[w.master][va / 0x40_0000] ==> Translate(r, c, va) == Translate(w, d, va)
  {
    hide FrameWords;
    var i, j := va / 0x40_0000, va / 0x1000 % 0x400;
    assert SlotCloned(w, r, i, w.dirs[d][i], r.dirs[c][i]);
    if w.dirs[d][i].Some? {
      var s, t := w.dirs[d][i].value, r.dirs[c][i].value;
      assert w.tables[s][j].frame in w.used && r.tables[t][j].frame in r.used;
      if w.dirs[w.master][i] != w.dirs[d][i] {
        assert EntryCloned(w, r, w.tables[s][j], r.tables[t][j]);
      }
      if Translate(w, d, va) != -1 {
        ReadsFrame(w, d, va);
        ReadsFrame(r, c, va);
        assert w.dirs[w.master][i] == w.dirs[d][i] ==> SharedSame(w, r, s, j) by {
          SharedKept(w, r, s, j);
        }
      }
    }
  }

  ghost predicate SharedSame(w: World, r: World, s: nat, j: nat)
    requires Formed(w) && Formed(r) && s in w.tables && j < ENTRIES
  {
    && s in r.tables && r.tables[s] == w.tables[s] && r.nframes == w.nframes
    && w.tables[s][j].frame in w.used
    && FrameWords(r.phys, w.tables[s][j].frame) == FrameWords(w.phys, w.tables[s][j].frame)
  }

  lemma SharedKept(w: World, r: World, s: nat, j: nat)
    requires Formed(w) && Formed(r) && Kept(w, r) && s in w.tables && j < ENTRIES
    ensures SharedSame(w, r, s, j)
  {
    assert w.tables[s][j].frame in w.used;
  }

  /**
    Flags are copied except that a cloned page is always present and open to user mode: its entry
    equals the source's, frame aside, exactly when the source's page had both flags.
  */
  lemma CloneKeepsFlags(p: Page, f: nat)
    ensures ClonedPage(p, f) == p.(frame := f) <==> p.present && p.user
  {
  }
}
