/** What stores, mappings and clones leave alone, over whole runs. */
module PageIsolation {
  import opened Memory
  import opened Kernel
  import opened PageWorld

  /** A store of a word at va through directory d; nothing happens where nothing is mapped. */
  function StoreWord(w: World, d: nat, va: Word, x: Word): (r: World)
    requires Formed(w) && d in w.dirs
    ensures Formed(r)
  {
    var pa := Translate(w, d, va);
    if pa == -1 then w else w.(phys := w.phys[pa / 4 := x])
  }

  /** The page table of d for va, and the world in which it exists: get_page with `make` set. */
  function WithTable(w: World, d: nat, va: Word, t: nat, contents: Table): (r: World)
    requires Formed(w) && d in w.dirs
  {
    var i := TableIndex(va);
    if w.dirs[d][i].Some? then w
    else w.(tables := w.tables[t := contents], dirs := w.dirs[d := w.dirs[d][i := Some(t)]])
  }

  /** alloc_frame on entry j of table t, given the frame f that first_frame finds. */
  function WithFrame(w: World, t: nat, j: nat, f: nat, isKernel: bool, isWriteable: bool): (r: World)
    requires t in w.tables && j < |w.tables[t]|
  {
    var p := w.tables[t][j];
    if p.frame != 0 then w
    else w.(used := w.used + {f},
            tables := w.tables[t := w.tables[t][j :=
                        p.(present := true, rw := isWriteable, user := !isKernel, frame := f)]])
  }

  function Zeroed(): (t: Table) {
    seq(ENTRIES, _ => EMPTY)
  }

  /** alloc_frame(get_page(va, 1, d), ..) with a cleared new table t and a free frame f. */
  function MapPage(w: World, d: nat, va: Word, t: nat, f: nat, isKernel: bool, isWriteable: bool): (r: World)
    requires Formed(w) && d in w.dirs
  {
    var r := WithTable(w, d, va, t, Zeroed());
    WithFrame(r, r.dirs[d][TableIndex(va)].value, PageIndex(va), f, isKernel, isWriteable)
  }

  /** Every table is still there, as private or shared as it was. */
  ghost predicate TablesKept(w: World, r: World)
    requires w.master in w.dirs
  {
    && r.master in r.dirs
    && forall u :: u in w.tables ==> u in r.tables && r.tables[u] == w.tables[u] && (Private(r, u) <==> Private(w, u))
  }

  lemma WithTableKeeps(w: World, d: nat, va: Word, t: nat)
    requires Inv(w) && d in w.dirs && t !in w.tables
    ensures Inv(WithTable(w, d, va, t, Zeroed()))
    ensures TablesKept(w, WithTable(w, d, va, t, Zeroed()))
  {
    var r, i := WithTable(w, d, va, t, Zeroed()), TableIndex(va);
    if w.dirs[d][i].None? {
      forall u | u in w.tables
        ensures Private(r, u) <==> Private(w, u)
      {
        if d == w.master && Some(u) in w.dirs[d] {
          var k :| 0 <= k < ENTRIES && w.dirs[d][k] == Some(u);
          assert r.dirs[d][k] == Some(u);
        }
      }
      assert forall e, k :: e in r.dirs && 0 <= k < ENTRIES && r.dirs[e][k] != w.dirs[e][k] ==> e == d && k == i;
      assert forall e, k :: e in w.dirs && 0 <= k < ENTRIES ==> w.dirs[e][k] != Some(t);
    }
  }

  lemma WithFrameKeeps(w: World, t: nat, j: nat, f: nat, isKernel: bool, isWriteable: bool)
    requires Inv(w) && t in w.tables && j < ENTRIES && f < w.nframes && f !in w.used
    ensures Inv(WithFrame(w, t, j, f, isKernel, isWriteable))
  {
    var r := WithFrame(w, t, j, f, isKernel, isWriteable);
    if w.tables[t][j].frame == 0 {
      assert forall u, k :: u in w.tables && 0 <= k < ENTRIES && !(u == t && k == j) ==>
                              r.tables[u][k] == w.tables[u][k] && w.tables[u][k].frame in w.used;
      assert forall u :: u in w.tables ==> (Private(r, u) <==> Private(w, u));
    }
  }

  /**
    After alloc_frame(get_page(va, 1, d), ..) on an unmapped page every address of the page
    translates into the new frame at its own offset; every other address, and every address if the
    page was mapped already, translates as before.
  */
  lemma MapTranslates(w: World, d: nat, va: Word, t: nat, f: nat, isKernel: bool, isWriteable: bool, vb: Word)
    requires Inv(w) && d in w.dirs && t !in w.tables && f < w.nframes && f !in w.used
    ensures var r := MapPage(w, d, va, t, f, isKernel, isWriteable);
            && Inv(r)
            && Translate(r, d, vb) == if Translate(w, d, va) == -1 && vb / PAGE == va / PAGE then f * PAGE + vb % PAGE
                                      else Translate(w, d, vb)
  {
    hide Owned;
    IndexesAgree(va);
    IndexesAgree(vb);
    WithTableKeeps(w, d, va, t);
    var m := WithTable(w, d, va, t, Zeroed());
    WithFrameKeeps(m, m.dirs[d][TableIndex(va)].value, PageIndex(va), f, isKernel, isWriteable);
    SamePage(va, vb);
  }

  /**
    The access that a page gets: alloc_frame(get_page(va, 1, d), ..) makes an unmapped page present,
    writeable exactly when asked and open to user mode exactly when it is not the kernel's, and leaves
    a mapped page with the access it had.  The other pages of a new table are not present.
  */
  lemma MapAccess(w: World, d: nat, va: Word, t: nat, f: nat, isKernel: bool, isWriteable: bool)
    requires Inv(w) && d in w.dirs && t !in w.tables && f < w.nframes && f !in w.used
    ensures var r := MapPage(w, d, va, t, f, isKernel, isWriteable);
            && d in r.dirs && |r.dirs[d]| == ENTRIES && r.dirs[d][TableIndex(va)].Some?
            && var u := r.dirs[d][TableIndex(va)].value;
               && u in r.tables && |r.tables[u]| == ENTRIES
               && var q := r.tables[u][PageIndex(va)];
                  if Translate(w, d, va) == -1 then
                    && q.present && (q.rw <==> isWriteable) && (q.user <==> !isKernel) && q.frame == f
                    && (w.dirs[d][TableIndex(va)].None? ==>
                          forall k :: 0 <= k < ENTRIES && k != PageIndex(va) ==> !r.tables[u][k].present)
                  else w.dirs[d][TableIndex(va)] == Some(u) && q == w.tables[u][PageIndex(va)]
  {
    IndexesAgree(va);
  }

  /**
    A store is read back: through its own directory the word at va is then the one stored, and so is
    every word at the same physical place; a private page has no other address, so that there every
    other word reads as before.
  */
  lemma StoreReads(w: World, d: nat, va: Word, x: Word, vb: Word)
    requires Inv(w) && d in w.dirs && Translate(w, d, va) != -1
    ensures var r := StoreWord(w, d, va, x);
            && Translate(r, d, vb) == Translate(w, d, vb)
            && (Translate(w, d, vb) / 4 == Translate(w, d, va) / 4 ==> Read(r, d, vb) == Some(x))
            && (Translate(w, d, vb) / 4 != Translate(w, d, va) / 4 ==> Read(r, d, vb) == Read(w, d, vb))
    ensures PrivateAt(w, d, va) ==> (Translate(w, d, vb) / 4 == Translate(w, d, va) / 4 <==> vb / 4 == va / 4)
  {
    hide Read;
    StoreSeen(w, d, va, x, vb);
    if PrivateAt(w, d, va) {
      OnePlace(w, d, va, vb);
    }
  }

  lemma StoreSeen(w: World, d: nat, va: Word, x: Word, vb: Word)
    requires Formed(w) && d in w.dirs && Translate(w, d, va) != -1
    ensures var r := StoreWord(w, d, va, x);
            && Translate(r, d, vb) == Translate(w, d, vb)
            && (Translate(w, d, vb) / 4 == Translate(w, d, va) / 4 ==> Read(r, d, vb) == Some(x))
            && (Translate(w, d, vb) / 4 != Translate(w, d, va) / 4 ==> Read(r, d, vb) == Read(w, d, vb))
  {
  }

  /** No two words of a directory share a physical place if one of them lies in a private page. */
  lemma OnePlace(w: World, d: nat, va: Word, vb: Word)
    requires Inv(w) && PrivateAt(w, d, va)
    ensures Translate(w, d, vb) / 4 == Translate(w, d, va) / 4 <==> vb / 4 == va / 4
  {
    IndexesAgree(va);
    IndexesAgree(vb);
    SamePage(va, vb);
    var pa, pb := Translate(w, d, va), Translate(w, d, vb);
    var t := w.dirs[d][TableIndex(va)].value;
    assert pa == w.tables[t][PageIndex(va)].frame * PAGE + va % PAGE;
    if pb != -1 {
      var u := w.dirs[d][TableIndex(vb)].value;
      assert pb == w.tables[u][PageIndex(vb)].frame * PAGE + vb % PAGE;
      WordsOf(w.tables[t][PageIndex(va)].frame, va, w.tables[u][PageIndex(vb)].frame, vb);
    }
    WordsOf(0, va, 0, vb);
  }

  lemma WordsOf(f: nat, va: nat, g: nat, vb: nat)
    ensures (f * PAGE + va % PAGE) / 4 == (g * PAGE + vb % PAGE) / 4 <==> f == g && va % PAGE / 4 == vb % PAGE / 4
    ensures va / 4 == vb / 4 <==> va / PAGE == vb / PAGE && va % PAGE / 4 == vb % PAGE / 4
  {
    WordOf(f, va % PAGE);
    WordOf(g, vb % PAGE);
    WordOf(va / PAGE, va % PAGE);
    WordOf(vb / PAGE, vb % PAGE);
  }

  /** The number of a word is its frame's times 1024 and its number in the frame. */
  lemma WordOf(f: nat, offset: nat)
    requires offset < PAGE
    ensures (f * PAGE + offset) / 4 == f * ENTRIES + offset / 4 && offset / 4 < ENTRIES
  {
  }

  /** Two addresses with the same table and page index lie in the same page. */
  lemma SamePage(va: Word, vb: Word)
    ensures vb / PAGE == va / PAGE <==> TableIndex(va) == TableIndex(vb) && PageIndex(va) == PageIndex(vb)
  {
    assert va / PAGE == TableIndex(va) * ENTRIES + PageIndex(va);
    assert vb / PAGE == TableIndex(vb) * ENTRIES + PageIndex(vb);
  }

  /**
    A new table that is not cleared, as get_page leaves it (src/page.c:277), decides what is mapped:
    alloc_frame gives the page a frame only if the table happened to hold none there.
  */
  lemma UnclearedTable(w: World, d: nat, va: Word, t: nat, f: nat, contents: Table)
    requires Formed(w) && d in w.dirs && t !in w.tables && |contents| == ENTRIES && f != 0
    requires w.dirs[d][TableIndex(va)].None?
    ensures var m := WithTable(w, d, va, t, contents);
            var r := WithFrame(m, t, PageIndex(va), f, false, false);
            r.tables[t][PageIndex(va)].frame == f <==>
              contents[PageIndex(va)].frame == 0 || contents[PageIndex(va)].frame == f
  {
  }

  /** free_frame on entry j of table t; as written the frame number is taken for an address. */
  function WithoutFrame(w: World, t: nat, j: nat, b: Build): (r: World)
    requires t in w.tables && j < |w.tables[t]|
  {
    var p := w.tables[t][j];
    if p.frame == 0 then w
    else w.(used := w.used - {if b.AsCommented? then p.frame else p.frame / PAGE},
            tables := w.tables[t := w.tables[t][j := p.(frame := 0)]])
  }

  /**
    free_frame gives back what alloc_frame took exactly when it does what its comment says.  As
    written (src/page.c:121) the frame stays taken and the bit of frame / 0x1000, which is the
    reserved frame 0 in a memory of 16 MB, is cleared instead.
  */
  lemma FreeUndoesAlloc(w: World, t: nat, j: nat, f: nat, b: Build)
    requires Inv(w) && t in w.tables && j < ENTRIES && w.tables[t][j].frame == 0
    requires f < w.nframes && f !in w.used
    ensures var a := WithFrame(w, t, j, f, false, false);
            var r := WithoutFrame(a, t, j, b);
            && (r.used == w.used <==> b.AsCommented?)
            && r.tables[t][j].frame == 0
            && (b.AsWritten? ==> f in r.used && f / PAGE !in r.used)
  {
    assert f / PAGE != f;
    var a := WithFrame(w, t, j, f, false, false);
    var r := WithoutFrame(a, t, j, b);
    if b.AsWritten? {
      assert f in r.used && f !in w.used;
    } else {
      assert r.used == w.used;
    }
  }

  /** A page's frame may be freed when no other entry refers to it. */
  ghost predicate Releasable(w: World, t: nat, j: nat)
    requires t in w.tables && j < |w.tables[t]|
  {
    w.tables[t][j].frame == 0 || Sole(w, t, j)
  }

  /** Freeing the frame of any page, in whatever table, keeps the invariant exactly when nothing else refers to it. */
  lemma WithoutFrameKeeps(w: World, t: nat, j: nat)
    requires Inv(w) && t in w.tables && j < ENTRIES
    ensures Inv(WithoutFrame(w, t, j, AsCommented)) <==> Releasable(w, t, j)
  {
    var r, f := WithoutFrame(w, t, j, AsCommented), w.tables[t][j].frame;
    if f != 0 && Sole(w, t, j) {
      forall u, k | u in w.tables && 0 <= k < ENTRIES && !(u == t && k == j)
        ensures r.tables[u][k] == w.tables[u][k] && w.tables[u][k].frame != f
      {
        assert Refers(w, u, k, w.tables[u][k].frame);
      }
      assert forall u :: u in w.tables ==> (Private(r, u) <==> Private(w, u));
    } else if f != 0 {
      var u: nat, k: nat :| Refers(w, u, k, f) && !(u == t && k == j);
      assert r.tables[u][k] == w.tables[u][k];
      assert f !in r.used;
    }
  }

  /** The frame of a private page is always releasable, and where frames are exclusive so is every frame. */
  lemma OftenReleasable(w: World, t: nat, j: nat)
    requires Inv(w) && t in w.tables && j < ENTRIES && (Private(w, t) || Exclusive(w))
    ensures Releasable(w, t, j)
  {
  }

  // ---------- no frame is leaked ----------

  lemma WithTableAccounts(w: World, d: nat, va: Word, t: nat)
    requires Formed(w) && d in w.dirs && t !in w.tables && Accounted(w)
    ensures Accounted(WithTable(w, d, va, t, Zeroed()))
  {
    var r := WithTable(w, d, va, t, Zeroed());
    forall f | f in r.used && f != 0
      ensures exists u, k :: Refers(r, u, k, f)
    {
      var u, k :| Refers(w, u, k, f);
      assert Refers(r, u, k, f);
    }
  }

  lemma WithFrameAccounts(w: World, t: nat, j: nat, f: nat, isKernel: bool, isWriteable: bool)
    requires t in w.tables && j < |w.tables[t]| && Accounted(w)
    ensures Accounted(WithFrame(w, t, j, f, isKernel, isWriteable))
  {
    var r := WithFrame(w, t, j, f, isKernel, isWriteable);
    forall g | g in r.used && g != 0
      ensures exists u, k :: Refers(r, u, k, g)
    {
      if g in w.used {
        var u, k :| Refers(w, u, k, g);
        assert Refers(r, u, k, g);
      } else {
        assert Refers(r, t, j, g);
      }
    }
  }

  lemma WithoutFrameAccounts(w: World, t: nat, j: nat)
    requires t in w.tables && j < |w.tables[t]| && Accounted(w)
    ensures Accounted(WithoutFrame(w, t, j, AsCommented))
  {
    var r := WithoutFrame(w, t, j, AsCommented);
    forall g | g in r.used && g != 0
      ensures exists u, k :: Refers(r, u, k, g)
    {
      var u, k :| Refers(w, u, k, g);
      assert Refers(r, u, k, g);
    }
  }

  lemma CloneAccounts(w: World, r: World, d: nat, c: nat)
    requires Formed(w) && Formed(r) && Cloned(w, r, d, c) && Accounted(w)
    ensures Accounted(r)
  {
    forall g | g in r.used && g != 0
      ensures exists u, k :: Refers(r, u, k, g)
    {
      if g in w.used {
        var u, k :| Refers(w, u, k, g);
        assert Refers(r, u, k, g);
      }
    }
  }

  // ---------- no frame is shared ----------

  lemma WithTableExclusive(w: World, d: nat, va: Word, t: nat)
    requires Formed(w) && d in w.dirs && t !in w.tables && Exclusive(w)
    ensures Exclusive(WithTable(w, d, va, t, Zeroed()))
  {
    var r := WithTable(w, d, va, t, Zeroed());
    forall u: nat, k: nat, v: nat, l: nat | u in r.tables && k < |r.tables[u]| && r.tables[u][k].frame != 0
                                            && Refers(r, v, l, r.tables[u][k].frame)
      ensures v == u && l == k
    {
      assert Sole(w, u, k) && Refers(w, v, l, w.tables[u][k].frame);
    }
  }

  lemma WithFrameExclusive(w: World, t: nat, j: nat, f: nat, isKernel: bool, isWriteable: bool)
    requires Formed(w) && t in w.tables && j < ENTRIES && f !in w.used && Exclusive(w)
    ensures Exclusive(WithFrame(w, t, j, f, isKernel, isWriteable))
  {
    var r := WithFrame(w, t, j, f, isKernel, isWriteable);
    if w.tables[t][j].frame == 0 {
      forall u: nat, k: nat, v: nat, l: nat | u in r.tables && k < |r.tables[u]| && r.tables[u][k].frame != 0
                                              && Refers(r, v, l, r.tables[u][k].frame)
        ensures v == u && l == k
      {
        assert !(u == t && k == j) ==> w.tables[u][k].frame in w.used;
        assert !(v == t && l == j) ==> w.tables[v][l].frame in w.used;
        if !(u == t && k == j) {
          assert Sole(w, u, k) && (!(v == t && l == j) ==> Refers(w, v, l, w.tables[u][k].frame));
        }
      }
    }
  }

  lemma WithoutFrameExclusive(w: World, t: nat, j: nat)
    requires Formed(w) && t in w.tables && j < ENTRIES && Exclusive(w)
    ensures Exclusive(WithoutFrame(w, t, j, AsCommented))
  {
    var r := WithoutFrame(w, t, j, AsCommented);
    forall u: nat, k: nat, v: nat, l: nat | u in r.tables && k < |r.tables[u]| && r.tables[u][k].frame != 0
                                            && Refers(r, v, l, r.tables[u][k].frame)
      ensures v == u && l == k
    {
      assert Sole(w, u, k) && Refers(w, v, l, w.tables[u][k].frame);
    }
  }

  lemma NewTablesPrivate(w: World, r: World, t: nat)
    requires Formed(w) && Formed(r) && Kept(w, r)
    ensures t in w.tables || Private(r, t)
  {
    assert r.dirs[r.master] == w.dirs[w.master];
  }

  /** A table that a clone adds is private, and private tables own their frames. */
  lemma CloneExclusive(w: World, r: World, d: nat, c: nat)
    requires Inv(w) && Inv(r) && Cloned(w, r, d, c) && Exclusive(w)
    ensures Exclusive(r)
  {
    hide Unshared, FrameWords, SlotCloned, NewFramesReferred;
    forall u: nat, k: nat, v: nat, l: nat | u in r.tables && k < |r.tables[u]| && r.tables[u][k].frame != 0
                                            && Refers(r, v, l, r.tables[u][k].frame)
      ensures v == u && l == k
    {
      NewTablesPrivate(w, r, u);
      NewTablesPrivate(w, r, v);
      if u in w.tables && v in w.tables {
        assert Sole(w, u, k) && Refers(w, v, l, w.tables[u][k].frame);
      }
    }
  }

  /**
    As written, taking a frame and giving it back leaks it: the bit stays set and, where nothing
    else refers to the frame, no entry accounts for it.
  */
  lemma FreeAsWrittenLeaks(w: World, t: nat, j: nat, f: nat)
    requires Inv(w) && t in w.tables && j < ENTRIES && w.tables[t][j].frame == 0
    requires f < w.nframes && f !in w.used
    ensures !Accounted(WithoutFrame(WithFrame(w, t, j, f, false, false), t, j, AsWritten))
  {
    var a := WithFrame(w, t, j, f, false, false);
    var r := WithoutFrame(a, t, j, AsWritten);
    FreeUndoesAlloc(w, t, j, f, AsWritten);
    forall u: nat, k: nat
      ensures !Refers(r, u, k, f)
    {
      if u in w.tables && k < |w.tables[u]| {
        assert w.tables[u][k].frame in w.used;
      }
    }
  }

  // ---------- runs ----------

  datatype Event =
    | Store(d: nat, va: Word, x: Word)
    | Map(d: nat, va: Word, t: nat, f: nat, isKernel: bool, isWriteable: bool)
    | Unmap(d: nat, va: Word)
    | Clone(d: nat, c: nat)

  ghost predicate Happens(w: World, e: Event, r: World)
    requires Inv(w)
  {
    e.d in w.dirs
    && match e
       case Store(d, va, x) => r == StoreWord(w, d, va, x)
       case Map(d, va, t, f, k, wr) =>
         t !in w.tables && f < w.nframes && f !in w.used && r == MapPage(w, d, va, t, f, k, wr)
       case Unmap(d, va) =>
         && w.dirs[d][TableIndex(va)].Some?
         && Releasable(w, w.dirs[d][TableIndex(va)].value, PageIndex(va))
         && r == WithoutFrame(w, w.dirs[d][TableIndex(va)].value, PageIndex(va), AsCommented)
       case Clone(d, c) => Inv(r) && Cloned(w, r, d, c)
  }

  lemma EventKeeps(w: World, e: Event, r: World)
    requires Inv(w) && Happens(w, e, r)
    ensures Inv(r)
  {
    match e
    case Store(d, va, x) =>
    case Map(d, va, t, f, k, wr) =>
      hide Owned, Unshared;
      WithTableKeeps(w, d, va, t);
      var m := WithTable(w, d, va, t, Zeroed());
      WithFrameKeeps(m, m.dirs[d][TableIndex(va)].value, PageIndex(va), f, k, wr);
    case Unmap(d, va) =>
      WithoutFrameKeeps(w, w.dirs[d][TableIndex(va)].value, PageIndex(va));
    case Clone(d, c) =>
  }

  /** Where frames are exclusive the page of any table may be unmapped. */
  lemma EveryUnmapHappens(w: World, d: nat, va: Word)
    requires Inv(w) && Exclusive(w) && d in w.dirs && w.dirs[d][TableIndex(va)].Some?
    ensures Happens(w, Unmap(d, va), WithoutFrame(w, w.dirs[d][TableIndex(va)].value, PageIndex(va), AsCommented))
  {
    OftenReleasable(w, w.dirs[d][TableIndex(va)].value, PageIndex(va));
  }

  lemma EventExclusive(w: World, e: Event, r: World)
    requires Inv(w) && Happens(w, e, r) && Exclusive(w)
    ensures Exclusive(r)
  {
    hide Owned, Unshared, Exclusive;
    match e
    case Store(d, va, x) => StoreExclusive(w, d, va, x);
    case Map(d, va, t, f, k, wr) =>
      WithTableKeeps(w, d, va, t);
      WithTableExclusive(w, d, va, t);
      var m := WithTable(w, d, va, t, Zeroed());
      WithFrameExclusive(m, m.dirs[d][TableIndex(va)].value, PageIndex(va), f, k, wr);
    case Unmap(d, va) =>
      WithoutFrameExclusive(w, w.dirs[d][TableIndex(va)].value, PageIndex(va));
    case Clone(d, c) =>
      CloneExclusive(w, r, d, c);
  }

  lemma StoreExclusive(w: World, d: nat, va: Word, x: Word)
    requires Formed(w) && d in w.dirs && Exclusive(w)
    ensures Exclusive(StoreWord(w, d, va, x))
  {
    var r := StoreWord(w, d, va, x);
    forall u: nat, k: nat, v: nat, l: nat | u in r.tables && k < |r.tables[u]| && r.tables[u][k].frame != 0
                                            && Refers(r, v, l, r.tables[u][k].frame)
      ensures v == u && l == k
    {
      assert Sole(w, u, k) && Refers(w, v, l, w.tables[u][k].frame);
    }
  }

  lemma EventAccounts(w: World, e: Event, r: World)
    requires Inv(w) && Happens(w, e, r) && Accounted(w)
    ensures Accounted(r)
  {
    hide Owned, Unshared, Accounted;
    match e
    case Store(d, va, x) => StoreAccounts(w, d, va, x);
    case Map(d, va, t, f, k, wr) =>
      WithTableAccounts(w, d, va, t);
      var m := WithTable(w, d, va, t, Zeroed());
      WithFrameAccounts(m, m.dirs[d][TableIndex(va)].value, PageIndex(va), f, k, wr);
    case Unmap(d, va) =>
      WithoutFrameAccounts(w, w.dirs[d][TableIndex(va)].value, PageIndex(va));
    case Clone(d, c) =>
      EventKeeps(w, e, r);
      CloneAccounts(w, r, d, c);
  }

  lemma StoreAccounts(w: World, d: nat, va: Word, x: Word)
    requires Formed(w) && d in w.dirs && Accounted(w)
    ensures Accounted(StoreWord(w, d, va, x))
  {
    var r := StoreWord(w, d, va, x);
    forall g | g in r.used && g != 0
      ensures exists u, k :: Refers(r, u, k, g)
    {
      var u, k :| Refers(w, u, k, g);
      assert Refers(r, u, k, g);
    }
  }

  /** The page of va is mapped in d through a table that d does not share. */
  ghost predicate PrivateAt(w: World, d: nat, va: Word)
    requires Formed(w)
  {
    && d in w.dirs && w.dirs[d][TableIndex(va)].Some?
    && var t := w.dirs[d][TableIndex(va)].value;
       Private(w, t) && w.tables[t][PageIndex(va)].frame != 0
  }

  /** The private page is still private, still in the same frame, and reads the same. */
  ghost predicate Undisturbed(w: World, r: World, d: nat, va: Word)
    requires Formed(w) && Formed(r)
  {
    PrivateAt(w, d, va) && PrivateAt(r, d, va) && Translate(r, d, va) == Translate(w, d, va)
        && Read(r, d, va) == Read(w, d, va)
  }

  lemma StoreIsolates(w: World, e: Event, r: World, d: nat, va: Word)
    requires Inv(w) && e.Store? && Happens(w, e, r) && PrivateAt(w, d, va) && e.d != d
    ensures Undisturbed(w, r, d, va)
  {
    IndexesAgree(va);
    IndexesAgree(e.va);
    var pa, pb := Translate(w, d, va), Translate(w, e.d, e.va);
    ReadsFrame(w, d, va);
    if pb != -1 {
      var t, u := w.dirs[d][TableIndex(va)].value, w.dirs[e.d][TableIndex(e.va)].value;
      assert w.tables[t][PageIndex(va)].frame != w.tables[u][PageIndex(e.va)].frame;
      assert pa / 4 != pb / 4;
    }
  }

  lemma MapIsolates(w: World, e: Event, r: World, d: nat, va: Word)
    requires Inv(w) && e.Map? && Happens(w, e, r) && PrivateAt(w, d, va) && e.d != d && Formed(r)
    ensures Undisturbed(w, r, d, va)
  {
    hide Owned;
    IndexesAgree(va);
    WithTableKeeps(w, e.d, e.va, e.t);
    var m := WithTable(w, e.d, e.va, e.t, Zeroed());
    var t, u := w.dirs[d][TableIndex(va)].value, m.dirs[e.d][TableIndex(e.va)].value;
    assert t != u by {
      if w.dirs[e.d][TableIndex(e.va)].Some? {
        assert w.dirs[e.d][TableIndex(e.va)] == Some(u);
      }
    }
    assert r.dirs == m.dirs && r.tables[t] == m.tables[t];
    assert Private(r, t);
  }

  lemma UnmapIsolates(w: World, e: Event, r: World, d: nat, va: Word)
    requires Inv(w) && e.Unmap? && Happens(w, e, r) && PrivateAt(w, d, va) && e.d != d && Formed(r)
    ensures Undisturbed(w, r, d, va)
  {
    hide Owned;
    IndexesAgree(va);
    var t, u := w.dirs[d][TableIndex(va)].value, w.dirs[e.d][TableIndex(e.va)].value;
    assert t != u;
    assert r.tables[t] == w.tables[t] && Private(r, t);
  }

  lemma CloneIsolates(w: World, e: Event, r: World, d: nat, va: Word)
    requires Inv(w) && e.Clone? && Happens(w, e, r) && PrivateAt(w, d, va)
    ensures Undisturbed(w, r, d, va)
  {
    hide Owned, Unshared, Read, Translate;
    KeptReads(w, r, d, va);
    assert Private(r, w.dirs[d][TableIndex(va)].value);
  }

  /** One event: nothing done through another directory, and no clone, disturbs a private page. */
  lemma EventIsolates(w: World, e: Event, r: World, d: nat, va: Word)
    requires Inv(w) && Happens(w, e, r) && PrivateAt(w, d, va)
    requires e.Clone? || e.d != d
    ensures Inv(r) && Undisturbed(w, r, d, va)
  {
    hide Owned, Unshared, Undisturbed, PrivateAt;
    EventKeeps(w, e, r);
    match e {
      case Store(_, _, _) => StoreIsolates(w, e, r, d, va);
      case Map(_, _, _, _, _, _) => MapIsolates(w, e, r, d, va);
      case Unmap(_, _) => UnmapIsolates(w, e, r, d, va);
      case Clone(_, _) => CloneIsolates(w, e, r, d, va);
    }
  }

  /** A run: the worlds ws passed through by the events es. */
  ghost predicate Run(ws: seq<World>, es: seq<Event>) {
    && |ws| == |es| + 1 && Inv(ws[0])
    && forall i :: 0 <= i < |es| ==> Inv(ws[i]) && Happens(ws[i], es[i], ws[i + 1])
  }

  /**
    Isolation: over any run of stores, mappings, unmappings and clones in which nothing is done
    through directory d itself, a private page of d keeps its frame and its contents, however many
    clones of d are made and whatever is written through them.
  */
  lemma {:induction false} PrivatePagesIsolated(ws: seq<World>, es: seq<Event>, d: nat, va: Word)
    requires Run(ws, es) && PrivateAt(ws[0], d, va)
    requires forall e :: e in es ==> e.Clone? || e.d != d
    ensures Inv(ws[|es|]) && Undisturbed(ws[0], ws[|es|], d, va)
    decreases |es|
  {
    hide Inv, Happens, PrivateAt;
    if es != [] {
      var n := |es| - 1;
      PrivatePagesIsolated(ws[..n + 1], es[..n], d, va);
      assert es[n] in es;
      EventIsolates(ws[n], es[n], ws[n + 1], d, va);
    }
  }

  /** The copy of a private page is a private page of the clone. */
  lemma CopyIsPrivate(w: World, r: World, d: nat, c: nat, va: Word)
    requires Inv(w) && Inv(r) && Cloned(w, r, d, c) && PrivateAt(w, d, va)
    ensures PrivateAt(r, c, va)
  {
    hide Owned, Unshared, FrameWords;
    var i, j := TableIndex(va), PageIndex(va);
    IndexesAgree(va);
    var a, b := w.dirs[d][i], r.dirs[c][i];
    assert SlotCloned(w, r, i, a, b);
    assert w.dirs[w.master][i] != a;
    var s, t := w.tables[a.value], r.tables[b.value];
    assert s[j].frame in w.used && t[j].frame in r.used;
    assert EntryCloned(w, r, s[j], t[j]);
    assert r.dirs[r.master] == w.dirs[w.master];
  }

  /**
    Source and clone are independent: after a clone, over any run, what one side does through its
    directory is never seen through the other.  The private page reads as it did before the clone
    through either directory that does nothing itself.
  */
  lemma ClonesAreIndependent(w: World, ws: seq<World>, es: seq<Event>, d: nat, c: nat, va: Word)
    requires Inv(w) && Run(ws, es) && Cloned(w, ws[0], d, c) && PrivateAt(w, d, va)
    ensures Inv(ws[|es|])
    ensures (forall e :: e in es ==> e.Clone? || e.d != d) ==>
              && d in ws[|es|].dirs
              && Read(ws[|es|], d, va) == Read(w, d, va)
    ensures (forall e :: e in es ==> e.Clone? || e.d != c) ==>
              && c in ws[|es|].dirs
              && Read(ws[|es|], c, va) == Read(w, d, va)
  {
    hide Owned, Unshared, Happens, Cloned, Read, Translate, FrameWords;
    RunEnds(ws, es);
    if forall e :: e in es ==> e.Clone? || e.d != d {
      CloneHappens(w, ws[0], d, c);
      CloneIsolates(w, Clone(d, c), ws[0], d, va);
      PrivatePagesIsolated(ws, es, d, va);
    }
    if forall e :: e in es ==> e.Clone? || e.d != c {
      CopyIsPrivate(w, ws[0], d, c, va);
      CloneMeansTheSame(w, ws[0], d, c, va);
      PrivatePagesIsolated(ws, es, c, va);
    }
  }

  lemma CloneHappens(w: World, r: World, d: nat, c: nat)
    requires Inv(w) && Inv(r) && Cloned(w, r, d, c)
    ensures Happens(w, Clone(d, c), r)
  {
  }

  // ---------- what the others see ----------

  /**
    An event that goes to private pages and tables of the directory it works through, or to nothing:
    it does not touch what its directory shares.
  */
  ghost predicate Aside(w: World, e: Event)
    requires Formed(w)
  {
    && e.d in w.dirs
    && match e
       case Store(d, va, _) => PrivateAt(w, d, va) || Translate(w, d, va) == -1
       case Map(d, va, _, _, _, _) => w.dirs[d][TableIndex(va)].Some? ==> Private(w, w.dirs[d][TableIndex(va)].value)
       case Unmap(d, va) => w.dirs[d][TableIndex(va)].Some? && Private(w, w.dirs[d][TableIndex(va)].value)
       case Clone(_, _) => true
  }

  /** Nothing that directory d sees at va has changed. */
  ghost predicate Unseen(w: World, r: World, d: nat, va: Word)
    requires Formed(w) && Formed(r)
  {
    d in w.dirs && d in r.dirs && Translate(r, d, va) == Translate(w, d, va) && Read(r, d, va) == Read(w, d, va)
  }

  /** A store through a private page of e is not seen through any other directory, at any address. */
  lemma StoreUnseen(w: World, e: nat, vb: Word, x: Word, d: nat, va: Word)
    requires Inv(w) && PrivateAt(w, e, vb) && d in w.dirs && d != e
    ensures Unseen(w, StoreWord(w, e, vb, x), d, va)
  {
    IndexesAgree(va);
    IndexesAgree(vb);
    var pa, pb := Translate(w, d, va), Translate(w, e, vb);
    if pa != -1 {
      var t, u := w.dirs[d][TableIndex(va)].value, w.dirs[e][TableIndex(vb)].value;
      assert t != u;
      assert w.tables[t][PageIndex(va)].frame != w.tables[u][PageIndex(vb)].frame;
      WordsOf(w.tables[t][PageIndex(va)].frame, va, w.tables[u][PageIndex(vb)].frame, vb);
      assert pa / 4 != pb / 4;
    }
  }

  /** A new mapping in a slot that was empty, or in a private table, is not seen through other directories. */
  lemma MapUnseen(w: World, e: Event, r: World, d: nat, va: Word)
    requires Inv(w) && e.Map? && Happens(w, e, r) && Aside(w, e) && d in w.dirs && d != e.d && Formed(r)
    ensures Unseen(w, r, d, va)
  {
    hide Owned;
    IndexesAgree(va);
    WithTableKeeps(w, e.d, e.va, e.t);
    var m := WithTable(w, e.d, e.va, e.t, Zeroed());
    var u := m.dirs[e.d][TableIndex(e.va)].value;
    assert r.dirs == m.dirs && r.phys == w.phys && m.dirs[d] == w.dirs[d];
    if w.dirs[d][TableIndex(va)].Some? {
      var t := w.dirs[d][TableIndex(va)].value;
      assert t != u by {
        if w.dirs[e.d][TableIndex(e.va)].Some? {
          assert w.dirs[e.d][TableIndex(e.va)] == Some(u);
        }
      }
      assert r.tables[t] == m.tables[t];
      assert m.tables[t] == w.tables[t];
    }
  }

  lemma UnmapUnseen(w: World, e: Event, r: World, d: nat, va: Word)
    requires Inv(w) && e.Unmap? && Happens(w, e, r) && Aside(w, e) && d in w.dirs && d != e.d && Formed(r)
    ensures Unseen(w, r, d, va)
  {
    hide Owned;
    IndexesAgree(va);
    var u := w.dirs[e.d][TableIndex(e.va)].value;
    if w.dirs[d][TableIndex(va)].Some? {
      var t := w.dirs[d][TableIndex(va)].value;
      assert t != u;
      assert r.tables[t] == w.tables[t];
    }
  }

  /** One event that stays aside is not seen through any other directory, at shared addresses or private ones. */
  lemma AsideUnseen(w: World, e: Event, r: World, d: nat, va: Word)
    requires Inv(w) && Happens(w, e, r) && Aside(w, e) && d in w.dirs && (e.Clone? || e.d != d)
    ensures Inv(r) && Unseen(w, r, d, va)
  {
    hide Owned, Unshared, Unseen, PrivateAt;
    EventKeeps(w, e, r);
    match e {
      case Store(c, vb, x) =>
        if PrivateAt(w, c, vb) {
          StoreUnseen(w, c, vb, x, d, va);
        } else {
          SameUnseen(w, d, va);
        }
      case Map(_, _, _, _, _, _) => MapUnseen(w, e, r, d, va);
      case Unmap(_, _) => UnmapUnseen(w, e, r, d, va);
      case Clone(_, _) => CloneUnseen(w, e, r, d, va);
    }
  }

  lemma SameUnseen(w: World, d: nat, va: Word)
    requires Formed(w) && d in w.dirs
    ensures Unseen(w, w, d, va)
  {
  }

  lemma CloneUnseen(w: World, e: Event, r: World, d: nat, va: Word)
    requires Inv(w) && e.Clone? && Happens(w, e, r) && d in w.dirs && Formed(r)
    ensures Unseen(w, r, d, va)
  {
    hide Owned, Unshared, Read, Translate;
    KeptReads(w, r, d, va);
  }

  /** Throughout the run nothing is done through d but cloning, and what is done through others stays aside. */
  ghost predicate OthersWork(ws: seq<World>, es: seq<Event>, d: nat)
    requires Run(ws, es)
  {
    forall i :: 0 <= i < |es| ==> (es[i].Clone? || es[i].d != d) && Aside(ws[i], es[i])
  }

  /** Over any run in which the others keep to what is theirs, directory d reads the same at every address. */
  lemma {:induction false} RunUnseen(ws: seq<World>, es: seq<Event>, d: nat, va: Word)
    requires Run(ws, es) && d in ws[0].dirs && OthersWork(ws, es, d)
    ensures Inv(ws[|es|]) && Unseen(ws[0], ws[|es|], d, va)
    decreases |es|
  {
    hide Inv, Happens, Aside;
    if es != [] {
      var n := |es| - 1;
      RunUnseen(ws[..n + 1], es[..n], d, va);
      AsideUnseen(ws[n], es[n], ws[n + 1], d, va);
    }
  }

  /**
    Writes through private pages on one side of a clone never change what the other side reads, at any
    address, shared with the master or not: whichever of source and clone does nothing itself reads
    what the source read before the clone.
  */
  lemma CloneReadsIndependent(w: World, ws: seq<World>, es: seq<Event>, d: nat, c: nat, va: Word)
    requires Inv(w) && Run(ws, es) && Cloned(w, ws[0], d, c)
    ensures Inv(ws[|es|])
    ensures OthersWork(ws, es, d) ==> d in ws[|es|].dirs && Read(ws[|es|], d, va) == Read(w, d, va)
    ensures OthersWork(ws, es, c) ==> c in ws[|es|].dirs && Read(ws[|es|], c, va) == Read(w, d, va)
  {
    hide Owned, Unshared, Happens, Read, Translate, FrameWords, SlotCloned, Aside;
    RunEnds(ws, es);
    if OthersWork(ws, es, d) {
      KeptReads(w, ws[0], d, va);
      RunUnseen(ws, es, d, va);
    }
    if OthersWork(ws, es, c) {
      CloneMeansTheSame(w, ws[0], d, c, va);
      RunUnseen(ws, es, c, va);
    }
  }

  lemma RunEnds(ws: seq<World>, es: seq<Event>)
    requires Run(ws, es)
    ensures Inv(ws[|es|])
  {
    hide Inv, Happens;
    if es != [] {
      var n := |es| - 1;
      assert Happens(ws[n], es[n], ws[n + 1]);
      EventKeeps(ws[n], es[n], ws[n + 1]);
    }
  }

  /**
    Frame ownership: at the end of any run that begins with exclusive frames, pages of the master's
    tables mapped and freed among the others, no two entries refer to the same frame, and the set bits
    are exactly frame 0 and the frames that entries refer to.
  */
  lemma {:induction false} FramesAccounted(ws: seq<World>, es: seq<Event>)
    requires Run(ws, es) && Accounted(ws[0]) && Exclusive(ws[0])
    ensures var w := ws[|es|];
            && Inv(w) && Exclusive(w)
            && forall f :: f in w.used <==> f == 0 || exists t, j :: Refers(w, t, j, f)
    decreases |es|
  {
    hide Happens, Exclusive;
    if es != [] {
      var n := |es| - 1;
      FramesAccounted(ws[..n + 1], es[..n]);
      EventKeeps(ws[n], es[n], ws[n + 1]);
      EventAccounts(ws[n], es[n], ws[n + 1]);
      EventExclusive(ws[n], es[n], ws[n + 1]);
    }
    forall f, t: nat, j: nat | Refers(ws[|es|], t, j, f)
      ensures f in ws[|es|].used
    {
      assert ws[|es|].tables[t][j].frame == f;
    }
  }
}
