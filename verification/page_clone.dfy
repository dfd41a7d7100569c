/** One step at a time through clone_page_table and clone_page_directory. */
module PageClone {
  import opened Kernel
  import opened Memory
  import opened PageWorld
  import opened PageIsolation
  import opened Physical

  /** Slot i of d holds a table that the clone copies. */
  ghost predicate CopiedSlot(w: World, d: nat, i: nat)
    requires Formed(w) && d in w.dirs && i < ENTRIES
  {
    w.dirs[d][i].Some? && w.dirs[w.master][i] != w.dirs[d][i]
  }

  /** How many of the first i slots do. */
  ghost function Copies(w: World, d: nat, i: nat): (n: nat)
    requires Formed(w) && d in w.dirs && i <= ENTRIES
  {
    if i == 0 then 0 else Copies(w, d, i - 1) + if CopiedSlot(w, d, i - 1) then 1 else 0
  }

  lemma {:induction false} CopiesGrow(w: World, d: nat, i: nat, j: nat)
    requires Formed(w) && d in w.dirs && i <= j <= ENTRIES
    ensures Copies(w, d, i) <= Copies(w, d, j)
    ensures i < ENTRIES ==> Copies(w, d, i + 1) == Copies(w, d, i) + if CopiedSlot(w, d, i) then 1 else 0
    ensures Copies(w, d, 0) == 0
    decreases j
  {
    if i < j {
      CopiesGrow(w, d, i, j - 1);
    }
  }

  // ---------- steps of cloning a table ----------

  /** Giving an empty entry a page in a free frame, whatever then lies in that frame, keeps the invariant. */
  lemma EntrySetKeeps(w: World, t: nat, j: nat, q: Page, phys: seq<Word>)
    requires Inv(w) && t in w.tables && j < ENTRIES && w.tables[t][j].frame == 0
    requires q.frame < w.nframes && q.frame !in w.used && |phys| == |w.phys|
    ensures Inv(w.(used := w.used + {q.frame}, tables := w.tables[t := w.tables[t][j := q]], phys := phys))
  {
    var r := w.(used := w.used + {q.frame}, tables := w.tables[t := w.tables[t][j := q]], phys := phys);
    assert forall u, k :: u in w.tables && 0 <= k < ENTRIES && !(u == t && k == j) ==>
                            r.tables[u][k] == w.tables[u][k] && w.tables[u][k].frame in w.used;
    assert forall u :: u in w.tables ==> (Private(r, u) <==> Private(w, u));
  }

  /** The first i entries of the new table t are copies of those of table s, the others still empty. */
  ghost predicate TableInProgress(w: World, r: World, s: nat, t: nat, i: nat) {
    && Inv(w) && Inv(r) && Kept(w, r) && r.dirs == w.dirs
    && NewFramesReferred(w, r)
    && s in w.tables && t in r.tables && t !in w.tables && r.tables.Keys == w.tables.Keys + {t}
    && (forall k :: 0 <= k < i && k < ENTRIES ==> EntryCloned(w, r, w.tables[s][k], r.tables[t][k]))
    && (forall k :: i <= k < ENTRIES ==> r.tables[t][k] == EMPTY)
  }

  lemma TableBegun(w: World, s: nat, t: nat)
    requires Inv(w) && s in w.tables && t !in w.tables
    ensures TableInProgress(w, w.(tables := w.tables[t := Zeroed()]), s, t, 0)
  {
    var r := w.(tables := w.tables[t := Zeroed()]);
    assert forall u :: u in w.tables ==> (Private(r, u) <==> Private(w, u));
  }

  /** One round of clone_page_table that finds a page: a free frame f, the entry, the copied words. */
  lemma TableStep(w: World, r: World, s: nat, t: nat, i: nat, f: nat, phys: seq<Word>)
    requires TableInProgress(w, r, s, t, i) && i < ENTRIES && w.tables[s][i].frame != 0
    requires f < r.nframes && f !in r.used && Copied(r.phys, phys, w.tables[s][i].frame, f)
    ensures var q := ClonedPage(w.tables[s][i], f);
            var z := r.(used := r.used + {f}, tables := r.tables[t := r.tables[t][i := q]], phys := phys);
            TableInProgress(w, z, s, t, i + 1)
  {
    var p := w.tables[s][i];
    var q := ClonedPage(p, f);
    var z := r.(used := r.used + {f}, tables := r.tables[t := r.tables[t][i := q]], phys := phys);
    EntrySetKeeps(r, t, i, q, phys);
    StepKeeps(w, r, z, f);
    assert p.frame in w.used;
    StepRefers(w, r, z, t, i, f);
    forall k | 0 <= k <= i
      ensures EntryCloned(w, z, w.tables[s][k], z.tables[t][k])
    {
      if k < i {
        assert EntryCloned(w, r, w.tables[s][k], r.tables[t][k]);
        assert r.tables[t][k].frame in r.used;
      }
    }
  }

  lemma StepRefers(w: World, r: World, z: World, t: nat, i: nat, f: nat)
    requires NewFramesReferred(w, r) && t in r.tables && i < |r.tables[t]| && r.tables[t][i].frame == 0 && 0 in w.used
    requires t in z.tables && |z.tables[t]| == |r.tables[t]| && z.tables[t][i].frame == f
    requires z.used == r.used + {f} && z.tables == r.tables[t := r.tables[t][i := z.tables[t][i]]]
    ensures NewFramesReferred(w, z)
  {
    forall g | g in z.used && g !in w.used
      ensures exists u, k :: Refers(z, u, k, g)
    {
      if g == f {
        assert Refers(z, t, i, f);
      } else {
        var u, k :| Refers(r, u, k, g);
        assert Refers(z, u, k, g);
      }
    }
  }

  /** Writing into a frame that was free leaves what was there before. */
  lemma StepKeeps(w: World, r: World, z: World, f: nat)
    requires Formed(w) && Formed(r) && Kept(w, r) && f !in r.used
    requires z.used == r.used + {f} && z.nframes == r.nframes && z.master == r.master && |z.phys| == |r.phys|
             && z.dirs == r.dirs
    requires forall u :: u in r.tables ==> u in z.tables && (u in w.tables ==> z.tables[u] == r.tables[u])
    requires forall g: nat :: g != f && ENTRIES * (g + 1) <= |r.phys| ==> FrameWords(z.phys, g) == FrameWords(r.phys, g)
    ensures Kept(w, z)
  {
  }

  /** What a round of clone_page_table reads: the source entry as it was, the target entry still empty. */
  lemma SourceKept(w: World, r: World, s: nat, t: nat, i: nat)
    requires TableInProgress(w, r, s, t, i) && i < ENTRIES
    ensures t in r.tables && s in r.tables && |r.tables[s]| == ENTRIES && |r.tables[t]| == ENTRIES
    ensures r.tables[s][i] == w.tables[s][i] && r.tables[s][i].frame in r.used && r.tables[t][i] == EMPTY
    ensures r.nframes == w.nframes && forall f :: f in r.used ==> f < r.nframes
    ensures |r.phys| == ENTRIES * r.nframes
  {
    assert w.tables[s][i].frame in w.used;
  }

  lemma TableSkip(w: World, r: World, s: nat, t: nat, i: nat)
    requires TableInProgress(w, r, s, t, i) && i < ENTRIES && w.tables[s][i].frame == 0
    ensures TableInProgress(w, r, s, t, i + 1)
  {
  }

  /** A copied entry stays one when more is allocated, and one made from a kept world is one of the first. */
  lemma EntryStays(w: World, r: World, z: World, p: Page, q: Page)
    requires Formed(w) && Formed(r) && Formed(z) && Kept(w, r) && Kept(r, z)
    requires p.frame in w.used && q.frame in r.used && EntryCloned(w, r, p, q)
    ensures EntryCloned(w, z, p, q)
  {
  }

  lemma SlotStays(w: World, r: World, z: World, i: nat, a: Option<nat>, b: Option<nat>)
    requires Formed(w) && Formed(r) && Formed(z) && Kept(w, r) && Kept(r, z) && i < ENTRIES
    requires SlotCloned(w, r, i, a, b)
    ensures SlotCloned(w, z, i, a, b)
  {
    hide FrameWords, Kept, EntryCloned;
    SizesKept(w, r);
    SizesKept(r, z);
    if b.Some? {
      TableKept(r, z, b.value);
    }
    if a.Some? && w.dirs[w.master][i] != a {
      var s, t := w.tables[a.value], r.tables[b.value];
      forall k | 0 <= k < ENTRIES
        ensures EntryCloned(w, z, s[k], t[k])
      {
        assert s[k].frame in w.used && t[k].frame in r.used;
        EntryStays(w, r, z, s[k], t[k]);
      }
    }
  }

  lemma SizesKept(w: World, r: World)
    requires Formed(w) && Kept(w, r)
    ensures r.nframes == w.nframes && r.master == w.master && w.used <= r.used
  {
  }

  lemma TableKept(w: World, r: World, t: nat)
    requires Formed(w) && Kept(w, r) && t in w.tables
    ensures t in r.tables && r.tables[t] == w.tables[t]
  {
  }

  /** A copy made of what r kept from w is a copy of w's. */
  lemma EntryFromFirst(w: World, r: World, z: World, p: Page, q: Page)
    requires Formed(w) && Formed(r) && Formed(z) && Kept(w, r) && Kept(r, z)
    requires p.frame in w.used && q.frame in z.used && EntryCloned(r, z, p, q)
    ensures EntryCloned(w, z, p, q)
  {
  }

  // ---------- steps of cloning a directory ----------

  /** The first i slots of directory c are clones of those of d, the others still empty. */
  ghost predicate DirectoryInProgress(w: World, r: World, d: nat, c: nat, i: nat) {
    && Inv(w) && Inv(r) && Kept(w, r) && NewFramesReferred(w, r)
    && d in w.dirs && c in r.dirs && c !in w.dirs
    && (forall k :: 0 <= k < i && k < ENTRIES ==> SlotCloned(w, r, k, w.dirs[d][k], r.dirs[c][k]))
    && (forall k :: i <= k < ENTRIES ==> r.dirs[c][k] == None)
  }

  function NoTables(): (d: Directory) {
    seq(ENTRIES, _ => None)
  }

  lemma DirectoryBegun(w: World, d: nat, c: nat)
    requires Inv(w) && d in w.dirs && c !in w.dirs
    ensures DirectoryInProgress(w, w.(dirs := w.dirs[c := NoTables()]), d, c, 0)
            && Inv(w.(dirs := w.dirs[c := NoTables()]))
  {
    var r := w.(dirs := w.dirs[c := NoTables()]);
    assert forall u :: u in w.tables ==> (Private(r, u) <==> Private(w, u));
  }

  /** Filling an empty slot of a directory other than the master keeps the invariant. */
  lemma SlotSetKeeps(w: World, c: nat, i: nat, t: nat)
    requires Inv(w) && c in w.dirs && c != w.master && i < ENTRIES && t in w.tables
    requires forall e, k :: e in w.dirs && 0 <= k < ENTRIES && w.dirs[e][k] == Some(t) ==> k == i && !Private(w, t)
    ensures Inv(w.(dirs := w.dirs[c := w.dirs[c][i := Some(t)]]))
  {
    var r := w.(dirs := w.dirs[c := w.dirs[c][i := Some(t)]]);
    assert forall u :: u in w.tables ==> (Private(r, u) <==> Private(w, u));
    assert forall e, k :: e in w.dirs && 0 <= k < ENTRIES && !(e == c && k == i) ==> r.dirs[e][k] == w.dirs[e][k];
  }

  /** Filling a slot of c in r changes nothing that w had. */
  lemma SlotSetKept(w: World, r: World, c: nat, i: nat, t: nat)
    requires Formed(w) && Formed(r) && Kept(w, r) && NewFramesReferred(w, r) && c in r.dirs && c !in w.dirs
             && i < ENTRIES
    ensures var z := r.(dirs := r.dirs[c := r.dirs[c][i := Some(t)]]);
            Kept(w, z) && NewFramesReferred(w, z)
  {
    var z := r.(dirs := r.dirs[c := r.dirs[c][i := Some(t)]]);
    forall g | g in z.used && g !in w.used
      ensures exists u, k :: Refers(z, u, k, g)
    {
      var u, k :| Refers(r, u, k, g);
      assert Refers(z, u, k, g);
    }
  }

  lemma SlotShared(w: World, r: World, d: nat, c: nat, i: nat)
    requires DirectoryInProgress(w, r, d, c, i) && i < ENTRIES && w.dirs[d][i].Some?
             && w.dirs[w.master][i] == w.dirs[d][i]
    ensures DirectoryInProgress(w, r.(dirs := r.dirs[c := r.dirs[c][i := w.dirs[d][i]]]), d, c, i + 1)
    ensures Inv(r.(dirs := r.dirs[c := r.dirs[c][i := w.dirs[d][i]]]))
  {
    hide Owned, Unshared, FrameWords, NewFramesReferred;
    var t := w.dirs[d][i].value;
    var z := r.(dirs := r.dirs[c := r.dirs[c][i := Some(t)]]);
    SizesKept(w, r);
    TableKept(w, r, t);
    DirKept(w, r, w.master);
    assert !Private(r, t);
    HangsAt(r, w.master, i, t);
    SlotSetKeeps(r, c, i, t);
    SlotSetKept(w, r, c, i, t);
    SlotsStay(w, r, z, d, c, i, t);
    assert SlotCloned(w, z, i, w.dirs[d][i], z.dirs[c][i]);
  }

  lemma HangsAt(w: World, d: nat, i: nat, t: nat)
    requires Inv(w) && d in w.dirs && i < ENTRIES && w.dirs[d][i] == Some(t)
    ensures forall e, k :: e in w.dirs && 0 <= k < ENTRIES && w.dirs[e][k] == Some(t) ==> k == i
  {
  }

  lemma DirKept(w: World, r: World, d: nat)
    requires Formed(w) && Kept(w, r) && d in w.dirs
    ensures d in r.dirs && r.dirs[d] == w.dirs[d]
  {
  }

  /** The slots before i are still clones once slot i is filled. */
  lemma SlotsStay(w: World, r: World, z: World, d: nat, c: nat, i: nat, t: nat)
    requires DirectoryInProgress(w, r, d, c, i) && i < ENTRIES && Formed(z)
    requires z == r.(dirs := r.dirs[c := r.dirs[c][i := Some(t)]])
    ensures forall k :: 0 <= k < i ==> SlotCloned(w, z, k, w.dirs[d][k], z.dirs[c][k])
    ensures forall k :: i < k < ENTRIES ==> z.dirs[c][k] == None
  {
    hide Owned, Unshared, FrameWords, NewFramesReferred, Kept, EntryCloned;
    SizesKept(w, r);
    forall k | 0 <= k < i
      ensures SlotCloned(w, z, k, w.dirs[d][k], z.dirs[c][k])
    {
      assert SlotCloned(w, r, k, w.dirs[d][k], r.dirs[c][k]);
      SlotSame(w, r, z, k, w.dirs[d][k], r.dirs[c][k]);
    }
  }

  lemma SlotSame(w: World, r: World, z: World, i: nat, a: Option<nat>, b: Option<nat>)
    requires Formed(w) && Formed(r) && Formed(z) && r.nframes == w.nframes && i < ENTRIES && SlotCloned(w, r, i, a, b)
    requires z == r.(dirs := z.dirs)
    ensures SlotCloned(w, z, i, a, b)
  {
    if a.Some? && w.dirs[w.master][i] != a {
      var s, t := w.tables[a.value], r.tables[b.value];
      forall k | 0 <= k < ENTRIES
        ensures EntryCloned(w, z, s[k], t[k])
      {
        assert EntryCloned(w, r, s[k], t[k]);
      }
    }
  }

  /** A table cloned in r out of what w had. */
  lemma TableFinished(w: World, r: World, d: nat, c: nat, i: nat, z: World, s: nat, t: nat)
    requires DirectoryInProgress(w, r, d, c, i) && i < ENTRIES
    requires w.dirs[d][i] == Some(s) && w.dirs[w.master][i] != Some(s)
    requires TableInProgress(r, z, s, t, ENTRIES)
    ensures DirectoryInProgress(w, z, d, c, i)
    ensures t !in w.tables && TableCloned(w, z, w.tables[s], z.tables[t])
    ensures Private(z, t) && forall e, k :: e in z.dirs && 0 <= k < ENTRIES ==> z.dirs[e][k] != Some(t)
  {
    hide Owned, Unshared, FrameWords, Kept, EntryCloned, SlotCloned;
    KeptTrans(w, r, z);
    SizesKept(w, r);
    SizesKept(r, z);
    TableKept(w, r, s);
    DirKept(w, r, d);
    DirKept(w, r, w.master);
    RefersTrans(w, r, z);
    forall k | 0 <= k < i
      ensures SlotCloned(w, z, k, w.dirs[d][k], z.dirs[c][k])
    {
      SlotStays(w, r, z, k, w.dirs[d][k], r.dirs[c][k]);
    }
    forall k | 0 <= k < ENTRIES
      ensures EntryCloned(w, z, w.tables[s][k], z.tables[t][k])
    {
      assert w.tables[s][k].frame in w.used && z.tables[t][k].frame in z.used;
      EntryFromFirst(w, r, z, w.tables[s][k], z.tables[t][k]);
    }
    if t in w.tables {
      TableKept(w, r, t);
    }
  }

  lemma RefersTrans(w: World, r: World, z: World)
    requires Formed(r) && NewFramesReferred(w, r) && NewFramesReferred(r, z) && Kept(r, z)
    ensures NewFramesReferred(w, z)
  {
    forall g | g in z.used && g !in w.used
      ensures exists u, k :: Refers(z, u, k, g)
    {
      if g in r.used {
        var u, k :| Refers(r, u, k, g);
        assert Refers(z, u, k, g);
      }
    }
  }

  lemma SlotCopied(w: World, r: World, d: nat, c: nat, i: nat, s: nat, t: nat)
    requires DirectoryInProgress(w, r, d, c, i) && i < ENTRIES
    requires w.dirs[d][i] == Some(s) && w.dirs[w.master][i] != Some(s) && t in r.tables && t !in w.tables
    requires TableCloned(w, r, w.tables[s], r.tables[t])
    requires Private(r, t) && forall e, k :: e in r.dirs && 0 <= k < ENTRIES ==> r.dirs[e][k] != Some(t)
    ensures DirectoryInProgress(w, r.(dirs := r.dirs[c := r.dirs[c][i := Some(t)]]), d, c, i + 1)
  {
    hide Owned, Unshared, FrameWords, NewFramesReferred, EntryCloned;
    var z := r.(dirs := r.dirs[c := r.dirs[c][i := Some(t)]]);
    SizesKept(w, r);
    SlotSetKeeps(r, c, i, t);
    SlotSetKept(w, r, c, i, t);
    SlotsStay(w, r, z, d, c, i, t);
    assert TableCloned(w, z, w.tables[s], z.tables[t]) by {
      forall k | 0 <= k < ENTRIES
        ensures EntryCloned(w, z, w.tables[s][k], z.tables[t][k])
      {
        assert EntryCloned(w, r, w.tables[s][k], r.tables[t][k]);
        EntrySame(w, r, z, w.tables[s][k], r.tables[t][k]);
      }
    }
    assert SlotCloned(w, z, i, w.dirs[d][i], z.dirs[c][i]);
  }

  lemma EntrySame(w: World, r: World, z: World, p: Page, q: Page)
    requires Formed(w) && Formed(r) && Formed(z) && r.nframes == w.nframes
    requires p.frame in w.used && q.frame in r.used && EntryCloned(w, r, p, q) && z == r.(dirs := z.dirs)
    ensures EntryCloned(w, z, p, q)
  {
  }

  lemma SlotSkipped(w: World, r: World, d: nat, c: nat, i: nat)
    requires DirectoryInProgress(w, r, d, c, i) && i < ENTRIES && w.dirs[d][i].None?
    ensures DirectoryInProgress(w, r, d, c, i + 1)
  {
    assert SlotCloned(w, r, i, w.dirs[d][i], r.dirs[c][i]);
  }

  /**
    What a round of clone_page_directory reads: the source and master slots as they were, the target
    slot still empty.
  */
  lemma SlotSource(w: World, r: World, d: nat, c: nat, i: nat)
    requires DirectoryInProgress(w, r, d, c, i) && i < ENTRIES
    ensures d in r.dirs && r.master == w.master && w.master in r.dirs && c in r.dirs
    ensures |r.dirs[d]| == ENTRIES && |r.dirs[c]| == ENTRIES && |r.dirs[w.master]| == ENTRIES
    ensures r.dirs[d][i] == w.dirs[d][i] && r.dirs[w.master][i] == w.dirs[w.master][i] && r.dirs[c][i].None?
    ensures w.dirs[d][i].Some? ==> w.dirs[d][i].value in r.tables
  {
  }

  lemma DirectoryDone(w: World, r: World, d: nat, c: nat)
    requires DirectoryInProgress(w, r, d, c, ENTRIES)
    ensures Cloned(w, r, d, c)
  {
  }
}
