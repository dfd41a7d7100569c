/**
  The bitmap of physical frames (src/page.c:23-124): one bit a frame, 32 frames a word.  A word is
  written as its 32 bits, lowest first, so that or-ing in 1 << k sets bit k.
*/
module Frames {
  import opened Memory
  import opened Kernel

  const NONE: Word := 0xFFFF_FFFF

  type Bits = w: seq<bool> | |w| == 32 witness seq(32, _ => false)

  function AllBits(b: bool): (w: Bits) {
    seq(32, _ => b)
  }

  /** Whether the bit of frame f is set. */
  predicate Taken(ws: seq<Bits>, f: nat) {
    f / 32 < |ws| && ws[f / 32][f % 32]
  }

  /** The frames whose bits are set. */
  function Used(ws: seq<Bits>): (fs: set<nat>)
    ensures forall f: nat :: f in fs <==> Taken(ws, f)
  {
    set f: nat | f < 32 * |ws| && Taken(ws, f)
  }

  /** The word with its lowest n bits cleared. */
  function Cleared(w: Bits, n: nat): (r: Bits)
    requires n <= 32
  {
    seq(32, k requires 0 <= k < 32 => k >= n && w[k])
  }

  /** How many of the 32 bits from number `from` on lie below number `end`. */
  function BitsBelow(end: nat, from: nat): (n: nat)
    ensures n <= 32
  {
    if end <= from then 0 else if end - from < 32 then end - from else 32
  }

  class FrameMap {
    const frames: array<Bits>
    const nframes: nat

    ghost predicate Valid() {
      nframes == 32 * frames.Length
    }

    ghost function Frames(): (fs: set<nat>)
      reads frames
    {
      Used(frames[..])
    }

    /**
      The bitmap of initialise_paging (src/page.c:132-135), in memory that held the words `memory`.
      Its comment says that all frames are free; as written INDEX_FROM_BIT(nframes), the number of
      words, is taken for a number of bytes, so that only the bits of the first nframes / 4 frames are
      cleared.  (The rest of the bitmap is not even allocated, which this model does not follow.)
    */
    constructor (memory: seq<Bits>, b: Build)
      ensures Valid() && fresh(frames) && nframes == 32 * |memory|
      ensures Frames() == if b.AsCommented? then {} else set f: nat | f in Used(memory) && nframes / 4 <= f
    {
      var words := |memory|;
      nframes := 32 * words;
      frames := new Bits[words](i requires 0 <= i < words => memory[i]);
      new;
      for i := 0 to words
        invariant forall f: nat :: f < 32 * i ==>
                                     (Taken(frames[..], f) <==> b.AsWritten? && 8 * words <= f && Taken(memory, f))
        invariant forall k :: i <= k < words ==> frames[k] == memory[k]
      {
        ghost var was := frames[..];
        frames[i] := Cleared(frames[i], if b.AsCommented? then 32 else BitsBelow(8 * words, 32 * i));
        assert forall f: nat :: f < 32 * i ==> f / 32 != i && Taken(frames[..], f) == Taken(was, f);
        assert forall f: nat :: 32 * i <= f < 32 * (i + 1) ==> f / 32 == i && f % 32 == f - 32 * i;
      }
    }

    method SetFrame(addr: nat)
      requires Valid() && addr / PAGE < nframes
      modifies frames
      ensures Frames() == old(Frames()) + {addr / PAGE}
    {
      var frame := addr / PAGE;
      var idx, off := frame / 32, frame % 32;
      ghost var was := frames[..];
      frames[idx] := frames[idx][off := true];
      assert forall f: nat :: Taken(frames[..], f) <==> f == frame || Taken(was, f);
    }

    method ClearFrame(addr: nat)
      requires Valid() && addr / PAGE < nframes
      modifies frames
      ensures Frames() == old(Frames()) - {addr / PAGE}
    {
      var frame := addr / PAGE;
      var idx, off := frame / 32, frame % 32;
      ghost var was := frames[..];
      frames[idx] := frames[idx][off := false];
      assert forall f: nat :: Taken(frames[..], f) <==> f != frame && Taken(was, f);
    }

    method TestFrame(addr: nat) returns (r: bool)
      requires Valid() && addr / PAGE < nframes
      ensures r <==> addr / PAGE in Frames()
    {
      var frame := addr / PAGE;
      r := frames[frame / 32][frame % 32];
    }

    /** The lowest frame whose bit is clear; NONE exactly when every bit is set. */
    method FirstFrame() returns (r: Word)
      requires Valid() && nframes <= 0x10_0000
      ensures r == NONE <==> forall f: nat :: f < nframes ==> f in Frames()
      ensures r != NONE ==> r < nframes && r !in Frames() && forall f: nat :: f < r ==> f in Frames()
    {
      ghost var ws := frames[..];
      for i := 0 to nframes / 32
        invariant forall f: nat :: f < 32 * i ==> Taken(ws, f)
      {
        if frames[i] != AllBits(true) {
          for j := 0 to 32
            invariant forall k :: 0 <= k < j ==> ws[i][k]
          {
            if !frames[i][j] {
              r := i * 4 * 8 + j;
              assert r / 32 == i && r % 32 == j;
              assert forall f: nat :: f < r ==> f < 32 * i || (f / 32 == i && f % 32 < j);
              assert r < nframes && !Taken(frames[..], r);
              assert r !in Frames();
              return;
            }
          }
        }
        assert forall k :: 0 <= k < 32 ==> ws[i][k];
        assert forall f: nat :: f < 32 * (i + 1) ==> f < 32 * i || f / 32 == i;
      }
      r := NONE;
    }
  }
}
