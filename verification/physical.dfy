/** Physical memory as words, and the page copy of src/process.s. */
module Physical {
  import opened Kernel
  import opened Memory
  import opened PageWorld

  /** Frame `dst` now holds what frame `src` held; every other frame is as it was. */
  ghost predicate Copied(m: seq<Word>, r: seq<Word>, src: nat, dst: nat) {
    && |r| == |m| && ENTRIES * (src + 1) <= |m| && ENTRIES * (dst + 1) <= |m|
    && FrameWords(r, dst) == FrameWords(m, src)
    && forall f: nat :: f != dst && ENTRIES * (f + 1) <= |m| ==> FrameWords(r, f) == FrameWords(m, f)
  }

  lemma CopiedWords(m: seq<Word>, r: seq<Word>, src: nat, dst: nat)
    requires |r| == |m| && ENTRIES * (src + 1) <= |m| && ENTRIES * (dst + 1) <= |m|
    requires forall k :: ENTRIES * dst <= k < ENTRIES * (dst + 1) ==> r[k] == m[k - ENTRIES * dst + ENTRIES * src]
    requires forall k :: 0 <= k < |m| && !(ENTRIES * dst <= k < ENTRIES * (dst + 1)) ==> r[k] == m[k]
    ensures Copied(m, r, src, dst)
  {
    var x, y := FrameWords(r, dst), FrameWords(m, src);
    assert |x| == |y| == ENTRIES;
    forall k | 0 <= k < ENTRIES
      ensures x[k] == y[k]
    {
      var at := ENTRIES * dst + k;
      assert x[k] == r[at] && y[k] == m[ENTRIES * src + k];
    }
    forall f: nat | f != dst && ENTRIES * (f + 1) <= |m|
      ensures FrameWords(r, f) == FrameWords(m, f)
    {
      forall k | 0 <= k < ENTRIES
        ensures FrameWords(r, f)[k] == FrameWords(m, f)[k]
      {
        var at := ENTRIES * f + k;
        assert r[at] == m[at];
      }
    }
  }

  /** Two different frames, counted in words, do not overlap. */
  lemma FrameBounds(src: nat, dst: nat, size: nat)
    requires src % PAGE == 0 && dst % PAGE == 0 && src != dst && src + PAGE <= 4 * size && dst + PAGE <= 4 * size
    ensures var s, t := ENTRIES * (src / PAGE), ENTRIES * (dst / PAGE);
            && src == 4 * s && dst == 4 * t && s + ENTRIES <= size && t + ENTRIES <= size
            && (s + ENTRIES <= t || t + ENTRIES <= s)
  {
  }

  class PhysicalMemory {
    const words: array<Word>
    ghost var image: seq<Word>

    ghost predicate Valid()
      reads this, words
    {
      image == words[..]
    }

    constructor (nframes: nat)
      ensures Valid() && fresh(words) && |image| == ENTRIES * nframes
    {
      words := new Word[ENTRIES * nframes](_ => 0);
      new;
      image := words[..];
    }

    /** copy_page_physical: 1024 words from the physical address src to dst, counting edx down to 0. */
    method CopyPagePhysical(src: nat, dst: nat)
      requires Valid() && src % PAGE == 0 && dst % PAGE == 0 && src != dst
      requires src + PAGE <= 4 * |image| && dst + PAGE <= 4 * |image|
      modifies this, words
      ensures Valid() && Copied(old(image), image, src / PAGE, dst / PAGE)
    {
      hide FrameWords;
      ghost var m := image;
      ghost var s, t := ENTRIES * (src / PAGE), ENTRIES * (dst / PAGE);
      FrameBounds(src, dst, |m|);
      var ebx, ecx, edx := src, dst, 1024;
      while edx != 0
        invariant 0 <= edx <= 1024 && ebx == 4 * (s + 1024 - edx) && ecx == 4 * (t + 1024 - edx)
        invariant image == m && |m| == words.Length
        invariant forall k :: t <= k < t + (1024 - edx) ==> words[k] == m[k - t + s]
        invariant forall k :: 0 <= k < |m| && !(t <= k < t + ENTRIES) ==> words[k] == m[k]
      {
        var eax := words[ebx / 4];
        words[ecx / 4] := eax;
        ebx := ebx + 4;
        ecx := ecx + 4;
        edx := edx - 1;
      }
      image := words[..];
      CopiedWords(m, image, src / PAGE, dst / PAGE);
    }
  }
}
