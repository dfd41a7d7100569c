/** The initial ram disk: what its image means, and the generator that packs it (initrd/generateImage.c). */
module InitrdImage {
  import opened Memory
  import opened CStrings

  const HEADER := 76
  const NHEADERS := 64
  const DATA := 4 + NHEADERS * HEADER

  datatype File = File(name: Text, bytes: seq<Byte>)

  /** Where file i begins, counted from the start of the image. */
  function Offset(files: seq<File>, i: nat): (o: nat)
    requires i <= |files|
    ensures o >= DATA
  {
    if i == 0 then DATA else Offset(files, i - 1) + |files[i - 1].bytes|
  }

  lemma {:induction false} OffsetGrows(files: seq<File>, i: nat, j: nat)
    requires i <= j <= |files|
    ensures Offset(files, i) <= Offset(files, j)
    decreases j
  {
    if i < j {
      OffsetGrows(files, i, j - 1);
    }
  }

  function HeaderAddr(loc: nat, i: nat): (h: nat) {
    loc + 4 + HEADER * i
  }

  /** A header: magic, name, three bytes of padding, offset, length. */
  predicate HeaderAt(m: seq<Byte>, h: nat, f: File, off: nat) {
    && h + HEADER <= |m| && |f.name| < 64
    && m[h] == 0xBF && TextAt(m, h + 1, f.name)
    && Peek(m, h + 68) == off && Peek(m, h + 72) == |f.bytes|
  }

  /** The bytes of file i, wherever its header says they are. */
  predicate DataAt(m: seq<Byte>, loc: nat, files: seq<File>, i: nat)
    requires i < |files|
  {
    && loc + Offset(files, i) + |files[i].bytes| <= |m|
    && m[loc + Offset(files, i)..loc + Offset(files, i) + |files[i].bytes|] == files[i].bytes
  }

  /** The header of file i, whose offset field is `base` more than its offset in the image. */
  predicate EntryAt(m: seq<Byte>, loc: nat, files: seq<File>, base: nat, i: nat)
    requires i < |files|
  {
    HeaderAt(m, HeaderAddr(loc, i), files[i], base + Offset(files, i))
  }

  /** Memory m holds, from loc on, the image of these files. */
  ghost predicate ImageAt(m: seq<Byte>, loc: nat, files: seq<File>, base: nat) {
    && |files| < NHEADERS && loc + Offset(files, |files|) <= |m| && loc + DATA <= |m|
    && Peek(m, loc) == |files|
    && (forall i :: 0 <= i < |files| ==> EntryAt(m, loc, files, base, i))
    && (forall i :: 0 <= i < |files| ==> DataAt(m, loc, files, i))
  }

  lemma HeaderSame(m: seq<Byte>, r: seq<Byte>, h: nat, f: File, off: nat)
    requires HeaderAt(m, h, f, off) && SameWithin(m, r, h, h + HEADER)
    ensures HeaderAt(r, h, f, off)
  {
    hide Peek, TextAt;
    PeekSame(m, r, h + 68);
    PeekSame(m, r, h + 72);
    TextEnds(m, h + 1, f.name);
    TextSame(m, r, h + 1, f.name);
  }

  lemma TextEnds(m: seq<Byte>, a: nat, s: Text)
    requires TextAt(m, a, s)
    ensures a + |s| < |m|
  {
  }

  // ---------- the generator ----------

  /** strcpy of the C library, which copies the terminator. */
  method StoreText(ram: Ram, dest: nat, s: Text)
    requires ram.Valid() && dest + |s| < |ram.image|
    modifies ram, ram.cells
    ensures ram.Valid() && SameOutside(old(ram.image), ram.image, dest, dest + |s| + 1)
    ensures TextAt(ram.image, dest, s)
  {
    ghost var m := ram.image;
    for i := 0 to |s|
      invariant ram.Valid() && SameOutside(m, ram.image, dest, dest + |s| + 1)
      invariant ram.image[dest..dest + i] == s[..i]
    {
      ghost var b := ram.image;
      ram.StoreByte(dest + i, s[i]);
      assert ram.image[dest..dest + i] == b[dest..dest + i];
      assert ram.image[dest..dest + (i + 1)] == ram.image[dest..dest + i] + [s[i]] == s[..i + 1];
    }
    ghost var b := ram.image;
    ram.StoreByte(dest + |s|, 0);
    assert ram.image[dest..dest + |s|] == b[dest..dest + |s|] == s;
  }

  method FillHeader(headers: Ram, h: nat, f: File, off: Word)
    requires headers.Valid() && h + HEADER <= |headers.image|
    requires |f.name| < 64 && |f.bytes| < 0x1_0000_0000
    modifies headers, headers.cells
    ensures headers.Valid() && HeaderAt(headers.image, h, f, off)
    ensures SameOutside(old(headers.image), headers.image, h, h + HEADER)
  {
    hide Peek, Poke, TextAt;
    ghost var m := headers.image;
    StoreText(headers, h + 1, f.name);
    ghost var a := headers.image;
    headers.Store(h + 68, off);
    ghost var b := headers.image;
    headers.Store(h + 72, |f.bytes|);
    ghost var c := headers.image;
    headers.StoreByte(h, 0xBF);
    ghost var d := headers.image;
    Poked(a, h + 68, off);
    Poked(b, h + 72, |f.bytes|);
    PeekSame(b, d, h + 68);
    PeekSame(c, d, h + 72);
    TextSame(a, d, h + 1, f.name);
  }

  /** The header of file i in the array of headers. */
  predicate HeaderIn(headers: seq<Byte>, files: seq<File>, i: nat)
    requires i < |files|
  {
    HeaderAt(headers, HEADER * i, files[i], Offset(files, i))
  }

  /**
    main of initrd/generateImage.c for the files named on its command line, which holds at most 63 of
    them.  `headers` is the array of headers, whose memory may hold anything before it is filled.
  */
  method GenerateImage(files: seq<File>, headers: Ram) returns (image: seq<Byte>)
    requires headers.Valid() && |headers.image| == NHEADERS * HEADER
    requires |files| < NHEADERS && Offset(files, |files|) < 0x1_0000_0000
    requires forall f :: f in files ==> |f.name| < 64
    modifies headers, headers.cells
    ensures |image| == Offset(files, |files|) && ImageAt(image, 0, files, 0)
  {
    hide HeaderAt, DataAt, Peek;
    var off: Word := DATA;
    for i := 0 to |files|
      invariant headers.Valid() && |headers.image| == NHEADERS * HEADER && off == Offset(files, i)
      invariant forall k :: 0 <= k < i ==> HeaderIn(headers.image, files, k)
    {
      OffsetGrows(files, i + 1, |files|);
      ghost var m := headers.image;
      FillHeader(headers, HEADER * i, files[i], off);
      forall k | 0 <= k < i
        ensures HeaderIn(headers.image, files, k)
      {
        assert HeaderIn(m, files, k);
        HeaderSame(m, headers.image, HEADER * k, files[k], Offset(files, k));
      }
      off := off + |files[i].bytes|;
    }
    var n: Word := |files|;
    image := [ByteOf(n, 0), ByteOf(n, 1), ByteOf(n, 2), ByteOf(n, 3)] + headers.Bytes();
    ghost var head := image;
    HeadWritten(head, headers.image, files);
    for i := 0 to |files|
      invariant |image| == Offset(files, i) && head <= image
      invariant forall k :: 0 <= k < i ==> DataAt(image, 0, files, k)
    {
      ghost var was := image;
      image := image + files[i].bytes;
      forall k | 0 <= k < i
        ensures DataAt(image, 0, files, k)
      {
        DataKept(was, image, files, k);
      }
      DataAppended(was, image, files, i);
    }
    HeadKept(head, image, files);
  }

  /** The number of files and the headers, once written in front of the data. */
  ghost predicate HeadAt(m: seq<Byte>, files: seq<File>) {
    && |m| >= DATA && Peek(m, 0) == |files|
    && forall i :: 0 <= i < |files| ==> EntryAt(m, 0, files, 0, i)
  }

  lemma HeadWritten(head: seq<Byte>, headers: seq<Byte>, files: seq<File>)
    requires |headers| == NHEADERS * HEADER && |files| < NHEADERS
    requires head == [ByteOf(|files|, 0), ByteOf(|files|, 1), ByteOf(|files|, 2), ByteOf(|files|, 3)] + headers
    requires forall k :: 0 <= k < |files| ==> HeaderIn(headers, files, k)
    ensures HeadAt(head, files)
  {
    hide HeaderAt;
    BytesMakeWord(|files|);
    assert Peek(head, 0) == |files|;
    forall i | 0 <= i < |files|
      ensures EntryAt(head, 0, files, 0, i)
    {
      assert HeaderIn(headers, files, i);
      assert head[4..4 + |headers|] == headers;
      HeaderMoved(headers, head, HEADER * i, 4, files[i], Offset(files, i));
    }
  }

  /** The same bytes at another place are the same header. */
  lemma HeaderMoved(m: seq<Byte>, r: seq<Byte>, h: nat, d: nat, f: File, off: nat)
    requires HeaderAt(m, h, f, off) && d + |m| <= |r|
    requires r[d..d + |m|] == m
    ensures HeaderAt(r, d + h, f, off)
  {
    assert forall k :: d <= k < d + |m| ==> r[k] == r[d..d + |m|][k - d] == m[k - d];
    var a := h + 1;
    assert r[d + a..d + a + |f.name|] == m[a..a + |f.name|];
  }

  lemma DataAppended(was: seq<Byte>, image: seq<Byte>, files: seq<File>, i: nat)
    requires i < |files| && |was| == Offset(files, i) && image == was + files[i].bytes
    ensures DataAt(image, 0, files, i)
  {
    hide Offset;
    assert image[|was|..|was| + |files[i].bytes|] == files[i].bytes;
  }

  lemma DataKept(was: seq<Byte>, image: seq<Byte>, files: seq<File>, k: nat)
    requires k < |files| && DataAt(was, 0, files, k) && was <= image
    ensures DataAt(image, 0, files, k)
  {
    var o := Offset(files, k);
    assert image[..|was|] == was;
    assert image[o..o + |files[k].bytes|] == was[o..o + |files[k].bytes|];
  }

  lemma PeekPrefix(head: seq<Byte>, image: seq<Byte>)
    requires 4 <= |head| && head <= image
    ensures Peek(image, 0) == Peek(head, 0)
  {
  }

  lemma HeadKept(head: seq<Byte>, image: seq<Byte>, files: seq<File>)
    requires HeadAt(head, files) && |files| < NHEADERS && head <= image && |image| == Offset(files, |files|)
    requires forall k :: 0 <= k < |files| ==> DataAt(image, 0, files, k)
    ensures ImageAt(image, 0, files, 0)
  {
    hide HeaderAt, DataAt, Peek, Offset;
    PeekPrefix(head, image);
    assert image[0..0 + |head|] == head;
    forall i | 0 <= i < |files|
      ensures EntryAt(image, 0, files, 0, i)
    {
      assert EntryAt(head, 0, files, 0, i);
      HeaderMoved(head, image, HeaderAddr(0, i), 0, files[i], Offset(files, i));
    }
  }

  /** The image means the same wherever it is loaded. */
  lemma ImageLoaded(image: seq<Byte>, files: seq<File>, m: seq<Byte>, loc: nat)
    requires ImageAt(image, 0, files, 0) && loc + |image| <= |m| && m[loc..loc + |image|] == image
    ensures ImageAt(m, loc, files, 0)
  {
    hide HeaderAt;
    assert forall k :: loc <= k < loc + |image| ==> m[k] == m[loc..loc + |image|][k - loc] == image[k - loc];
    assert Peek(m, loc) == Peek(image, 0);
    forall i | 0 <= i < |files|
      ensures EntryAt(m, loc, files, 0, i) && DataAt(m, loc, files, i)
    {
      assert EntryAt(image, 0, files, 0, i);
      HeaderMoved(image, m, HeaderAddr(0, i), loc, files[i], Offset(files, i));
      assert DataAt(image, 0, files, i);
      var o := Offset(files, i);
      assert m[loc + o..loc + o + |files[i].bytes|] == image[o..o + |files[i].bytes|];
    }
  }
}
