/** Mounting and reading the initial ram disk (src/initrd.c). */
module Initrd {
  import opened Memory
  import opened Kernel
  import opened CStrings
  import opened InitrdImage

  const FS_FILE := 0x01

  /** What the model keeps of an fs_node_t. */
  datatype FsNode = FsNode(flags: nat, inode: nat, length: Word, canRead: bool)

  /** Which node a caller holds: the root, the directory dev, or a file. */
  datatype Node = Root | Dev | FileNode(index: nat)

  const DEV: Text := [0x64, 0x65, 0x76]

  const DIRENT := 132

  // ---------- what reading means ----------

  /** The bytes of a file that a read of `size` bytes at `offset` should deliver. */
  function Slice(bytes: seq<Byte>, offset: nat, size: nat): (r: seq<Byte>)
    ensures |r| <= size
  {
    if offset > |bytes| then []
    else if offset + size > |bytes| then bytes[offset..]
    else bytes[offset..offset + size]
  }

  /** How many bytes initrd_read copies: the sum offset + size is a 32-bit one. */
  function ReadLength(length: Word, offset: Word, size: Word): (n: Word) {
    if offset > length then 0
    else if Wrap(offset + size) > length then length - offset
    else size
  }

  /**
    initrd_read copies as many bytes as the file has there exactly when the sum does not wrap, or the
    offset is past the end: if it wraps, all `size` bytes are copied, past the end of the file.
  */
  lemma ReadLengthExactly(bytes: seq<Byte>, offset: Word, size: Word)
    requires |bytes| < 0x1_0000_0000
    ensures ReadLength(|bytes|, offset, size) == |Slice(bytes, offset, size)| <==>
              offset > |bytes| || offset + size < 0x1_0000_0000
  {
    if offset + size >= 0x1_0000_0000 {
      assert Wrap(offset + size) == offset + size - 0x1_0000_0000;
    }
  }

  /** Every read of a loop that asks for `chunk` bytes at a time until it gets none stays in the file. */
  ghost predicate ReadsInside(length: Word, offset: Word, chunk: Word)
    requires offset <= length
    decreases length - offset
  {
    var n := ReadLength(length, offset, chunk);
    offset + n <= length && (n > 0 ==> ReadsInside(length, offset + n, chunk))
  }

  /** What such a loop reads. */
  ghost function ReadAll(bytes: seq<Byte>, offset: Word, chunk: Word): (r: seq<Byte>)
    requires offset <= |bytes| < 0x1_0000_0000 && ReadsInside(|bytes|, offset, chunk)
    decreases |bytes| - offset
  {
    var n := ReadLength(|bytes|, offset, chunk);
    if n == 0 then [] else bytes[offset..offset + n] + ReadAll(bytes, offset + n, chunk)
  }

  lemma SplitAt(bytes: seq<Byte>, a: nat, b: nat)
    requires a <= b <= |bytes|
    ensures bytes[a..] == bytes[a..b] + bytes[b..]
  {
  }

  /** From the end of the file the loop gets nothing exactly when the length and the chunk stay below 2^32 together. */
  lemma ReadAtEnd(length: Word, chunk: Word)
    ensures ReadLength(length, length, chunk) == if length + chunk < 0x1_0000_0000 then 0 else chunk
  {
    if length + chunk >= 0x1_0000_0000 {
      assert Wrap(length + chunk) == length + chunk - 0x1_0000_0000;
    }
  }

  /**
    Reading a file in chunks: from any offset, every read stays in the file if and only if the length
    and the chunk stay below 2^32 together; then the chunks make up the rest of the file, and the
    loop ends by getting nothing.
  */
  lemma {:induction false} ChunkedReads(bytes: seq<Byte>, offset: Word, chunk: Word)
    requires offset <= |bytes| < 0x1_0000_0000 && chunk > 0
    ensures ReadsInside(|bytes|, offset, chunk) <==> |bytes| + chunk < 0x1_0000_0000
    ensures ReadsInside(|bytes|, offset, chunk) ==>
              ReadAll(bytes, offset, chunk) == bytes[offset..] && ReadLength(|bytes|, |bytes|, chunk) == 0
    decreases |bytes| - offset
  {
    ReadAtEnd(|bytes|, chunk);
    var n := ReadLength(|bytes|, offset, chunk);
    if offset < |bytes| && offset + n <= |bytes| {
      ChunkedReads(bytes, offset + n, chunk);
      SplitAt(bytes, offset, offset + n);
    }
  }

  /** A file of one byte, read 2^32 - 1 bytes at a time: the second read copies 2^32 - 1 bytes from its end on. */
  lemma LastReadOverruns() returns (length: Word, chunk: Word)
    ensures length == 1 && ReadLength(length, 0, chunk) == 1 && ReadLength(length, 1, chunk) == 0xFFFF_FFFF
    ensures !ReadsInside(length, 0, chunk)
  {
    length, chunk := 1, 0xFFFF_FFFF;
    ReadAtEnd(length, chunk);
    assert !ReadsInside(length, 1, chunk);
  }

  // ---------- mounting ----------

  /** The offset field at header h has `loc` added to it, in 32 bits; its other bytes are as they were. */
  ghost predicate HeaderRebased(m: seq<Byte>, r: seq<Byte>, h: nat, loc: Word) {
    && h + HEADER <= |m| == |r|
    && SameWithin(m, r, h, h + 68) && SameWithin(m, r, h + 72, h + HEADER)
    && Peek(r, h + 68) == Wrap(Peek(m, h + 68) + loc)
  }

  /** The first n headers of the disk at loc are rebased, and nothing else is touched. */
  ghost predicate Rebased(m: seq<Byte>, r: seq<Byte>, loc: Word, n: nat) {
    && SameOutside(m, r, HeaderAddr(loc, 0), HeaderAddr(loc, n))
    && forall i :: 0 <= i < n ==> HeaderRebased(m, r, HeaderAddr(loc, i), loc)
  }

  lemma HeaderRebasedSame(m: seq<Byte>, q: seq<Byte>, r: seq<Byte>, h: nat, loc: Word)
    requires HeaderRebased(m, q, h, loc) && SameWithin(q, r, h, h + HEADER)
    ensures HeaderRebased(m, r, h, loc)
  {
    PeekSame(q, r, h + 68);
  }

  lemma RebasedStep(m: seq<Byte>, q: seq<Byte>, r: seq<Byte>, loc: Word, i: nat)
    requires Rebased(m, q, loc, i) && HeaderAddr(loc, i + 1) <= |m|
    requires r == Poke(q, HeaderAddr(loc, i) + 68, Wrap(Peek(q, HeaderAddr(loc, i) + 68) + loc))
    ensures Rebased(m, r, loc, i + 1)
  {
    hide Peek, Poke;
    var h := HeaderAddr(loc, i);
    Poked(q, h + 68, Wrap(Peek(q, h + 68) + loc));
    PeekSame(m, q, h + 68);
    forall k | 0 <= k < i
      ensures HeaderRebased(m, r, HeaderAddr(loc, k), loc)
    {
      HeaderRebasedSame(m, q, r, HeaderAddr(loc, k), loc);
    }
  }

  lemma HeaderAtRebased(m: seq<Byte>, r: seq<Byte>, h: nat, f: File, off: nat, loc: Word)
    requires HeaderAt(m, h, f, off) && HeaderRebased(m, r, h, loc) && off + loc < 0x1_0000_0000
    ensures HeaderAt(r, h, f, loc + off)
  {
    hide Peek, TextAt;
    PeekSame(m, r, h + 72);
    TextEnds(m, h + 1, f.name);
    TextSame(m, r, h + 1, f.name);
  }

  /** Mounting turns offsets into addresses, if the image ends within the address space. */
  lemma MountedImage(m: seq<Byte>, r: seq<Byte>, loc: Word, files: seq<File>)
    requires ImageAt(m, loc, files, 0) && Rebased(m, r, loc, |files|)
    requires loc + Offset(files, |files|) < 0x1_0000_0000
    ensures ImageAt(r, loc, files, loc)
  {
    hide Peek, HeaderAt, HeaderRebased;
    PeekSame(m, r, loc);
    forall i | 0 <= i < |files|
      ensures EntryAt(r, loc, files, loc, i) && DataAt(r, loc, files, i)
    {
      assert EntryAt(m, loc, files, 0, i) && DataAt(m, loc, files, i);
      OffsetGrows(files, i, |files|);
      HeaderAtRebased(m, r, HeaderAddr(loc, i), files[i], Offset(files, i), loc);
      DataSame(m, r, loc, files, i);
    }
  }

  lemma DataSame(m: seq<Byte>, r: seq<Byte>, loc: nat, files: seq<File>, i: nat)
    requires i < |files| && DataAt(m, loc, files, i)
    requires SameWithin(m, r, loc + Offset(files, i), loc + Offset(files, i) + |files[i].bytes|)
    ensures DataAt(r, loc, files, i)
  {
    var o := loc + Offset(files, i);
    assert r[o..o + |files[i].bytes|] == m[o..o + |files[i].bytes|];
  }

  // ---------- finding ----------

  /** The names of the files differ from one another and from dev. */
  ghost predicate Named(files: seq<File>) {
    && (forall i, j :: 0 <= i < j < |files| ==> files[i].name != files[j].name)
    && (forall i :: 0 <= i < |files| ==> files[i].name != DEV)
  }

  /** The node that initrd_finddir should return for a name in the root directory. */
  function Found(files: seq<File>, name: Text): (r: Option<Node>)
  {
    if name == DEV then Some(Dev) else FoundFrom(files, name, 0)
  }

  function FoundFrom(files: seq<File>, name: Text, i: nat): (r: Option<Node>)
    requires i <= |files|
    ensures r.None? <==> forall k :: i <= k < |files| ==> files[k].name != name
    decreases |files| - i
  {
    if i == |files| then None
    else if files[i].name == name then Some(FileNode(i))
    else FoundFrom(files, name, i + 1)
  }

  /** The result r is the node of the first file with that name, or nothing when no file has it. */
  predicate FirstOrNone(files: seq<File>, name: Text, r: Option<Node>) {
    if r.None? then forall k :: 0 <= k < |files| ==> files[k].name != name
    else
      && r.value.FileNode? && r.value.index < |files| && files[r.value.index].name == name
      && forall k :: 0 <= k < r.value.index ==> files[k].name != name
  }

  /** What is found from k on, when nothing before k has the name, is the first file that has it. */
  lemma {:induction false} FoundFirst(files: seq<File>, name: Text, k: nat)
    requires k <= |files| && forall i :: 0 <= i < k ==> files[i].name != name
    ensures FirstOrNone(files, name, FoundFrom(files, name, k))
    decreases |files| - k
  {
    if k < |files| && files[k].name != name {
      FoundFirst(files, name, k + 1);
    }
  }

  lemma {:induction false} FoundIsIt(files: seq<File>, i: nat, k: nat)
    requires Named(files) && k <= i < |files|
    ensures FoundFrom(files, files[i].name, k) == Some(FileNode(i))
    decreases i - k
  {
    if k < i {
      FoundIsIt(files, i, k + 1);
    }
  }

  /** Rebases header i and returns the length of its file. */
  method MountFile(ram: Ram, location: Word, i: nat, ghost m: seq<Byte>) returns (length: Word)
    requires ram.Valid() && Rebased(m, ram.image, location, i) && HeaderAddr(location, i + 1) <= |m|
    modifies ram, ram.cells
    ensures ram.Valid() && Rebased(m, ram.image, location, i + 1)
    ensures length == Peek(m, HeaderAddr(location, i) + 72)
  {
    hide Peek, Poke;
    ghost var q := ram.image;
    var h := HeaderAddr(location, i);
    var offset := ram.Load(h + 68);
    ram.Store(h + 68, Wrap(offset + location));
    RebasedStep(m, q, ram.image, location, i);
    length := ram.Load(h + 72);
    PeekSame(m, ram.image, h + 72);
  }

  lemma LengthKept(m: seq<Byte>, r: seq<Byte>, loc: Word, n: nat, i: nat)
    requires Rebased(m, r, loc, n) && i < n && HeaderAddr(loc, n) <= |m|
    ensures Peek(r, HeaderAddr(loc, i) + 72) == Peek(m, HeaderAddr(loc, i) + 72)
  {
    assert HeaderRebased(m, r, HeaderAddr(loc, i), loc);
    PeekSame(m, r, HeaderAddr(loc, i) + 72);
  }

  lemma HeaderLength(m: seq<Byte>, loc: nat, files: seq<File>, i: nat)
    requires ImageAt(m, loc, files, loc) && i < |files|
    ensures HeaderAddr(loc, i) + HEADER <= |m| && Peek(m, HeaderAddr(loc, i) + 72) == |files[i].bytes|
  {
    assert EntryAt(m, loc, files, loc, i);
  }

  /** The block for a directory entry overlaps neither the image nor the string literal. */
  ghost predicate Scratch(m: seq<Byte>, loc: nat, files: seq<File>, dirent: nat, dev: nat) {
    && dirent + DIRENT <= |m| && (loc + Offset(files, |files|) <= dirent || dirent + DIRENT <= loc)
    && TextAt(m, dev, DEV) && (dev + |DEV| + 1 <= dirent || dirent + DIRENT <= dev)
  }

  lemma HeaderText(m: seq<Byte>, loc: nat, files: seq<File>, i: nat)
    requires ImageAt(m, loc, files, loc) && i < |files|
    ensures TextAt(m, HeaderAddr(loc, i) + 1, files[i].name) && |files[i].name| < 64
    ensures HeaderAddr(loc, i) + HEADER <= loc + Offset(files, |files|)
  {
    assert EntryAt(m, loc, files, loc, i);
  }

  lemma OffsetEnds(files: seq<File>, i: nat)
    requires i < |files|
    ensures Offset(files, i) + |files[i].bytes| <= Offset(files, |files|)
  {
    OffsetGrows(files, i + 1, |files|);
  }

  /** The image is where it was when its bytes are as they were. */
  lemma ImageSame(m: seq<Byte>, r: seq<Byte>, loc: nat, files: seq<File>, base: nat)
    requires ImageAt(m, loc, files, base) && SameWithin(m, r, loc, loc + Offset(files, |files|))
    ensures ImageAt(r, loc, files, base)
  {
    hide Peek, HeaderAt, DataAt, Offset;
    PeekSame(m, r, loc);
    forall i | 0 <= i < |files|
      ensures EntryAt(r, loc, files, base, i) && DataAt(r, loc, files, i)
    {
      assert EntryAt(m, loc, files, base, i) && DataAt(m, loc, files, i);
      HeaderSame(m, r, HeaderAddr(loc, i), files[i], base + Offset(files, i));
      OffsetEnds(files, i);
      DataSame(m, r, loc, files, i);
    }
  }

  lemma SubSlice(m: seq<Byte>, o: nat, len: nat, a: nat, n: nat)
    requires o + len <= |m| && a + n <= len
    ensures m[o..o + len][a..a + n] == m[o + a..o + a + n]
  {
    var x, y := m[o..o + len][a..a + n], m[o + a..o + a + n];
    assert |x| == |y| && forall k :: 0 <= k < n ==> x[k] == y[k];
  }

  /** A read of a mounted file finds its bytes, if the sum of offset and size does not wrap. */
  lemma ReadGivesSlice(m: seq<Byte>, loc: Word, files: seq<File>, i: nat, offset: Word, size: Word)
    requires ImageAt(m, loc, files, loc) && loc + Offset(files, |files|) < 0x1_0000_0000
    requires i < |files| && offset + size < 0x1_0000_0000
    ensures var h := HeaderAddr(loc, i);
            var n := ReadLength(Peek(m, h + 72), offset, size);
            var src := Wrap(Peek(m, h + 68) + offset);
            && n == |Slice(files[i].bytes, offset, size)|
            && (n > 0 ==> src + n <= |m| && m[src..src + n] == Slice(files[i].bytes, offset, size))
  {
    hide Peek, TextAt;
    assert EntryAt(m, loc, files, loc, i) && DataAt(m, loc, files, i);
    OffsetGrows(files, i + 1, |files|);
    var b := files[i].bytes;
    ReadLengthExactly(b, offset, size);
    var o := loc + Offset(files, i);
    var n := ReadLength(|b|, offset, size);
    assert Peek(m, HeaderAddr(loc, i) + 68) == o && Peek(m, HeaderAddr(loc, i) + 72) == |b|;
    if n > 0 {
      assert offset + n <= |b| && Wrap(o + offset) == o + offset;
      SubSlice(m, o, |b|, offset, n);
      assert m[o..o + |b|] == b;
      assert m[o + offset..o + offset + n] == Slice(b, offset, size);
      assert b[offset..offset + n] == Slice(b, offset, size);
    }
  }

  /**
    The round trip: pack files with distinct names other than dev, load the image anywhere below the
    end of the address space, mount it; then looking up a name finds its file, and a read at any
    offset and size whose sum does not wrap delivers exactly that slice of what was packed.
  */
  lemma ImageRoundTrip(image: seq<Byte>, files: seq<File>, m: seq<Byte>, r: seq<Byte>, loc: Word, i: nat, offset: Word,
      size: Word)
    requires ImageAt(image, 0, files, 0) && |image| == Offset(files, |files|) && Named(files)
    requires loc + |image| <= |m| && m[loc..loc + |image|] == image && loc + |image| < 0x1_0000_0000
    requires Rebased(m, r, loc, |files|)
    requires i < |files| && offset + size < 0x1_0000_0000
    ensures Found(files, files[i].name) == Some(FileNode(i))
    ensures var h := HeaderAddr(loc, i);
            h + HEADER <= |r|
            && var n := ReadLength(Peek(r, h + 72), offset, size);
               var src := Wrap(Peek(r, h + 68) + offset);
               && n == |Slice(files[i].bytes, offset, size)|
               && (n > 0 ==> src + n <= |r| && r[src..src + n] == Slice(files[i].bytes, offset, size))
  {
    hide ImageAt, Peek, ReadLength, Slice;
    ImageLoaded(image, files, m, loc);
    MountedImage(m, r, loc, files);
    FoundIsIt(files, i, 0);
    ReadGivesSlice(r, loc, files, i, offset, size);
  }

  class Disk {
    const ram: Ram
    const location: Word
    const rootNodes: array<FsNode>

    ghost predicate Valid()
      reads ram, ram.cells, rootNodes
    {
      && ram.Valid() && rootNodes.Length < NHEADERS
      && HeaderAddr(location, rootNodes.Length) <= |ram.image|
      && forall i :: 0 <= i < rootNodes.Length ==>
           && rootNodes[i].inode == i && rootNodes[i].flags == FS_FILE
           && rootNodes[i].canRead
    }

    /** The disk holds these files, and its headers hold addresses. */
    ghost predicate Holds(files: seq<File>)
      reads ram, ram.cells, rootNodes
    {
      && Valid() && rootNodes.Length == |files| && ImageAt(ram.image, location, files, location)
      && forall i :: 0 <= i < |files| ==> rootNodes[i].length == |files[i].bytes|
    }

    /**
      initialise_initrd: rebases the headers in place and makes a node for each file.  A packed image
      of `files` that ends within the address space becomes a disk that holds them.
    */
    constructor (ram: Ram, location: Word, ghost files: seq<File>)
      requires ram.Valid() && location + 4 <= |ram.image| && Peek(ram.image, location) < NHEADERS
      requires HeaderAddr(location, Peek(ram.image, location)) <= |ram.image|
      modifies ram, ram.cells
      ensures Valid() && fresh(rootNodes) && this.ram == ram && this.location == location
      ensures rootNodes.Length == old(Peek(ram.image, location))
      ensures Rebased(old(ram.image), ram.image, location, rootNodes.Length)
      ensures forall i :: 0 <= i < rootNodes.Length ==>
                            rootNodes[i].length == Peek(ram.image, HeaderAddr(location, i) + 72)
      ensures ImageAt(old(ram.image), location, files, 0) && location + Offset(files, |files|) < 0x1_0000_0000 ==>
                Holds(files)
    {
      hide Peek, HeaderRebased, HeaderAt, DataAt, EntryAt;
      this.ram := ram;
      this.location := location;
      var nfiles := ram.Load(location);
      var nodes := new FsNode[nfiles](_ => FsNode(0, 0, 0, false));
      rootNodes := nodes;
      new;
      ghost var m := ram.image;
      for i := 0 to nfiles
        invariant ram.Valid() && Rebased(m, ram.image, location, i)
        invariant forall k :: 0 <= k < i ==> nodes[k] == FsNode(FS_FILE, k, Peek(m, HeaderAddr(location, k) + 72), true)
      {
        var length := MountFile(ram, location, i, m);
        nodes[i] := FsNode(FS_FILE, i, length, true);
      }
      forall i | 0 <= i < nfiles
        ensures nodes[i].length == Peek(ram.image, HeaderAddr(location, i) + 72)
      {
        LengthKept(m, ram.image, location, nfiles, i);
      }
      if ImageAt(m, location, files, 0) && location + Offset(files, |files|) < 0x1_0000_0000 {
        MountedImage(m, ram.image, location, files);
        forall i | 0 <= i < |files|
          ensures nodes[i].length == |files[i].bytes|
        {
          HeaderLength(ram.image, location, files, i);
        }
      }
    }

    /**
      initrd_read: `node` is the index of a file.  A buffer that begins inside the bytes that are read
      gets what MemCpy then leaves there.
    */
    method Read(node: nat, offset: Word, size: Word, buffer: nat) returns (got: Word)
      requires Valid() && node < rootNodes.Length
      requires var h := HeaderAddr(location, node);
               var n := ReadLength(Peek(ram.image, h + 72), offset, size);
               var src := Wrap(Peek(ram.image, h + 68) + offset);
               n > 0 ==> src + n <= |ram.image| && buffer + n <= |ram.image|
      modifies ram, ram.cells
      ensures Valid()
      ensures var m := old(ram.image);
              var h := HeaderAddr(location, node);
              var src := Wrap(Peek(m, h + 68) + offset);
              && got == ReadLength(Peek(m, h + 72), offset, size)
              && (got == 0 ==> ram.image == m)
              && (got > 0 ==>
                    && Copied(m, ram.image, buffer, src, got)
                    && (buffer <= src || src + got <= buffer ==>
                          ram.image[buffer..buffer + got] == m[src..src + got]))
    {
      hide Peek, Copied;
      var h := HeaderAddr(location, rootNodes[node].inode);
      var start := ram.Load(h + 68);
      var length := ram.Load(h + 72);
      if offset > length {
        return 0;
      }
      got := size;
      if Wrap(offset + got) > length {
        got := length - offset;
      }
      if got > 0 {
        MemCpy(ram, buffer, Wrap(start + offset), got);
      }
    }

    /**
      initrd_readdir: entry 0 of the root is dev, the others are the files in order.  `dirent` is the
      block that kmalloc returns and `dev` the address of the string literal.  Index 0 of any other
      directory becomes index 0xFFFFFFFF.
    */
    method ReadDir(node: Node, index: Word, dirent: nat, dev: nat, ghost files: seq<File>) returns (found: bool)
      requires Holds(files) && Scratch(ram.image, location, files, dirent, dev)
      modifies ram, ram.cells
      ensures Holds(files) && TextAt(ram.image, dev, DEV)
      ensures SameOutside(old(ram.image), ram.image, dirent, dirent + DIRENT)
      ensures found <==> (node.Root? && index == 0) || 1 <= index <= |files|
      ensures found ==> TextAt(ram.image, dirent, if index == 0 then DEV else files[index - 1].name)
      ensures found ==> Peek(ram.image, dirent + 128) == if index == 0 then 0 else index - 1
    {
      hide HeaderAt, DataAt, Peek, TextAt;
      ghost var m := ram.image;
      if node.Root? && index == 0 {
        FillDirent(dirent, dev, DEV, 0);
        ImageSame(m, ram.image, location, files, location);
        TextSame(m, ram.image, dev, DEV);
        return true;
      }
      if Wrap(index - 1) >= rootNodes.Length {
        return false;
      }
      var i: nat := index - 1;
      HeaderText(m, location, files, i);
      FillDirent(dirent, HeaderAddr(location, i) + 1, files[i].name, rootNodes[i].inode);
      ImageSame(m, ram.image, location, files, location);
      TextSame(m, ram.image, dev, DEV);
      return true;
    }

    /** strcpy, then the terminator that strcpy leaves out, then the inode. */
    method FillDirent(dirent: nat, src: nat, ghost s: Text, ino: Word)
      requires ram.Valid() && TextAt(ram.image, src, s) && |s| < 64 && dirent + DIRENT <= |ram.image|
      requires dirent + DIRENT <= src || src + |s| + 1 <= dirent
      modifies ram, ram.cells
      ensures ram.Valid() && SameOutside(old(ram.image), ram.image, dirent, dirent + DIRENT)
      ensures TextAt(ram.image, dirent, s) && Peek(ram.image, dirent + 128) == ino
    {
      hide Peek, Poke;
      ghost var m := ram.image;
      StrCpy(ram, dirent, src, s);
      ghost var q := ram.image;
      TextSame(m, q, src, s);
      var n := StrLen(ram, src, s);
      ram.StoreByte(dirent + n, 0);
      ghost var r := ram.image;
      assert r[dirent..dirent + |s|] == q[dirent..dirent + |s|];
      ram.Store(dirent + 128, ino);
      Poked(r, dirent + 128, ino);
      TextSame(r, ram.image, dirent, s);
    }

    /** initrd_finddir: the first file with that name; in the root directory, dev comes before all. */
    method FindDir(node: Node, name: nat, dirent: nat, dev: nat, ghost s: Text, ghost files: seq<File>)
      returns (r: Option<Node>)
      requires Holds(files) && Scratch(ram.image, location, files, dirent, dev)
      requires TextAt(ram.image, name, s) && (name + |s| + 1 <= dirent || dirent + DIRENT <= name)
      modifies ram, ram.cells
      ensures Holds(files) && SameOutside(old(ram.image), ram.image, dirent, dirent + DIRENT)
      ensures r == if node.Root? then Found(files, s) else FoundFrom(files, s, 0)
      ensures node.Root? && s == DEV ==> r == Some(Dev)
      ensures !(node.Root? && s == DEV) ==> FirstOrNone(files, s, r)
    {
      hide ImageAt, Peek, TextAt;
      FoundFirst(files, s, 0);
      ghost var m := ram.image;
      if node.Root? {
        var d := StrCmp(ram, name, dev, s, DEV);
        if d == 0 {
          return Some(Dev);
        }
      }
      for i := 0 to rootNodes.Length
        invariant Holds(files) && SameOutside(m, ram.image, dirent, dirent + DIRENT)
        invariant TextAt(ram.image, name, s) && TextAt(ram.image, dev, DEV)
        invariant FoundFrom(files, s, 0) == FoundFrom(files, s, i)
      {
        ghost var q := ram.image;
        var found := ReadDir(node, i + 1, dirent, dev, files);
        TextSame(q, ram.image, name, s);
        var d := StrCmp(ram, name, dirent, s, files[i].name);
        if d == 0 {
          return Some(FileNode(i));
        }
      }
      return None;
    }
  }
}
