/** Byte-addressed memory and the little-endian 32-bit words stored in it. */
module Memory {

  type Byte = x: int | 0 <= x < 0x100

  type Word = x: int | 0 <= x < 0x1_0000_0000

  /** The value a 32-bit register holds after an operation whose exact result is x. */
  function Wrap(x: int): (w: Word)
    ensures 0 <= x < 0x1_0000_0000 ==> w == x
  {
    x % 0x1_0000_0000
  }

  lemma WrapTwice(a: int, x: int)
    ensures Wrap(a + Wrap(x)) == Wrap(a + x)
  {
  }

  /** The 32-bit word stored at address a. */
  function Peek(m: seq<Byte>, a: nat): (w: Word)
    requires a + 4 <= |m|
  {
    (m[a] as int) + 0x100 * (m[a + 1] as int) + 0x1_0000 * (m[a + 2] as int) + 0x100_0000 * (m[a + 3] as int)
  }

  /** Byte k of a word. */
  function ByteOf(w: Word, k: nat): (b: Byte)
    requires k < 4
  {
    if k == 0 then w % 0x100
    else if k == 1 then w / 0x100 % 0x100
    else if k == 2 then w / 0x1_0000 % 0x100
    else w / 0x100_0000
  }

  lemma BytesMakeWord(w: Word)
    ensures w == ByteOf(w, 0) as int + 0x100 * ByteOf(w, 1) as int
                + 0x1_0000 * ByteOf(w, 2) as int + 0x100_0000 * ByteOf(w, 3) as int
  {
    assert w == w % 0x100 + 0x100 * (w / 0x100);
    assert w / 0x1_0000 == w / 0x100 / 0x100;
    assert w / 0x100_0000 == w / 0x1_0000 / 0x100;
  }

  /** Memory m after the word w is stored at address a. */
  function Poke(m: seq<Byte>, a: nat, w: Word): (r: seq<Byte>)
    requires a + 4 <= |m|
    ensures |r| == |m|
  {
    m[a := ByteOf(w, 0)][a + 1 := ByteOf(w, 1)][a + 2 := ByteOf(w, 2)][a + 3 := ByteOf(w, 3)]
  }

  lemma Poked(m: seq<Byte>, a: nat, w: Word)
    requires a + 4 <= |m|
    ensures SameOutside(m, Poke(m, a, w), a, a + 4)
    ensures Peek(Poke(m, a, w), a) == w
  {
    BytesMakeWord(w);
  }

  /** The two memories agree on every byte outside [lo, hi). */
  ghost predicate SameOutside(m: seq<Byte>, r: seq<Byte>, lo: int, hi: int)
  {
    && |r| == |m|
    && forall k :: 0 <= k < |m| && !(lo <= k < hi) ==> r[k] == m[k]
  }

  /** The two memories agree on every byte of [lo, hi). */
  ghost predicate SameWithin(m: seq<Byte>, r: seq<Byte>, lo: int, hi: int)
  {
    && |r| == |m|
    && forall k :: 0 <= k < |m| && lo <= k < hi ==> r[k] == m[k]
  }

  /** A word depends on its own four bytes. */
  lemma PeekSame(m: seq<Byte>, r: seq<Byte>, a: nat)
    requires a + 4 <= |m| && SameWithin(m, r, a, a + 4)
    ensures Peek(r, a) == Peek(m, a)
  {
  }

  /** A memory that is written in place; `image` is the sequence of its bytes. */
  class Ram {
    const cells: array<Byte>
    ghost var image: seq<Byte>

    ghost predicate Valid()
      reads this, cells
    {
      image == cells[..]
    }

    constructor (n: nat)
      ensures Valid() && fresh(cells) && |image| == n
    {
      cells := new Byte[n](_ => 0);
      new;
      image := cells[..];
    }

    /** The bytes as they are now, for a reader that is handed the memory as a whole. */
    function Bytes(): (m: seq<Byte>)
      requires Valid()
      reads this, cells
      ensures m == image
    {
      cells[..]
    }

    method Load(a: nat) returns (w: Word)
      requires Valid() && a + 4 <= |image|
      ensures w == Peek(image, a)
    {
      w := cells[a] as int + 0x100 * cells[a + 1] as int
           + 0x1_0000 * cells[a + 2] as int + 0x100_0000 * cells[a + 3] as int;
    }

    method LoadByte(a: nat) returns (b: Byte)
      requires Valid() && a < |image|
      ensures b == image[a]
    {
      b := cells[a];
    }

    method Store(a: nat, w: Word)
      requires Valid() && a + 4 <= |image|
      modifies this, cells
      ensures Valid() && image == Poke(old(image), a, w)
    {
      cells[a] := ByteOf(w, 0);
      cells[a + 1] := ByteOf(w, 1);
      cells[a + 2] := ByteOf(w, 2);
      cells[a + 3] := ByteOf(w, 3);
      image := cells[..];
    }

    method StoreByte(a: nat, b: Byte)
      requires Valid() && a < |image|
      modifies this, cells
      ensures Valid() && image == old(image)[a := b]
    {
      cells[a] := b;
      image := cells[..];
    }

    /** memset(a, b, n) */
    method Fill(a: nat, b: Byte, n: nat)
      requires Valid() && a + n <= |image|
      modifies this, cells
      ensures Valid() && SameOutside(old(image), image, a, a + n)
      ensures forall k :: a <= k < a + n ==> image[k] == b
    {
      for i := a to a + n
        invariant forall k :: a <= k < i ==> cells[k] == b
        invariant forall k :: 0 <= k < cells.Length && !(a <= k < i) ==> cells[k] == old(cells[k])
      {
        cells[i] := b;
      }
      image := cells[..];
    }
  }
}
