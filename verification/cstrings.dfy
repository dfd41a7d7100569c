/** NUL-terminated strings in memory and the copy and compare loops of src/common.c. */
module CStrings {
  import opened Memory

  type Text = s: seq<Byte> | 0 !in s witness []

  /** The text s, with its terminator, stands at address a. */
  predicate TextAt(m: seq<Byte>, a: nat, s: Text) {
    a + |s| < |m| && m[a..a + |s|] == s && m[a + |s|] == 0
  }

  lemma TextChars(m: seq<Byte>, a: nat, s: Text)
    requires TextAt(m, a, s)
    ensures forall k :: a <= k < a + |s| ==> m[k] == s[k - a] != 0
  {
    assert forall k :: a <= k < a + |s| ==> m[k] == m[a..a + |s|][k - a] == s[k - a];
  }

  lemma TextSame(m: seq<Byte>, r: seq<Byte>, a: nat, s: Text)
    requires TextAt(m, a, s) && SameWithin(m, r, a, a + |s| + 1)
    ensures TextAt(r, a, s)
  {
    assert r[a..a + |s|] == m[a..a + |s|];
  }

  /** The offset n within a period of d bytes. */
  function Phase(n: nat, d: nat): (k: nat)
    requires 0 < d
    ensures k < d && k <= n
  {
    if n < d then n else Phase(n - d, d)
  }

  /** Where the byte that ends up n bytes into the target comes from, counted from the source. */
  function Origin(dest: nat, src: nat, n: nat): (k: nat)
    ensures k <= n
  {
    if src < dest then Phase(n, dest - src) else n
  }

  /**
    Memory r is m with len bytes copied from src to dest, and nothing else changed.  A target that
    begins inside the source gets the bytes between the two beginnings over and over.
  */
  ghost predicate Copied(m: seq<Byte>, r: seq<Byte>, dest: nat, src: nat, len: nat) {
    && dest + len <= |m| && src + len <= |m| && SameOutside(m, r, dest, dest + len)
    && forall k :: dest <= k < dest + len ==> r[k] == m[src + Origin(dest, src, k - dest)]
  }

  /** A target below the source, or apart from it, gets just the source's bytes. */
  lemma CopiedWhole(m: seq<Byte>, r: seq<Byte>, dest: nat, src: nat, len: nat)
    requires Copied(m, r, dest, src, len) && (dest <= src || src + len <= dest)
    ensures r[dest..dest + len] == m[src..src + len]
  {
    var x, y := r[dest..dest + len], m[src..src + len];
    forall n: nat | n < len
      ensures x[n] == y[n]
    {
      assert x[n] == r[dest + n];
      assert Origin(dest, src, n) == n;
    }
  }

  /** memcpy, forwards a byte at a time. */
  method MemCpy(ram: Ram, dest: nat, src: nat, len: nat)
    requires ram.Valid() && dest + len <= |ram.image| && src + len <= |ram.image|
    modifies ram, ram.cells
    ensures ram.Valid() && Copied(old(ram.image), ram.image, dest, src, len)
    ensures dest <= src || src + len <= dest ==> ram.image[dest..dest + len] == old(ram.image)[src..src + len]
  {
    ghost var m := ram.image;
    var sp, dp, left := src, dest, len;
    while left != 0
      invariant 0 <= left <= len && sp == src + (len - left) && dp == dest + (len - left)
      invariant ram.Valid() && SameOutside(m, ram.image, dest, dp)
      invariant forall k :: dest <= k < dp ==> ram.image[k] == m[src + Origin(dest, src, k - dest)]
    {
      var b := ram.LoadByte(sp);
      assert b == m[src + Origin(dest, src, dp - dest)] by {
        assert dest <= sp < dp ==> Phase(sp - src, dest - src) == Phase(sp - dest, dest - src);
      }
      ram.StoreByte(dp, b);
      dp, sp, left := dp + 1, sp + 1, left - 1;
    }
    if dest <= src || src + len <= dest {
      CopiedWhole(m, ram.image, dest, src, len);
    }
  }

  method StrLen(ram: Ram, str: nat, ghost s: Text) returns (i: nat)
    requires ram.Valid() && TextAt(ram.image, str, s)
    ensures i == |s|
  {
    TextChars(ram.image, str, s);
    i := 0;
    var b := ram.LoadByte(str);
    while b != 0
      invariant i <= |s| && b == ram.image[str + i]
      decreases |s| - i
    {
      assert i < |s|;
      i := i + 1;
      b := ram.LoadByte(str + i);
    }
  }

  /** How many characters two texts begin with alike. */
  function Alike(s: Text, t: Text): (k: nat)
    ensures k <= |s| && k <= |t| && s[..k] == t[..k] && (k < |s| && k < |t| ==> s[k] != t[k])
  {
    if s == [] || t == [] || s[0] != t[0] then 0
    else
      var k := 1 + Alike(s[1..], t[1..]);
      assert s[..k] == [s[0]] + s[1..][..k - 1] && t[..k] == [t[0]] + t[1..][..k - 1];
      k
  }

  /** Byte k of a text, counting the terminator. */
  function CharAt(s: Text, k: nat): (b: Byte) {
    if k < |s| then s[k] else 0
  }

  lemma {:induction false} AlikeIs(s: Text, t: Text, i: nat)
    requires i <= |s| && i <= |t| && (i < |s| && i < |t| ==> s[i] != t[i])
    requires forall k :: 0 <= k < i ==> s[k] == t[k]
    ensures Alike(s, t) == i
    decreases i
  {
    if i > 0 {
      AlikeIs(s[1..], t[1..], i - 1);
    }
  }

  /** strcmp: zero exactly for equal texts, else the difference of the first bytes that differ. */
  method StrCmp(ram: Ram, str1: nat, str2: nat, ghost s: Text, ghost t: Text) returns (d: int)
    requires ram.Valid() && TextAt(ram.image, str1, s) && TextAt(ram.image, str2, t)
    ensures d == 0 <==> s == t
    ensures d == CharAt(s, Alike(s, t)) as int - CharAt(t, Alike(s, t)) as int
  {
    hide Alike;
    ghost var m := ram.image;
    TextChars(m, str1, s);
    TextChars(m, str2, t);
    var i := 0;
    var a := ram.LoadByte(str1);
    var b := ram.LoadByte(str2);
    while a != 0 && a == b
      invariant i <= |s| && i <= |t| && a == m[str1 + i] && b == m[str2 + i]
      invariant forall k :: 0 <= k < i ==> s[k] == t[k]
      decreases |s| - i
    {
      assert i < |s| && i < |t| && s[i] == t[i];
      i := i + 1;
      a := ram.LoadByte(str1 + i);
      b := ram.LoadByte(str2 + i);
    }
    d := a as int - b as int;
    AlikeIs(s, t, i);
    if d == 0 {
      assert i == |s| == |t|;
    }
  }

  lemma SliceIs(m: seq<Byte>, a: nat, s: Text)
    requires a + |s| <= |m| && forall k :: a <= k < a + |s| ==> m[k] == s[k - a]
    ensures m[a..a + |s|] == s
  {
  }

  /**
    strcpy of src/common.c: the terminator is not copied.  A target that begins inside the source
    overwrites the terminator before it is reached, and the original does not end.
  */
  method StrCpy(ram: Ram, dest: nat, src: nat, ghost s: Text)
    requires ram.Valid() && TextAt(ram.image, src, s) && dest + |s| <= |ram.image|
    requires dest <= src || src + |s| < dest
    modifies ram, ram.cells
    ensures ram.Valid() && SameOutside(old(ram.image), ram.image, dest, dest + |s|)
    ensures ram.image[dest..dest + |s|] == s
  {
    ghost var m := ram.image;
    TextChars(m, src, s);
    var i := 0;
    var b := ram.LoadByte(src);
    while b != 0
      invariant i <= |s| && ram.Valid() && b == m[src + i]
      invariant SameOutside(m, ram.image, dest, dest + i)
      invariant forall k :: dest <= k < dest + i ==> ram.image[k] == s[k - dest]
      decreases |s| - i
    {
      assert i < |s|;
      ram.StoreByte(dest + i, b);
      i := i + 1;
      b := ram.LoadByte(src + i);
    }
    SliceIs(ram.image, dest, s);
  }
}
