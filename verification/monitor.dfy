/** The text console as it is updated in place: video memory and cursor (src/monitor.c). */
module Monitor {
  import opened Memory
  import opened Numerals
  import opened Paper

  class Console {
    const video: array<Cell>
    var foreground: Byte
    var background: Byte
    var x: Byte
    var y: Byte
    ghost var sheet: Sheet

    /** The cursor is within the 80 by 25 screen, which shows the last rows of the sheet. */
    ghost predicate Valid()
      reads this, video
    {
      x < WIDTH && y < HEIGHT && Shows(video[..], x, y, sheet) && Ready(sheet)
    }

    /** (background << 4) | (foreground & 0x0F) in 8 bits */
    function Attribute(): (a: nat)
      reads this`foreground, this`background
      ensures a < 0x100 && a % 0x10 == foreground % 0x10 && a / 0x10 == background % 0x10
    {
      background * 0x10 % 0x100 + foreground % 0x10
    }

    constructor ()
      ensures Valid() && fresh(video) && foreground == 0x02 && background == 0x06
      ensures sheet == Clear(0x20 + 0x100 * 0x62)
    {
      foreground, background := 0x02, 0x06;
      video := new Cell[WIDTH * HEIGHT](_ => 0x20 + 0x100 * 0x62);
      x, y := 0, 0;
      sheet := Clear(0x20 + 0x100 * 0x62);
      new;
      ShowsClear(video[..], 0x20 + 0x100 * 0x62);
    }

    /** monitor_clear */
    method ClearScreen()
      requires video.Length == WIDTH * HEIGHT
      modifies this`x, this`y, this`sheet, video
      ensures Valid() && sheet == Clear(0x20 + 0x100 * Attribute())
    {
      var blank: Cell := 0x20 + 0x100 * Attribute();
      for i := 0 to WIDTH * HEIGHT
        modifies video
        invariant forall k :: 0 <= k < i ==> video[k] == blank
      {
        video[i] := blank;
      }
      x, y := 0, 0;
      sheet := Clear(blank);
      ShowsClear(video[..], blank);
    }

    method Scroll()
      requires video.Length == WIDTH * HEIGHT && Shows(video[..], x, y, sheet) && y <= HEIGHT && x < WIDTH
      modifies this`y, this`sheet, video
      ensures Valid() && sheet == Grown(old(sheet))
    {
      if y >= HEIGHT {
        ghost var v := video[..];
        for i := 0 to 24 * 80
          modifies video
          invariant forall k :: 0 <= k < i ==> video[k] == v[k + 80]
          invariant forall k :: i <= k < video.Length ==> video[k] == v[k]
        {
          video[i] := video[i + 80];
        }
        for i := 24 * 80 to 25 * 80
          modifies video
          invariant forall k :: 0 <= k < 24 * 80 ==> video[k] == v[k + 80]
          invariant forall k :: 24 * 80 <= k < i ==> video[k] == BLANK
        {
          video[i] := BLANK;
        }
        ShowsScrolled(v, video[..], x, sheet);
        y := 24;
        sheet := Grown(sheet);
      }
    }

    /** The character's own effect, before the end of the row and of the screen are looked at. */
    method Type(c: Char)
      requires Valid()
      modifies this`x, this`y, this`sheet, video
      ensures x <= WIDTH && y <= HEIGHT && (x == WIDTH ==> y < HEIGHT) && Shows(video[..], x, y, sheet)
      ensures sheet == Typed(old(sheet), c, Attribute())
    {
      var attribute := Attribute();
      ghost var p := sheet;
      if c == 0x08 && x > 0 {
        x := x - 1;
      } else if c == 0x09 {
        x := (x + 8) / 8 * 8;
      } else if c == 0x0D {
        x := 0;
      } else if c == 0x0A {
        x := 0;
        y := y + 1;
      } else if c >= 0x20 {
        ghost var v, w := video[..], CellOf(c, attribute);
        ShowsTyped(v, x, y, p, w);
        video[y as int * 80 + x as int] := CellOf(c, attribute);
        assert video[..] == v[y as int * WIDTH + x as int := w];
        x := x + 1;
      }
      sheet := Typed(p, c, attribute);
    }

    /** monitor_put: the sheet is written on, and the screen goes on showing its last rows. */
    method Put(c: Char)
      requires Valid()
      modifies this`x, this`y, this`sheet, video
      ensures Valid() && sheet == Paper.Put(old(sheet), c, Attribute())
    {
      hide Typed;
      Type(c);
      if x >= 80 {
        x := 0;
        y := y + 1;
      }
      sheet := Turned(sheet);
      Scroll();
    }

    /** monitor_write of the characters of a text. */
    method Write(s: seq<Char>)
      requires Valid()
      modifies this`x, this`y, this`sheet, video
      ensures Valid() && sheet == Paper.Write(old(sheet), s, Attribute())
    {
      ghost var p := sheet;
      for i := 0 to |s|
        invariant Valid() && sheet == Paper.Write(p, s[..i], Attribute())
      {
        assert s[..i + 1][..i] == s[..i];
        Put(s[i]);
      }
      assert s[..|s|] == s;
    }

    /** monitor_write of a string that ends at its first NUL, at n. */
    method WriteString(c: array<Char>, ghost n: nat)
      requires Valid() && n < c.Length && c[n] == 0 && 0 !in c[..n]
      modifies this`x, this`y, this`sheet, video
      ensures Valid() && sheet == Paper.Write(old(sheet), old(c[..n]), Attribute())
    {
      ghost var p, s := sheet, c[..n];
      var i := 0;
      while c[i] != 0
        invariant i <= n && Valid() && c[..n] == s && c[n] == 0
        invariant sheet == Paper.Write(p, s[..i], Attribute())
        decreases n - i
      {
        assert s[..i + 1][..i] == s[..i];
        Put(c[i]);
        i := i + 1;
      }
      assert i == n && s[..n] == s;
    }

    /** The next digit of a text that is being written. */
    method PutDigit(d: nat, ghost p: Sheet, ghost done: seq<Char>) returns (ghost now: seq<Char>)
      requires Valid() && d < 16 && Ready(p) && sheet == Paper.Write(p, done, Attribute())
      modifies this`x, this`y, this`sheet, video
      ensures Valid() && now == done + [DigitChar(d)] && sheet == Paper.Write(p, now, Attribute())
    {
      if d >= 0xA {
        Put(d - 0xA + 0x61);
      } else {
        Put(d + ZERO);
      }
      now := Extended(p, done, DigitChar(d), Attribute());
    }

    /** monitor_write_hex: prints 0x and the digits, leaving out leading zeros. */
    method WriteHex(n: Word)
      requires Valid()
      modifies this`x, this`y, this`sheet, video
      ensures Valid() && sheet == Paper.Write(old(sheet), HexText(n), Attribute())
    {
      hide Shows, Ready, Paper.Write, Shr, Attribute;
      ghost var p := sheet;
      Write([0x30, 0x78]);
      ghost var done: seq<Char> := [0x30, 0x78];
      var noZeroes := true;
      var i := 28;
      ShrAll(n);
      while i > 0
        invariant 0 <= i <= 28 && i % 4 == 0 && Valid()
        invariant sheet == Paper.Write(p, done, Attribute())
        invariant done == [0x30, 0x78] + Digits(Shr(n, i + 4), 16)
        invariant noZeroes <==> Shr(n, i + 4) == 0
        decreases i
      {
        ShrFour(n, i);
        var tmp := Shr(n, i) % 0x10;
        if tmp != 0 || !noZeroes {
          noZeroes := false;
          done := PutDigit(tmp, p, done);
        }
        i := i - 4;
      }
      ShrFour(n, 0);
      ShrZero(n);
      done := PutDigit(n % 0x10, p, done);
      assert done == HexText(n);
    }

    /** monitor_write_dec */
    method WriteDec(n: Word)
      requires Valid()
      modifies this`x, this`y, this`sheet, video
      ensures Valid() && sheet == Paper.Write(old(sheet), DecimalText(n), Attribute())
    {
      if n == 0 {
        ghost var done := PutDigit(0, sheet, []);
        return;
      }
      var c, c2 := new Char[32], new Char[32];
      var i := LowDigits(n, c);
      ghost var text := c[..i];
      c[i] := 0;
      assert c[..i] == text;
      Reverse(c, i, c2);
      DigitsNotNul(n);
      WriteString(c2, i);
    }
  }

  /**
    The digits of monitor_write_dec, from the lowest.  The accumulator is a signed 32-bit number: from
    2^31 on it starts negative and there are no digits.
  */
  method LowDigits(n: Word, c: array<Char>) returns (i: nat)
    requires n > 0 && c.Length == 32
    modifies c
    ensures i <= 10 && Backwards(c[..i]) == DecimalText(n)
  {
    var acc: int := if n < 0x8000_0000 then n else n - 0x1_0000_0000;
    ghost var start := acc;
    i := 0;
    if acc > 0 {
      DecimalLength(acc, 10);
    }
    while acc > 0
      invariant 0 <= i <= 10
      invariant start > 0 ==>
                  && acc >= 0 && |Digits(acc, 10)| + i == |Digits(start, 10)|
                  && Digits(start, 10) == Digits(acc, 10) + Backwards(c[..i])
      invariant start <= 0 ==> acc == start && i == 0
      decreases acc
    {
      ghost var was := c[..i];
      c[i] := ZERO + acc % 10;
      assert c[..i + 1] == was + [DigitChar(acc % 10)];
      BackwardsMore(was, DigitChar(acc % 10));
      acc := acc / 10;
      i := i + 1;
    }
  }

  /** The reversal: c2 gets the n characters of c backwards, and a NUL. */
  method Reverse(c: array<Char>, n: nat, c2: array<Char>)
    requires n < c.Length && n < c2.Length && c != c2
    modifies c2
    ensures c2[..n] == Backwards(c[..n]) && c2[n] == 0
  {
    var i: int := n;
    c2[i] := 0;
    i := i - 1;
    var j := 0;
    while i >= 0
      invariant -1 <= i < n && j == n - 1 - i
      invariant c2[n] == 0 && forall h :: i < h < n ==> c2[h] == c[n - 1 - h]
    {
      c2[i] := c[j];
      i, j := i - 1, j + 1;
    }
  }

  lemma DigitsNotNul(n: Word)
    ensures 0 !in DecimalText(n)
  {
    NumeralRoundTrip(n, 10);
  }

  lemma BackwardsMore(s: seq<Char>, c: Char)
    ensures Backwards(s + [c]) == [c] + Backwards(s)
  {
    assert (s + [c])[..|s|] == s;
  }

  function Backwards(s: seq<Char>): (r: seq<Char>)
    ensures |r| == |s| && forall k :: 0 <= k < |s| ==> r[k] == s[|s| - 1 - k]
  {
    if s == [] then [] else [s[|s| - 1]] + Backwards(s[..|s| - 1])
  }

  /** A text written and one more character put are the longer text written. */
  ghost function Extended(p: Sheet, s: seq<Char>, c: Char, attribute: nat): (t: seq<Char>)
    requires Ready(p) && attribute < 0x100
    ensures t == s + [c] && Paper.Write(p, t, attribute) == Paper.Put(Paper.Write(p, s, attribute), c, attribute)
  {
    assert (s + [c])[..|s|] == s;
    s + [c]
  }
}
