/** Numbers as text: what monitor_write_hex and monitor_write_dec print (src/monitor.c:121-184). */
module Numerals {
  import opened Memory
  import opened Paper

  const ZERO: Char := 0x30

  predicate Base(b: nat) {
    b == 10 || b == 16
  }

  function DigitChar(d: nat): (c: Char)
    requires d < 16
    ensures c == "0123456789abcdef"[d] as int
  {
    if d >= 0xA then d - 0xA + 0x61 else d + ZERO
  }

  /** The value of a digit as a reader takes it. */
  function DigitValue(c: Char): (d: int) {
    if 0x61 <= c <= 0x66 then c - 0x61 + 10
    else if 0x30 <= c <= 0x39 then c - 0x30
    else -1
  }

  /** The digits of n, none for 0. */
  function Digits(n: nat, base: nat): (s: seq<Char>)
    requires Base(base)
  {
    if n == 0 then [] else Digits(n / base, base) + [DigitChar(n % base)]
  }

  function Numeral(n: nat, base: nat): (s: seq<Char>)
    requires Base(base)
  {
    if n == 0 then [ZERO] else Digits(n, base)
  }

  /** The number that a text of digits stands for. */
  function Parse(s: seq<Char>, base: nat): (n: int) {
    if s == [] then 0 else Parse(s[..|s| - 1], base) * base + DigitValue(s[|s| - 1])
  }

  lemma {:induction false} ParseDigits(n: nat, base: nat)
    requires Base(base)
    ensures Parse(Digits(n, base), base) == n
    ensures n > 0 ==> |Digits(n, base)| > 0 && Digits(n, base)[0] != ZERO
    ensures forall c :: c in Digits(n, base) ==> 0 <= DigitValue(c) < base && 0x20 <= c
  {
    if n > 0 {
      ParseDigits(n / base, base);
      var s, t := Digits(n, base), Digits(n / base, base);
      assert s[..|s| - 1] == t;
      if n / base > 0 {
        assert s[0] == t[0];
      } else {
        assert t == [] && n % base == n;
      }
    }
  }

  /** A numeral is read back as its number, has only digits, and starts with 0 only if it is 0. */
  lemma NumeralRoundTrip(n: nat, base: nat)
    requires Base(base)
    ensures Parse(Numeral(n, base), base) == n
    ensures |Numeral(n, base)| > 0 && (Numeral(n, base)[0] == ZERO <==> n == 0) && (n == 0 ==> |Numeral(n, base)| == 1)
    ensures forall c :: c in Numeral(n, base) ==> 0 <= DigitValue(c) < base && 0x20 <= c
  {
    ParseDigits(n, base);
    if n == 0 {
      assert Numeral(n, base)[..0] == [];
    }
  }

  /** A number below ten to the k has at most k digits. */
  lemma {:induction false} DecimalLength(n: nat, k: nat)
    requires k <= 10 && n < [1, 10, 100, 1000, 10000, 100000, 1000000, 10000000, 100000000, 1000000000, 10000000000][k]
    ensures |Digits(n, 10)| <= k
    decreases k
  {
    if n > 0 {
      DecimalLength(n / 10, k - 1);
    }
  }

  /** What monitor_write_dec prints: its accumulator is signed. */
  function DecimalText(n: Word): (s: seq<Char>) {
    if n < 0x8000_0000 then Numeral(n, 10) else []
  }

  /** The decimal print can be read back exactly for numbers below 2^31; from there on nothing is printed. */
  lemma DecimalReadBack(n: Word)
    ensures Parse(DecimalText(n), 10) == n <==> n < 0x8000_0000
    ensures DecimalText(n) == [] <==> n >= 0x8000_0000
  {
    NumeralRoundTrip(n, 10);
  }

  function HexText(n: Word): (s: seq<Char>) {
    [0x30, 0x78] + Numeral(n, 16)
  }

  /** The hexadecimal print, after its 0x, can be read back for every 32-bit number, and no two print alike. */
  lemma HexReadBack(n: Word, m: Word)
    ensures |HexText(n)| >= 3 && HexText(n)[..2] == ['0' as int, 'x' as int] && Parse(HexText(n)[2..], 16) == n
    ensures HexText(n) == HexText(m) ==> n == m
  {
    NumeralRoundTrip(n, 16);
    NumeralRoundTrip(m, 16);
    assert HexText(n)[2..] == Numeral(n, 16) && HexText(m)[2..] == Numeral(m, 16);
  }

  // ---------- shifting by digits ----------

  /** n >> i */
  function Shr(n: Word, i: nat): (r: Word) {
    if i == 0 then n else Shr(n, i - 1) / 2
  }

  lemma ShrFour(n: Word, i: nat)
    ensures Shr(n, i + 4) == Shr(n, i) / 16
  {
    assert Shr(n, i + 2) == Shr(n, i + 1) / 2 == Shr(n, i) / 2 / 2;
    assert Shr(n, i + 4) == Shr(n, i + 3) / 2 == Shr(n, i + 2) / 2 / 2;
  }

  lemma ShrZero(n: Word)
    ensures Shr(n, 0) == n
  {
  }

  lemma ShrAll(n: Word)
    ensures Shr(n, 32) == 0
  {
    ShrFour(n, 0);
    ShrFour(n, 4);
    ShrFour(n, 8);
    ShrFour(n, 12);
    ShrFour(n, 16);
    ShrFour(n, 20);
    ShrFour(n, 24);
    ShrFour(n, 28);
  }
}
