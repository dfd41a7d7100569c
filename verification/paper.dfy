/**
  What the text console means: characters typed on a sheet that is 80 columns wide and as long as it
  needs to be (src/monitor.c).  The screen shows its last 25 rows.
*/
module Paper {
  const WIDTH := 80
  const HEIGHT := 25

  /** A C char is signed here. */
  type Char = c: int | -128 <= c < 128

  type Cell = w: int | 0 <= w < 0x1_0000

  /** A space, white on black: what scrolling leaves in the last row. */
  const BLANK: Cell := 0x20 + 0x100 * 0x0F

  datatype Sheet = Sheet(rows: seq<seq<Cell>>, x: nat, y: nat)

  /** All rows have their width, there is at least a screenful, and the cursor is on the sheet. */
  ghost predicate Whole(p: Sheet) {
    |p.rows| >= HEIGHT && (forall r :: 0 <= r < |p.rows| ==> |p.rows[r]| == WIDTH) && p.y < |p.rows|
  }

  ghost predicate Ready(p: Sheet) {
    Whole(p) && p.x < WIDTH
  }

  /** A row of spaces, white on black. */
  function BlankRow(): (r: seq<Cell>)
    ensures |r| == WIDTH && forall k :: 0 <= k < WIDTH ==> r[k] % 0x100 == ' ' as int && r[k] / 0x100 == 0x0F
  {
    seq(WIDTH, _ => BLANK)
  }

  /** The character and its colours in one cell. */
  function CellOf(c: Char, attribute: nat): (w: Cell)
    requires 32 <= c && attribute < 0x100
    ensures w % 0x100 == c && w / 0x100 == attribute
  {
    c + 0x100 * attribute
  }

  function NextTab(x: nat): (t: nat)
    ensures x < t <= x + 8 && t % 8 == 0
  {
    (x + 8) / 8 * 8
  }

  /** A cell at the cursor, which moves on. */
  function Printed(p: Sheet, w: Cell): (q: Sheet)
    requires p.y < |p.rows| && p.x < |p.rows[p.y]|
  {
    var row: seq<Cell> := p.rows[p.y][p.x := w];
    Sheet(p.rows[p.y := row], p.x + 1, p.y)
  }

  function Typed(p: Sheet, c: Char, attribute: nat): (q: Sheet)
    requires Ready(p) && attribute < 0x100
  {
    if c == 0x08 && p.x > 0 then p.(x := p.x - 1)
    else if c == 0x09 then p.(x := NextTab(p.x))
    else if c == 0x0D then p.(x := 0)
    else if c == 0x0A then p.(x := 0, y := p.y + 1)
    else if c >= 0x20 then Printed(p, CellOf(c, attribute))
    else p
  }

  function Turned(p: Sheet): (q: Sheet) {
    if p.x >= WIDTH then p.(x := 0, y := p.y + 1) else p
  }

  /** The sheet grows by a blank row when the cursor leaves it. */
  function Grown(p: Sheet): (q: Sheet) {
    if p.y == |p.rows| then p.(rows := p.rows + [BlankRow()]) else p
  }

  function Put(p: Sheet, c: Char, attribute: nat): (q: Sheet)
    requires Ready(p) && attribute < 0x100
    ensures Ready(q)
  {
    Grown(Turned(Typed(p, c, attribute)))
  }

  function Write(p: Sheet, s: seq<Char>, attribute: nat): (q: Sheet)
    requires Ready(p) && attribute < 0x100
    ensures Ready(q)
  {
    if s == [] then p else Put(Write(p, s[..|s| - 1], attribute), s[|s| - 1], attribute)
  }

  // ---------- what writing does to the sheet ----------

  /** A character changes no row but the cursor's; the others stay as they are, and rows are only added. */
  lemma PutKeepsOtherRows(p: Sheet, c: Char, attribute: nat, r: nat)
    requires Ready(p) && attribute < 0x100 && r < |p.rows| && r != p.y
    ensures |Put(p, c, attribute).rows| >= |p.rows| && Put(p, c, attribute).rows[r] == p.rows[r]
  {
  }

  /** Rows above the cursor are final, whatever is written. */
  lemma {:induction false} WriteKeepsRowsAbove(p: Sheet, s: seq<Char>, attribute: nat, r: nat)
    requires Ready(p) && attribute < 0x100 && r < p.y
    ensures var q := Write(p, s, attribute);
            p.y <= q.y && |p.rows| <= |q.rows| && q.rows[r] == p.rows[r]
    decreases |s|
  {
    if s != [] {
      WriteKeepsRowsAbove(p, s[..|s| - 1], attribute, r);
      PutKeepsOtherRows(Write(p, s[..|s| - 1], attribute), s[|s| - 1], attribute, r);
    }
  }

  /** The cell at a position counted along the rows. */
  function At(p: Sheet, i: nat): (w: Cell)
    requires Whole(p) && i < WIDTH * |p.rows|
  {
    p.rows[i / WIDTH][i % WIDTH]
  }

  function Position(p: Sheet): (i: nat) {
    WIDTH * p.y + p.x
  }

  /**
    Printable text is laid out along the rows: character k of the text is k cells after the cursor,
    every cell before the cursor is unchanged, and the cursor ends just after the text.
  */
  lemma {:induction false} TextRunsOn(p: Sheet, s: seq<Char>, attribute: nat)
    requires Ready(p) && attribute < 0x100 && Printable(s)
    ensures var q := Write(p, s, attribute);
            && Position(q) == Position(p) + |s| && |q.rows| >= |p.rows|
            && (forall i :: 0 <= i < Position(p) ==> At(q, i) == At(p, i))
            && (forall i :: Position(p) <= i < Position(p) + |s| ==> At(q, i) == CellOf(s[i - Position(p)], attribute))
    decreases |s|
  {
    hide At, Put, Position;
    if s != [] {
      var n := |s| - 1;
      TextRunsOn(p, s[..n], attribute);
      PrintableStep(Write(p, s[..n], attribute), s[n], attribute);
    }
  }

  predicate Printable(s: seq<Char>) {
    forall k :: 0 <= k < |s| ==> 0x20 <= s[k]
  }

  lemma PrintableStep(p: Sheet, c: Char, attribute: nat)
    requires Ready(p) && attribute < 0x100 && 0x20 <= c
    ensures var q := Put(p, c, attribute);
            && Position(q) == Position(p) + 1 && |q.rows| >= |p.rows|
            && At(q, Position(p)) == CellOf(c, attribute)
            && forall i :: 0 <= i < Position(p) ==> At(q, i) == At(p, i)
  {
    var q := Put(p, c, attribute);
    forall i | 0 <= i <= Position(p)
      ensures At(q, i) == if i == Position(p) then CellOf(c, attribute) else At(p, i)
    {
      assert i / WIDTH == p.y ==> i % WIDTH == i - WIDTH * p.y;
    }
  }

  // ---------- control characters ----------

  /** Characters below the space print nothing; this is where each of them leaves the cursor. */
  lemma ControlMoves(p: Sheet, c: Char, attribute: nat)
    requires Ready(p) && attribute < 0x100 && c < 0x20
    ensures var q := Put(p, c, attribute);
            && p.rows <= q.rows
            && (c == 0x0A ==> q.x == 0 && q.y == p.y + 1)
            && (c == 0x0D ==> q.x == 0 && q.y == p.y)
            && (c == 0x08 ==> q.x == (if p.x == 0 then 0 else p.x - 1) && q.y == p.y)
            && (c == 0x09 ==> Position(p) < Position(q) <= Position(p) + 8 && Position(q) % 8 == 0)
            && (c != 0x0A && c != 0x0D && c != 0x08 && c != 0x09 ==> q == p)
  {
  }

  lemma {:induction false} WriteTwice(p: Sheet, s: seq<Char>, t: seq<Char>, attribute: nat)
    requires Ready(p) && attribute < 0x100
    ensures Write(p, s + t, attribute) == Write(Write(p, s, attribute), t, attribute)
    decreases |t|
  {
    hide Put;
    if t == [] {
      assert s + t == s;
    } else {
      WriteTwice(p, s, t[..|t| - 1], attribute);
      assert (s + t)[..|s + t| - 1] == s + t[..|t| - 1];
    }
  }

  lemma WriteOne(p: Sheet, c: Char, attribute: nat)
    requires Ready(p) && attribute < 0x100
    ensures Write(p, [c], attribute) == Put(p, c, attribute)
  {
    hide Put;
    assert [c][..0] == [];
  }

  /** A control character in the middle of a text. */
  lemma WriteAround(p: Sheet, s: seq<Char>, c: Char, t: seq<Char>, attribute: nat)
    requires Ready(p) && attribute < 0x100
    ensures Write(p, s + [c] + t, attribute) == Write(Put(Write(p, s, attribute), c, attribute), t, attribute)
  {
    hide Put, Write;
    WriteTwice(p, s + [c], t, attribute);
    WriteTwice(p, s, [c], attribute);
    WriteOne(Write(p, s, attribute), c, attribute);
  }

  /**
    Lines: after any text s and a newline, printable text t begins at the start of the next row, and
    every cell up to there is as s left it.
  */
  lemma LinesRunOn(p: Sheet, s: seq<Char>, t: seq<Char>, attribute: nat)
    requires Ready(p) && attribute < 0x100 && Printable(t)
    ensures var m, q := Write(p, s, attribute), Write(p, s + [0x0A] + t, attribute);
            var start := WIDTH * (m.y + 1);
            && Position(q) == start + |t| && |q.rows| >= |m.rows| && |q.rows| > m.y + 1
            && (forall i :: 0 <= i < start ==> At(q, i) == At(m, i))
            && (forall k :: 0 <= k < |t| ==> At(q, start + k) == CellOf(t[k], attribute))
  {
    hide Put, Write, At;
    var m := Write(p, s, attribute);
    var n := Put(m, 0x0A, attribute);
    WriteAround(p, s, 0x0A, t, attribute);
    ControlMoves(m, 0x0A, attribute);
    TextRunsOn(n, t, attribute);
    SameCells(m, n);
    var q := Write(n, t, attribute);
    forall k | 0 <= k < |t|
      ensures At(q, Position(n) + k) == CellOf(t[k], attribute)
    {
      assert t[k] == t[Position(n) + k - Position(n)];
    }
  }

  /** A sheet that only gained rows shows the same at every position it had. */
  lemma SameCells(p: Sheet, q: Sheet)
    requires Whole(p) && Whole(q) && p.rows <= q.rows
    ensures forall i :: 0 <= i < WIDTH * |p.rows| ==> At(q, i) == At(p, i)
  {
  }

  /** After a carriage return printable text is written over the row from its start. */
  lemma ReturnOverwrites(p: Sheet, s: seq<Char>, t: seq<Char>, attribute: nat)
    requires Ready(p) && attribute < 0x100 && Printable(t)
    ensures var m, q := Write(p, s, attribute), Write(p, s + [0x0D] + t, attribute);
            var start := WIDTH * m.y;
            && Position(q) == start + |t| && |q.rows| >= |m.rows|
            && (forall i :: 0 <= i < start ==> At(q, i) == At(m, i))
            && (forall k :: 0 <= k < |t| ==> At(q, start + k) == CellOf(t[k], attribute))
  {
    hide Put, Write, At;
    var m := Write(p, s, attribute);
    var n := Put(m, 0x0D, attribute);
    WriteAround(p, s, 0x0D, t, attribute);
    ControlMoves(m, 0x0D, attribute);
    TextRunsOn(n, t, attribute);
    SameCells(m, n);
    var q := Write(n, t, attribute);
    forall k | 0 <= k < |t|
      ensures At(q, Position(n) + k) == CellOf(t[k], attribute)
    {
      assert t[k] == t[Position(n) + k - Position(n)];
    }
  }

  /**
    A backspace takes a printed character back, so that the next one is typed over it, exactly when the
    character did not end its row: the cursor never goes back to the row above.
  */
  lemma BackspaceTypesOver(p: Sheet, c: Char, d: Char, attribute: nat)
    requires Ready(p) && attribute < 0x100 && 0x20 <= c && 0x20 <= d
    ensures Put(Put(Put(p, c, attribute), 0x08, attribute), d, attribute) == Put(p, d, attribute) <==> p.x + 1 < WIDTH
  {
    var a := Put(p, c, attribute);
    var b := Put(a, 0x08, attribute);
    if p.x + 1 < WIDTH {
      assert b.x == p.x && b.y == p.y;
      var row := p.rows[p.y];
      assert row[p.x := CellOf(c, attribute)][p.x := CellOf(d, attribute)] == row[p.x := CellOf(d, attribute)];
      assert Put(b, d, attribute).rows == Put(p, d, attribute).rows;
    } else {
      assert b == a && b.x == 0;
    }
  }

  // ---------- the screen ----------

  /** The cell of row r and column k of the screen. */
  function OnScreen(video: seq<Cell>, r: nat, k: nat): (w: Cell)
    requires |video| == WIDTH * HEIGHT && r < HEIGHT && k < WIDTH
  {
    video[r * WIDTH + k]
  }

  /** The screen shows the last 25 rows of the sheet, and its cursor is the sheet's. */
  ghost predicate Shows(video: seq<Cell>, x: nat, y: nat, p: Sheet) {
    && |video| == WIDTH * HEIGHT && |p.rows| >= HEIGHT
    && (forall r :: 0 <= r < |p.rows| ==> |p.rows[r]| == WIDTH)
    && x == p.x && y + |p.rows| == p.y + HEIGHT
    && forall r, k :: 0 <= r < HEIGHT && 0 <= k < WIDTH ==> OnScreen(video, r, k) == p.rows[|p.rows| - HEIGHT + r][k]
  }

  lemma ShowsTyped(video: seq<Cell>, x: nat, y: nat, p: Sheet, w: Cell)
    requires Shows(video, x, y, p) && x < WIDTH && y < HEIGHT
    ensures Shows(video[y * WIDTH + x := w], x + 1, y, Printed(p, w))
  {
    var v, q := video[y * WIDTH + x := w], Printed(p, w);
    forall r, k | 0 <= r < HEIGHT && 0 <= k < WIDTH
      ensures OnScreen(v, r, k) == q.rows[|q.rows| - HEIGHT + r][k]
    {
      assert OnScreen(video, r, k) == p.rows[|p.rows| - HEIGHT + r][k];
      assert r * WIDTH + k == y * WIDTH + x <==> r == y && k == x;
    }
  }

  /** Scrolling by one row is what a sheet that grows by a blank row looks like. */
  lemma ShowsScrolled(video: seq<Cell>, v: seq<Cell>, x: nat, p: Sheet)
    requires Shows(video, x, HEIGHT, p) && |v| == WIDTH * HEIGHT
    requires forall i :: 0 <= i < WIDTH * (HEIGHT - 1) ==> v[i] == video[i + WIDTH]
    requires forall i :: WIDTH * (HEIGHT - 1) <= i < WIDTH * HEIGHT ==> v[i] == BLANK
    ensures Shows(v, x, HEIGHT - 1, Grown(p))
  {
    var q := Grown(p);
    forall r, k | 0 <= r < HEIGHT && 0 <= k < WIDTH
      ensures OnScreen(v, r, k) == q.rows[|q.rows| - HEIGHT + r][k]
    {
      if r < HEIGHT - 1 {
        assert OnScreen(video, r + 1, k) == p.rows[|p.rows| - HEIGHT + (r + 1)][k];
        assert v[r * WIDTH + k] == video[r * WIDTH + k + WIDTH];
      }
    }
  }

  /** A clear screen shows a sheet of 25 rows of spaces. */
  function Clear(blank: Cell): (p: Sheet)
    ensures Ready(p)
  {
    Sheet(seq(HEIGHT, _ => seq(WIDTH, _ => blank)), 0, 0)
  }

  lemma ShowsClear(video: seq<Cell>, blank: Cell)
    requires |video| == WIDTH * HEIGHT && forall i :: 0 <= i < |video| ==> video[i] == blank
    ensures Shows(video, 0, 0, Clear(blank))
  {
  }
}
