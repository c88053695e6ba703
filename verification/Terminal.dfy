/** One terminal: the VT100 parser and the VGA text driver under it (drivers/vt100.c, drivers/vga.c),
    as a function of the bytes it is fed. */
module Terminal {

  const WIDTH: nat := 80
  const HEIGHT: nat := 25
  const PARAMS: nat := 8

  type Byte = x: int | 0 <= x < 256

  datatype Cell = Cell(ch: Byte, color: nat)
  type Cells = c: seq<Cell> | |c| == 2000 witness seq(2000, _ => Cell(32, 7))

  datatype Mode = Normal | Esc | Csi

  /** What vt100_save_context saves: parser, cursors, colours. */
  datatype Ctx = Ctx(mode: Mode, params: seq<int>, nparam: nat, curRow: int, curCol: int, savedRow: int, savedCol: int,
                     fg: nat, bg: nat, bold: bool, row: int, col: int, color: nat, prot: int)

  datatype Term = Term(ctx: Ctx, cells: Cells)

  /** The parser's cursor is the VGA cursor, on the screen, and so is the saved one. */
  predicate GoodCtx(c: Ctx) {
    && |c.params| == PARAMS && c.nparam <= PARAMS && (forall i :: 0 <= i < PARAMS ==> c.params[i] >= 0)
    && c.curRow == c.row && c.curCol == c.col && 0 <= c.row < HEIGHT && 0 <= c.col < WIDTH
    && 0 <= c.savedRow < HEIGHT && 0 <= c.savedCol < WIDTH && c.prot == 0
  }

  function Clamp(v: int, lo: int, hi: int): int { if v < lo then lo else if v > hi then hi else v }

  // ---------------------------------------------------------------------------
  // VGA
  // ---------------------------------------------------------------------------

  function Blank(color: nat): Cell { Cell(32, color) }

  function Scrolled(cells: Cells, prot: int, color: nat): Cells {
    var start := Clamp(prot, 0, 24) * 80;
    cells[..start] + cells[start + 80..] + seq(80, _ => Blank(color))
  }

  /** Every row moves up by one and the last is blank. */
  lemma ScrolledRows(cells: Cells, color: nat, row: int, col: int)
    requires 0 <= row < HEIGHT && 0 <= col < WIDTH
    ensures Scrolled(cells, 0, color)[row * 80 + col] == if row < 24 then cells[(row + 1) * 80 + col] else Blank(color)
  {
  }

  function Cleared(color: nat): Cells { seq(2000, _ => Blank(color)) }

  /** Moving the VGA cursor: wrap at the right edge, scroll at the bottom. */
  function Settle(t: Term): Term {
    var c := if t.ctx.col >= WIDTH then t.ctx.(col := 0, row := t.ctx.row + 1) else t.ctx;
    if c.row >= HEIGHT then Term(c.(row := 24), Scrolled(t.cells, c.prot, c.color)) else Term(c, t.cells)
  }

  function VgaPut(t: Term, b: Byte): Term
    requires 0 <= t.ctx.row < HEIGHT && 0 <= t.ctx.col < WIDTH
  {
    var c := t.ctx;
    Settle(
      if b == 10 then t.(ctx := c.(col := 0, row := c.row + 1))
      else if b == 13 then t.(ctx := c.(col := 0))
      else if b == 9 then t.(ctx := c.(col := (c.col + 8) / 8 * 8))
      else if b == 8 then (if c.col > 0 then t.(ctx := c.(col := c.col - 1)) else t)
      else Term(c.(col := c.col + 1), t.cells[c.row * 80 + c.col := Cell(b, c.color)]))
  }

  function VgaClear(t: Term): Term { Term(t.ctx.(prot := 0, row := 0, col := 0), Cleared(t.ctx.color)) }

  /** An attribute byte from a foreground and a background. */
  function Attribute(fg: nat, bg: nat): nat { bg * 16 % 256 + fg % 16 }

  // ---------------------------------------------------------------------------
  // VT100
  // ---------------------------------------------------------------------------

  function Bright(fg: nat): nat { if fg / 8 % 2 == 1 then fg else fg + 8 }

  function SgrColor(c: Ctx): nat { Attribute(if c.bold then Bright(c.fg) else c.fg, c.bg) }

  function Sgr(c: Ctx): Ctx { c.(color := SgrColor(c)) }

  predicate InRegion(i: nat, r0: int, c0: int, r1: int, c1: int) {
    r0 <= i / 80 < r1 && (i / 80 == r0 ==> c0 <= i % 80) && (i / 80 == r1 - 1 ==> i % 80 < c1)
  }

  /** Spaces from (r0, c0) up to the end of the region, exclusive of column c1 in its last row. */
  function Erased(t: Term, r0: int, c0: int, r1: int, c1: int): Term {
    var a, b, p, q := Clamp(r0, 0, 25), Clamp(r1, 0, 25), Clamp(c0, 0, 80), Clamp(c1, 0, 80);
    t.(cells := seq(2000, i requires 0 <= i < 2000 =>
      if InRegion(i, a, p, b, q) then Blank(SgrColor(t.ctx)) else t.cells[i]))
  }

  /** The parser moves both cursors. */
  function MoveTo(t: Term, row: int, col: int): Term {
    t.(ctx := t.ctx.(curRow := row, curCol := col, row := row, col := col))
  }

  /** VGA colour numbers of the ANSI colours, in their order. */
  function AnsiColor(v: int): nat
    requires 0 <= v < 8
  {
    [0, 4, 2, 6, 1, 5, 3, 7][v]
  }

  function SgrOne(c: Ctx, v: int): Ctx {
    if v == 0 then c.(fg := 15, bg := 0, bold := false)
    else if v == 1 then c.(bold := true)
    else if v == 22 then c.(bold := false)
    else if 30 <= v <= 37 then c.(fg := AnsiColor(v - 30))
    else if v == 39 then c.(fg := 15)
    else if 40 <= v <= 47 then c.(bg := AnsiColor(v - 40))
    else if v == 49 then c.(bg := 0)
    else if 90 <= v <= 97 then c.(fg := Bright(AnsiColor(v - 90)))
    else if 100 <= v <= 107 then c.(bg := AnsiColor(v - 100))
    else c
  }

  /** The first n parameters of a colour sequence, in order. */
  function SgrMany(c: Ctx, ps: seq<int>, n: nat): (r: Ctx)
    requires n <= |ps|
    ensures r == c.(fg := r.fg, bg := r.bg, bold := r.bold)
  {
    if n == 0 then c else SgrOne(SgrMany(c, ps, n - 1), ps[n - 1])
  }

  function Param(c: Ctx, i: nat): int
    requires GoodCtx(c) && i < PARAMS
  {
    if i < c.nparam then c.params[i] else 0
  }

  function AtLeastOne(p: int): int { if p == 0 then 1 else p }

  /** vt_handle_csi. */
  function HandleCsi(t: Term, cmd: Byte): (r: Term)
    requires GoodCtx(t.ctx)
    ensures GoodCtx(r.ctx)
  {
    var c := t.ctx;
    var p0, p1 := Param(c, 0), Param(c, 1);
    var n := AtLeastOne(p0);
    if cmd == 65 then MoveTo(t, Clamp(c.curRow - n, 0, 24), c.curCol)
    else if cmd == 66 then MoveTo(t, Clamp(c.curRow + n, 0, 24), c.curCol)
    else if cmd == 67 then MoveTo(t, c.curRow, Clamp(c.curCol + n, 0, 79))
    else if cmd == 68 then MoveTo(t, c.curRow, Clamp(c.curCol - n, 0, 79))
    else if cmd == 69 then MoveTo(t, Clamp(c.curRow + n, 0, 24), 0)
    else if cmd == 70 then MoveTo(t, Clamp(c.curRow - n, 0, 24), 0)
    else if cmd == 71 then MoveTo(t, c.curRow, Clamp(n - 1, 0, 79))
    else if cmd == 72 || cmd == 102 then MoveTo(t, Clamp(n - 1, 0, 24), Clamp(AtLeastOne(p1) - 1, 0, 79))
    else if cmd == 74 then
      if p0 == 0 then Erased(t, c.curRow, c.curCol, 25, 80)
      else if p0 == 1 then Erased(t, 0, 0, c.curRow, c.curCol + 1)
      else if p0 == 2 then MoveTo(VgaClear(t), 0, 0)
      else t
    else if cmd == 75 then
      if p0 == 0 then Erased(t, c.curRow, c.curCol, c.curRow + 1, 80)
      else if p0 == 1 then Erased(t, c.curRow, 0, c.curRow + 1, c.curCol + 1)
      else if p0 == 2 then Erased(t, c.curRow, 0, c.curRow + 1, 80)
      else t
    else if cmd == 109 then
      t.(ctx := Sgr(if c.nparam == 0 then c.(fg := 15, bg := 0, bold := false) else SgrMany(c, c.params, c.nparam)))
    else if cmd == 115 then t.(ctx := c.(savedRow := c.curRow, savedCol := c.curCol))
    else if cmd == 117 then MoveTo(t, c.savedRow, c.savedCol)
    else t
  }

  predicate Printable(b: Byte) { b == 10 || b == 13 || b == 8 || b == 9 || (b >= 32 && b != 127) }

  /** How the parser tracks what the VGA driver does with a printable byte. */
  function Track(c: Ctx, b: Byte): Ctx {
    if b == 10 then c.(curCol := 0, curRow := if c.curRow + 1 >= HEIGHT then 24 else c.curRow + 1)
    else if b == 13 then c.(curCol := 0)
    else if b == 8 then (if c.curCol > 0 then c.(curCol := c.curCol - 1) else c)
    else
      var col := if b == 9 then (c.curCol + 8) / 8 * 8 else c.curCol + 1;
      if col >= WIDTH then c.(curCol := 0, curRow := if c.curRow + 1 >= HEIGHT then 24 else c.curRow + 1)
      else c.(curCol := col)
  }

  /** A byte outside any escape sequence. */
  function PutNormal(t: Term, b: Byte): (r: Term)
    requires GoodCtx(t.ctx)
    ensures GoodCtx(r.ctx)
  {
    if b == 27 then t.(ctx := t.ctx.(mode := Esc))
    else if Printable(b) then var u := VgaPut(t, b); u.(ctx := Track(u.ctx, b))
    else t
  }

  /** A byte after ESC. */
  function PutEsc(t: Term, b: Byte): (r: Term)
    requires GoodCtx(t.ctx)
    ensures GoodCtx(r.ctx)
  {
    var c := t.ctx;
    if b == 91 then t.(ctx := c.(mode := Csi, nparam := 0, params := seq(8, _ => 0)))
    else if b == 99 then
      var u := VgaClear(t);
      u.(ctx := u.ctx.(color := Attribute(15, 0), curRow := 0, curCol := 0,
                       fg := 15, bg := 0, bold := false, mode := Normal))
    else if b == 55 then t.(ctx := c.(savedRow := c.curRow, savedCol := c.curCol, mode := Normal))
    else if b == 56 then MoveTo(t.(ctx := c.(mode := Normal)), c.savedRow, c.savedCol)
    else t.(ctx := c.(mode := Normal))
  }

  /** A byte after ESC [: a digit, a separator, a private marker, or the end of the sequence. */
  function PutCsi(t: Term, b: Byte): (r: Term)
    requires GoodCtx(t.ctx)
    ensures GoodCtx(r.ctx)
  {
    var c := t.ctx;
    if 48 <= b <= 57 then
      var n := if c.nparam == 0 then 1 else c.nparam;
      t.(ctx := c.(nparam := n, params := c.params[n - 1 := c.params[n - 1] * 10 + (b as int - 48)]))
    else if b == 59 then t.(ctx := c.(nparam := if c.nparam < PARAMS then c.nparam + 1 else c.nparam))
    else if b == 63 || b == 62 || b == 61 then t
    else var u := HandleCsi(t, b); u.(ctx := u.ctx.(mode := Normal))
  }

  /** vt100_putchar. */
  function PutChar(t: Term, b: Byte): (r: Term)
    requires GoodCtx(t.ctx)
    ensures GoodCtx(r.ctx)
  {
    match t.ctx.mode
    case Normal => PutNormal(t, b)
    case Esc => PutEsc(t, b)
    case Csi => PutCsi(t, b)
  }

  function Feed(t: Term, bs: seq<Byte>): (r: Term)
    requires GoodCtx(t.ctx)
    ensures GoodCtx(r.ctx)
  {
    if bs == [] then t else PutChar(Feed(t, bs[..|bs| - 1]), bs[|bs| - 1])
  }

  // ---------------------------------------------------------------------------
  // What the sequences do to the screen
  // ---------------------------------------------------------------------------

  /** The offset of the cursor's cell. */
  function At(c: Ctx): int { c.curRow * 80 + c.curCol }

  /** The same context with both cursors at a place. */
  function Moved(c: Ctx, row: int, col: int): Ctx { c.(row := row, col := col, curRow := row, curCol := col) }

  function Min(a: int, b: int): int { if a < b then a else b }
  function Max(a: int, b: int): int { if a < b then b else a }

  /** The row below, the last row staying where it is while the screen moves up. */
  function Below(row: int): int { Min(row + 1, 24) }

  /** The cells of the screen are those of another, moved up by a row if `up`, with a blank last row. */
  ghost predicate Shifted(was: Cells, now: Cells, up: bool, color: nat) {
    forall i :: 0 <= i < 2000 ==> now[i] == if !up then was[i] else if i < 1920 then was[i + 80] else Blank(color)
  }

  /** A printable byte puts itself, in the attribute in force, into the cursor's cell, and the cursor
      goes to the next cell, from the right edge to the start of the row below. If there is none, the
      screen moves up. Nothing else changes. */
  lemma PrintsByte(t: Term, b: Byte)
    requires GoodCtx(t.ctx) && t.ctx.mode.Normal? && b >= 32 && b != 127
    ensures var c, r := t.ctx, PutChar(t, b);
            && 0 <= At(c) < 2000
            && Shifted(t.cells[At(c) := Cell(b, c.color)], r.cells, c.curCol == 79 && c.curRow == 24, c.color)
            && r.ctx == if c.curCol == 79 then Moved(c, Below(c.curRow), 0) else Moved(c, c.curRow, c.curCol + 1)
  {
  }

  /** Line feed, carriage return, tab and backspace move the cursor, the screen up if need be, and
      nothing else; the other control bytes but ESC do nothing. */
  lemma ControlByte(t: Term, b: Byte)
    requires GoodCtx(t.ctx) && t.ctx.mode.Normal? && (b < 32 || b == 127) && b != 27
    ensures var c, r := t.ctx, PutChar(t, b); var tab := c.curCol - c.curCol % 8 + 8;
            && Shifted(t.cells, r.cells, c.curRow == 24 && (b == 10 || (b == 9 && tab == 80)), c.color)
            && r.ctx == if b == 10 then Moved(c, Below(c.curRow), 0)
                        else if b == 13 then Moved(c, c.curRow, 0)
                        else if b == 9 && tab == 80 then Moved(c, Below(c.curRow), 0)
                        else if b == 9 then Moved(c, c.curRow, tab)
                        else if b == 8 then Moved(c, c.curRow, Max(c.curCol - 1, 0))
                        else c
  {
  }

  /** ESC c clears the screen, in the attribute in force, homes the cursor and takes the first colours. */
  lemma FullReset(t: Term)
    requires GoodCtx(t.ctx) && t.ctx.mode.Esc?
    ensures var c, r := t.ctx, PutChar(t, 99);
            && (forall i :: 0 <= i < 2000 ==> r.cells[i] == Blank(c.color))
            && r.ctx == Moved(c, 0, 0).(fg := 15, bg := 0, bold := false, color := 15, mode := Normal)
  {
  }

  /** Where the cursor sequences go; a count of 0 is 1. They touch no cell. */
  lemma CursorMoves(t: Term, cmd: Byte)
    requires GoodCtx(t.ctx) && (65 <= cmd <= 72 || cmd == 102 || cmd == 115 || cmd == 117)
    ensures var c, p, q, r := t.ctx, Param(t.ctx, 0), Param(t.ctx, 1), HandleCsi(t, cmd); var n := Max(p, 1);
            && r.cells == t.cells
            && (cmd == 65 ==> r.ctx == Moved(c, Max(c.curRow - n, 0), c.curCol))
            && (cmd == 66 ==> r.ctx == Moved(c, Min(c.curRow + n, 24), c.curCol))
            && (cmd == 67 ==> r.ctx == Moved(c, c.curRow, Min(c.curCol + n, 79)))
            && (cmd == 68 ==> r.ctx == Moved(c, c.curRow, Max(c.curCol - n, 0)))
            && (cmd == 69 ==> r.ctx == Moved(c, Min(c.curRow + n, 24), 0))
            && (cmd == 70 ==> r.ctx == Moved(c, Max(c.curRow - n, 0), 0))
            && (cmd == 71 ==> r.ctx == Moved(c, c.curRow, Min(n, 80) - 1))
            && (cmd == 72 || cmd == 102 ==> r.ctx == Moved(c, Min(n, 25) - 1, Min(Max(q, 1), 80) - 1))
            && (cmd == 115 ==> r.ctx == c.(savedRow := c.curRow, savedCol := c.curCol))
            && (cmd == 117 ==> r.ctx == Moved(c, c.savedRow, c.savedCol))
  {
  }

  /** A number in decimal digits. */
  function Decimal(n: nat): seq<Byte> { if n < 10 then [48 + n] else Decimal(n / 10) + [48 + n % 10] }

  lemma {:induction false} FeedJoin(t: Term, a: seq<Byte>, b: seq<Byte>)
    requires GoodCtx(t.ctx)
    ensures Feed(t, a + b) == Feed(Feed(t, a), b)
  {
    hide PutChar;
    if b == [] {
      assert a + b == a;
    } else {
      assert (a + b)[..|a + b| - 1] == a + b[..|b| - 1];
      FeedJoin(t, a, b[..|b| - 1]);
    }
  }

  lemma FeedOne(t: Term, b: Byte)
    requires GoodCtx(t.ctx)
    ensures Feed(t, [b]) == PutChar(t, b)
  {
    assert Feed(t, [b][..0]) == t;
  }

  /** Decimal digits are read as their number. */
  lemma {:induction false} DigitsRead(t: Term, n: nat)
    requires GoodCtx(t.ctx) && t.ctx.mode.Csi? && t.ctx.params[Max(t.ctx.nparam, 1) - 1] == 0
    ensures var k := Max(t.ctx.nparam, 1);
            Feed(t, Decimal(n)) == t.(ctx := t.ctx.(nparam := k, params := t.ctx.params[k - 1 := n]))
  {
    hide PutNormal, PutEsc, HandleCsi;
    if n < 10 {
      FeedOne(t, 48 + n);
    } else {
      DigitsRead(t, n / 10);
      FeedJoin(t, Decimal(n / 10), [48 + n % 10]);
      FeedOne(Feed(t, Decimal(n / 10)), 48 + n % 10);
    }
  }

  /** ESC [ row ; col H puts the cursor into that row and column, counted from 1, or at the edge, and
      changes nothing on the screen. */
  lemma CursorPosition(t: Term, row: nat, col: nat)
    requires GoodCtx(t.ctx) && t.ctx.mode.Normal?
    ensures var r := Feed(t, [27, 91] + Decimal(row) + [59] + Decimal(col) + [72]);
            && r.cells == t.cells && r.ctx.mode.Normal?
            && r.ctx.curRow == Min(Max(row, 1), 25) - 1 && r.ctx.curCol == Min(Max(col, 1), 80) - 1
            && r.ctx.row == r.ctx.curRow && r.ctx.col == r.ctx.curCol
  {
    hide *;
    FeedParts(t, [27, 91], Decimal(row), [59], Decimal(col), [72]);
    var t1 := Introduced(t);
    DigitsRead(t1, row);
    var t2 := Feed(t1, Decimal(row));
    FirstParameter(t1, t2, row);
    var t3 := Separator(t2);
    DigitsRead(t3, col);
    var t4 := Feed(t3, Decimal(col));
    SecondParameter(t3, t4, col);
    FeedOne(t4, 72);
    Positioned(t4, row, col);
  }

  lemma FeedParts(t: Term, a: seq<Byte>, b: seq<Byte>, c: seq<Byte>, d: seq<Byte>, e: seq<Byte>)
    requires GoodCtx(t.ctx)
    ensures Feed(t, a + b + c + d + e) == Feed(Feed(Feed(Feed(Feed(t, a), b), c), d), e)
  {
    hide *;
    FeedJoin(t, a + b + c + d, e);
    FeedJoin(t, a + b + c, d);
    FeedJoin(t, a + b, c);
    FeedJoin(t, a, b);
  }

  lemma FirstParameter(t: Term, u: Term, n: nat)
    requires GoodCtx(t.ctx) && t.ctx.mode.Csi? && t.ctx.nparam == 0 && t.ctx.params == seq(8, _ => 0)
    requires var k := Max(t.ctx.nparam, 1); u == t.(ctx := t.ctx.(nparam := k, params := t.ctx.params[k - 1 := n]))
    ensures u.cells == t.cells && GoodCtx(u.ctx) && u.ctx.mode.Csi? && u.ctx.nparam == 1
    ensures u.ctx.params[0] == n && u.ctx.params[1] == 0
  {
  }

  lemma SecondParameter(t: Term, u: Term, n: nat)
    requires GoodCtx(t.ctx) && t.ctx.mode.Csi? && t.ctx.nparam == 2
    requires var k := Max(t.ctx.nparam, 1); u == t.(ctx := t.ctx.(nparam := k, params := t.ctx.params[k - 1 := n]))
    ensures u.cells == t.cells && GoodCtx(u.ctx) && u.ctx.mode.Csi? && u.ctx.nparam == 2
    ensures u.ctx.params[0] == t.ctx.params[0] && u.ctx.params[1] == n
  {
  }

  lemma Introduced(t: Term) returns (u: Term)
    requires GoodCtx(t.ctx) && t.ctx.mode.Normal?
    ensures u == Feed(t, [27, 91]) && u.cells == t.cells && GoodCtx(u.ctx)
    ensures u.ctx.mode.Csi? && u.ctx.nparam == 0 && u.ctx.params == seq(8, _ => 0)
    ensures u.ctx.params[Max(u.ctx.nparam, 1) - 1] == 0
  {
    FeedOne(t, 27);
    FeedJoin(t, [27], [91]);
    FeedOne(PutChar(t, 27), 91);
    u := Feed(t, [27, 91]);
    assert [27] + [91] == [27, 91];
  }

  lemma Separator(t: Term) returns (u: Term)
    requires GoodCtx(t.ctx) && t.ctx.mode.Csi? && t.ctx.nparam == 1
    requires |t.ctx.params| == PARAMS && t.ctx.params[1] == 0
    ensures u == Feed(t, [59]) && u.cells == t.cells && GoodCtx(u.ctx)
    ensures u.ctx.mode.Csi? && u.ctx.nparam == 2 && u.ctx.params == t.ctx.params
    ensures u.ctx.params[Max(u.ctx.nparam, 1) - 1] == 0
  {
    FeedOne(t, 59);
    u := Feed(t, [59]);
  }

  lemma Positioned(t: Term, row: nat, col: nat)
    requires GoodCtx(t.ctx) && t.ctx.mode.Csi? && t.ctx.nparam == 2 && t.ctx.params[0] == row && t.ctx.params[1] == col
    ensures var r := PutChar(t, 72);
            && r.cells == t.cells && r.ctx.mode.Normal?
            && r.ctx.curRow == Min(Max(row, 1), 25) - 1 && r.ctx.curCol == Min(Max(col, 1), 80) - 1
            && r.ctx.row == r.ctx.curRow && r.ctx.col == r.ctx.curCol
  {
    hide HandleCsi;
    CursorMoves(t, 72);
  }

  /** ESC [ 0 J blanks exactly the cells from the cursor on; ESC [ 1 J exactly the cells up to the one
      a row above the cursor; ESC [ 2 J all, in the attribute in force, and homes the cursor. */
  lemma EraseDisplayDoes(t: Term, i: nat)
    requires GoodCtx(t.ctx) && i < 2000
    ensures var c, p, r := t.ctx, Param(t.ctx, 0), HandleCsi(t, 74);
            && (p == 0 ==> r.ctx == c && r.cells[i] == if i >= At(c) then Blank(SgrColor(c)) else t.cells[i])
            && (p == 1 ==> r.ctx == c && r.cells[i] == if i <= At(c) - 80 then Blank(SgrColor(c)) else t.cells[i])
            && (p == 2 ==> r.ctx == c.(row := 0, col := 0, curRow := 0, curCol := 0) && r.cells[i] == Blank(c.color))
            && (p > 2 ==> r == t)
  {
    hide SgrColor;
    assert i == i / 80 * 80 + i % 80;
  }

  /** ESC [ 1 J is to erase from the start of the display to the cursor. It does if and only if the
      eighty cells that end at the cursor were blank before. */
  lemma EraseToStartIff(t: Term)
    requires GoodCtx(t.ctx) && Param(t.ctx, 0) == 1
    ensures var at, blank := At(t.ctx), Blank(SgrColor(t.ctx));
            && 0 <= at < 2000
            && ((forall i :: 0 <= i <= at ==> HandleCsi(t, 74).cells[i] == blank) <==>
                (forall i :: 0 <= i && at - 80 < i <= at ==> t.cells[i] == blank))
  {
    hide SgrColor, HandleCsi;
    var at, r := At(t.ctx), HandleCsi(t, 74);
    forall i | 0 <= i <= at ensures r.cells[i] == if i <= at - 80 then Blank(SgrColor(t.ctx)) else t.cells[i] {
      EraseDisplayDoes(t, i);
    }
  }

  /** With a letter under the cursor, anywhere on the screen, the letter is still there. */
  lemma EraseToStartLeavesCursor(t: Term)
    requires GoodCtx(t.ctx) && Param(t.ctx, 0) == 1
    ensures 0 <= At(t.ctx) < 2000 && HandleCsi(t, 74).cells[At(t.ctx)] == t.cells[At(t.ctx)]
    ensures var x := SecondRow(); GoodCtx(x.ctx) && Param(x.ctx, 0) == 1 && HandleCsi(x, 74).cells[80].ch == 65
  {
    hide SgrColor, HandleCsi;
    EraseDisplayDoes(t, At(t.ctx));
    EraseDisplayDoes(SecondRow(), 80);
  }

  /** A screen of letters, the cursor at the start of the second row, parameter 1 read. */
  function SecondRow(): Term {
    var ones := seq(8, _ => 1);
    Term(Ctx(Csi, ones, 1, 1, 0, 0, 0, 15, 0, false, 1, 0, 15, 0), seq(2000, _ => Cell(65, 15)))
  }

  /** ESC [ 0 K, ESC [ 1 K and ESC [ 2 K blank exactly the cells of the cursor's row from it on, up to
      it, and all of them. */
  lemma EraseLineDoes(t: Term, i: nat)
    requires GoodCtx(t.ctx) && i < 2000
    ensures var c, p, r, here := t.ctx, Param(t.ctx, 0), HandleCsi(t, 75), i / 80 == t.ctx.curRow;
            && r.ctx == c
            && (p == 0 ==> r.cells[i] == if here && i >= At(c) then Blank(SgrColor(c)) else t.cells[i])
            && (p == 1 ==> r.cells[i] == if here && i <= At(c) then Blank(SgrColor(c)) else t.cells[i])
            && (p == 2 ==> r.cells[i] == if here then Blank(SgrColor(c)) else t.cells[i])
            && (p > 2 ==> r == t)
  {
    hide SgrColor;
    assert i == i / 80 * 80 + i % 80;
  }

  /** ESC [ 3v m and ESC [ 9v m put colour v into the foreground of the attribute, the second bright, as
      bold makes the first; ESC [ 4v m and ESC [ 10v m into the background. The other half stays. */
  lemma ColorsSelected(t: Term, v: int)
    requires GoodCtx(t.ctx) && t.ctx.nparam == 1 && 0 <= v < 8
    ensures var c, p, r := t.ctx, t.ctx.params[0], HandleCsi(t, 109);
            && r.cells == t.cells
            && r.ctx == c.(fg := r.ctx.fg, bg := r.ctx.bg, bold := r.ctx.bold, color := r.ctx.color)
            && (p == 30 + v || p == 90 + v ==>
                  r.ctx.bg == c.bg && r.ctx.color == Shown(v, c.bold || p == 90 + v) + 16 * (c.bg % 16))
            && (p == 40 + v || p == 100 + v ==>
                  r.ctx.fg == c.fg && r.ctx.bold == c.bold && r.ctx.color / 16 == Shown(v, false))
            && (p == 0 ==> r.ctx.color == 15 && !r.ctx.bold)
            && (p == 1 || p == 22 ==> r.ctx.fg == c.fg && r.ctx.bg == c.bg && (r.ctx.bold <==> p == 1))
  {
    hide SgrColor, SgrOne, AnsiColor, Shown;
    var c, p := t.ctx, t.ctx.params[0];
    assert SgrMany(c, c.params, 1) == SgrOne(SgrMany(c, c.params, 0), p);
    OneColor(c, p, v);
  }

  /** A colour of the eight, as its red, green and blue part, dark or bright. */
  function Shown(v: int, bright: bool): nat
    requires 0 <= v < 8
  {
    4 * (v % 2) + 2 * (v / 2 % 2) + v / 4 + if bright then 8 else 0
  }

  lemma OneColor(c: Ctx, p: int, v: int)
    requires 0 <= v < 8
    ensures var d := SgrOne(c, p); var color := SgrColor(d);
            && d == c.(fg := d.fg, bg := d.bg, bold := d.bold)
            && (p == 30 + v || p == 90 + v ==>
                  d.bg == c.bg && color == Shown(v, c.bold || p == 90 + v) + 16 * (c.bg % 16))
            && (p == 40 + v || p == 100 + v ==> d.fg == c.fg && d.bold == c.bold && color / 16 == Shown(v, false))
            && (p == 0 ==> color == 15 && !d.bold)
            && (p == 1 || p == 22 ==> d.fg == c.fg && d.bg == c.bg && (d.bold <==> p == 1))
  {
    hide SgrColor, AnsiColor, Bright, Shown;
    ColorShown(v);
    AttributeOf(c, v);
  }

  lemma ColorShown(v: int)
    requires 0 <= v < 8
    ensures AnsiColor(v) == Shown(v, false) < 8 && Bright(AnsiColor(v)) == Shown(v, true)
  {
  }

  lemma AttributeOf(c: Ctx, v: int)
    requires 0 <= v < 8
    ensures SgrColor(c.(fg := Shown(v, false))) == Shown(v, c.bold) + 16 * (c.bg % 16)
    ensures SgrColor(c.(fg := Shown(v, true))) == Shown(v, true) + 16 * (c.bg % 16)
    ensures SgrColor(c.(bg := Shown(v, false))) / 16 == Shown(v, false)
    ensures SgrColor(c.(fg := 15, bg := 0, bold := false)) == 15
  {
    hide Shown, Attribute, AnsiColor;
    ColorShown(v);
    ShownBright(v);
    AttributeBits(Shown(v, c.bold), c.bg);
    AttributeBits(Shown(v, true), c.bg);
    AttributeBits(if c.bold then Bright(c.fg) else c.fg, Shown(v, false));
    AttributeBits(15, 0);
  }

  lemma AttributeBits(fg: nat, bg: nat)
    ensures Attribute(fg, bg) == fg % 16 + 16 * (bg % 16) && Attribute(fg, bg) / 16 == bg % 16
  {
  }

  lemma ShownBright(v: int)
    requires 0 <= v < 8
    ensures Shown(v, true) == Shown(v, false) + 8 && 0 <= Shown(v, false) < 8
  {
  }

  /** Away from the edges, up undoes down and left undoes right, by any count. */
  lemma MovesInvert(t: Term)
    requires GoodCtx(t.ctx)
    ensures var n := AtLeastOne(Param(t.ctx, 0));
            && (t.ctx.curRow + n <= 24 ==>
                  HandleCsi(t, 66).ctx.curRow == t.ctx.curRow + n && HandleCsi(HandleCsi(t, 66), 65) == t)
            && (t.ctx.curCol + n <= 79 ==>
                  HandleCsi(t, 67).ctx.curCol == t.ctx.curCol + n && HandleCsi(HandleCsi(t, 67), 68) == t)
  {
    hide Erased, VgaClear, SgrMany, SgrColor;
  }

  /** Without an escape byte the parser stays outside sequences and the saved cursor stays. */
  lemma {:induction false} PlainBytesKeepSaved(t: Term, bs: seq<Byte>)
    requires GoodCtx(t.ctx) && t.ctx.mode.Normal? && 27 !in bs
    ensures var r := Feed(t, bs).ctx; r.mode.Normal? && r.savedRow == t.ctx.savedRow && r.savedCol == t.ctx.savedCol
  {
    if bs != [] {
      var before := bs[..|bs| - 1];
      PlainBytesKeepSaved(t, before);
      NormalKeepsSaved(Feed(t, before), bs[|bs| - 1]);
    }
  }

  lemma NormalKeepsSaved(t: Term, b: Byte)
    requires GoodCtx(t.ctx) && b != 27
    ensures var r := PutNormal(t, b).ctx;
            r.mode == t.ctx.mode && r.savedRow == t.ctx.savedRow && r.savedCol == t.ctx.savedCol
  {
    hide Scrolled;
  }

  /** Saving the cursor, any text, and restoring it puts the cursor back. */
  lemma SaveThenRestore(t: Term, bs: seq<Byte>)
    requires GoodCtx(t.ctx) && t.ctx.mode.Normal? && 27 !in bs
    ensures var r := PutChar(PutChar(Feed(PutChar(PutChar(t, 27), 55), bs), 27), 56).ctx;
            r.mode.Normal? && r.curRow == t.ctx.curRow && r.curCol == t.ctx.curCol
  {
    hide Feed, VgaPut, Track, VgaClear;
    PlainBytesKeepSaved(PutChar(PutChar(t, 27), 55), bs);
  }

  // ---------------------------------------------------------------------------
  // Up to colour
  // ---------------------------------------------------------------------------

  /** The same characters on the screen. */
  ghost predicate SameGlyphs(a: Cells, b: Cells) { forall i :: 0 <= i < 2000 ==> a[i].ch == b[i].ch }

  /** The same in all but the attribute in force and the attributes on the screen. */
  ghost predicate SameText(t: Term, u: Term) {
    t.ctx.(color := 0) == u.ctx.(color := 0) && SameGlyphs(t.cells, u.cells)
  }

  /** Nothing a terminal does to its text depends on the attribute in force. */
  lemma PutCharKeepsText(t: Term, u: Term, b: Byte)
    requires GoodCtx(t.ctx) && GoodCtx(u.ctx) && SameText(t, u)
    ensures SameText(PutChar(t, b), PutChar(u, b))
  {
    hide PutNormal, PutEsc, HandleCsi, SameGlyphs;
    match t.ctx.mode
    case Normal => NormalKeepsText(t, u, b);
    case Esc => EscKeepsText(t, u, b);
    case Csi => CsiKeepsText(t, u, b);
  }

  lemma NormalKeepsText(t: Term, u: Term, b: Byte)
    requires GoodCtx(t.ctx) && GoodCtx(u.ctx) && SameText(t, u)
    ensures SameText(PutNormal(t, b), PutNormal(u, b))
  {
    hide Scrolled;
    forall c, d: Cells | SameGlyphs(c, d) ensures SameGlyphs(Scrolled(c, 0, t.ctx.color), Scrolled(d, 0, u.ctx.color)) {
      ScrolledGlyphs(c, d, t.ctx.color, u.ctx.color);
    }
  }

  lemma ScrolledGlyphs(c: Cells, d: Cells, x: nat, y: nat)
    requires SameGlyphs(c, d)
    ensures SameGlyphs(Scrolled(c, 0, x), Scrolled(d, 0, y))
  {
    var p, q := Scrolled(c, 0, x), Scrolled(d, 0, y);
    forall i | 0 <= i < 2000 ensures p[i].ch == q[i].ch {
      if i < 1920 { assert p[i] == c[i + 80] && q[i] == d[i + 80]; }
    }
  }

  lemma EscKeepsText(t: Term, u: Term, b: Byte)
    requires GoodCtx(t.ctx) && GoodCtx(u.ctx) && SameText(t, u)
    ensures SameText(PutEsc(t, b), PutEsc(u, b))
  {
  }

  lemma CsiKeepsText(t: Term, u: Term, cmd: Byte)
    requires GoodCtx(t.ctx) && GoodCtx(u.ctx) && SameText(t, u)
    ensures SameText(HandleCsi(t, cmd), HandleCsi(u, cmd))
  {
    hide Erased, Cleared, SgrMany, SameGlyphs, SgrColor, Clamp;
    var c := t.ctx;
    assert GoodCtx(c) && u.ctx == c.(color := u.ctx.color);
    if cmd == 109 {
      SgrIgnoresColor(t.ctx, u.ctx, t.ctx.params, t.ctx.nparam);
    } else if cmd == 74 || cmd == 75 {
      ClearedGlyphs(t.ctx.color, u.ctx.color);
      ErasedGlyphs(t, u, c.curRow, c.curCol, 25, 80);
      ErasedGlyphs(t, u, 0, 0, c.curRow, c.curCol + 1);
      ErasedGlyphs(t, u, c.curRow, c.curCol, c.curRow + 1, 80);
      ErasedGlyphs(t, u, c.curRow, 0, c.curRow + 1, c.curCol + 1);
      ErasedGlyphs(t, u, c.curRow, 0, c.curRow + 1, 80);
    }
  }

  lemma ClearedGlyphs(x: nat, y: nat)
    ensures SameGlyphs(Cleared(x), Cleared(y))
  {
  }

  lemma ErasedGlyphs(t: Term, u: Term, r0: int, c0: int, r1: int, c1: int)
    requires SameText(t, u)
    ensures SameText(Erased(t, r0, c0, r1, c1), Erased(u, r0, c0, r1, c1))
  {
  }

  lemma {:induction false} SgrIgnoresColor(c: Ctx, d: Ctx, ps: seq<int>, n: nat)
    requires c.(color := 0) == d.(color := 0) && n <= |ps|
    ensures SgrMany(c, ps, n).(color := 0) == SgrMany(d, ps, n).(color := 0)
  {
    if n > 0 { SgrIgnoresColor(c, d, ps, n - 1); }
  }

  /** The attribute in force is the one the colour sequences call for. */
  predicate Consistent(c: Ctx) { c.color == SgrColor(c) }

  /** Every byte keeps it so: colour sequences and resets set both. */
  lemma PutCharConsistent(t: Term, b: Byte)
    requires GoodCtx(t.ctx) && Consistent(t.ctx)
    ensures Consistent(PutChar(t, b).ctx)
  {
    hide Attribute, Bright, Scrolled, Cleared, Erased, PutNormal, HandleCsi, Clamp;
    match t.ctx.mode
    case Normal => NormalKeepsColors(t, b);
    case Esc =>
    case Csi => CsiConsistent(t, b);
  }

  lemma NormalKeepsColors(t: Term, b: Byte)
    requires GoodCtx(t.ctx)
    ensures var c := PutNormal(t, b).ctx;
            c.color == t.ctx.color && c.fg == t.ctx.fg && c.bg == t.ctx.bg && c.bold == t.ctx.bold
  {
  }

  lemma CsiConsistent(t: Term, cmd: Byte)
    requires GoodCtx(t.ctx) && Consistent(t.ctx)
    ensures Consistent(HandleCsi(t, cmd).ctx)
  {
    hide Attribute, Bright, Scrolled, Cleared, Clamp;
  }
}
