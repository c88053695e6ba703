/** drivers/vga.c, drivers/vt100.c and the output half of kernel/tty.c as they run: one set of driver
    variables, one target for all cell writes, and three buffers and contexts behind them. */
module Tty {
  import opened Terminal
  import opened Consoles

  /** The screen position of a cell index. */
  lemma CellAt(r: int, c: int)
    requires 0 <= r < 25 && 0 <= c < 80
    ensures 0 <= r * 80 + c < 2000 && (r * 80 + c) / 80 == r && (r * 80 + c) % 80 == c
  {
  }

  /** Cells of an erased region that lie before (r, c). */
  ghost predicate ErasedSoFar(now: Cells, was: Cells, r0: int, c0: int, r1: int, c1: int, r: int, c: int, blank: Cell) {
    forall i :: 0 <= i < 2000 ==>
      now[i] == if InRegion(i, r0, c0, r1, c1) && (i / 80 < r || (i / 80 == r && i % 80 < c)) then blank else was[i]
  }

  lemma EraseNext(now: Cells, was: Cells, r0: int, c0: int, r1: int, c1: int, r: int, c: int, blank: Cell)
    requires ErasedSoFar(now, was, r0, c0, r1, c1, r, c, blank) && r0 <= r < r1 && 0 <= r < 25 && 0 <= c < 80
    requires (r == r0 ==> c0 <= c) && (r == r1 - 1 ==> c < c1)
    ensures 0 <= r * 80 + c < 2000 && ErasedSoFar(now[r * 80 + c := blank], was, r0, c0, r1, c1, r, c + 1, blank)
  {
    CellAt(r, c);
    forall i | 0 <= i < 2000
      ensures now[r * 80 + c := blank][i] ==
              if InRegion(i, r0, c0, r1, c1) && (i / 80 < r || (i / 80 == r && i % 80 < c + 1)) then blank else was[i]
    {
      if i / 80 == r && i % 80 == c { assert i == r * 80 + c; }
    }
  }

  class Driver {
    /** The static variables of vt100.c and vga.c. */
    var s: Ctx
    var target: array<Cell>
    const screen: array<Cell>
    const bufs: seq<array<Cell>>
    var ctx: seq<Ctx>
    var active: nat
    var onlcr: seq<bool>
    /** Bytes sent to the serial port. */
    var serial: seq<Byte>

    /** vga_target and the buffers behind the consoles. */
    ghost predicate Shape()
      reads this
    {
      && |bufs| == NUM_VTYS && |ctx| == NUM_VTYS && |onlcr| == NUM_VTYS && active < NUM_VTYS
      && screen.Length == 2000 && (forall v :: 0 <= v < NUM_VTYS ==> bufs[v].Length == 2000 && bufs[v] != screen)
      && (forall v, w :: 0 <= v < w < NUM_VTYS ==> bufs[v] != bufs[w])
    }

    ghost function Now(): Term
      requires target.Length == 2000
      reads this`s, this`target, target
    {
      Term(s, target[..])
    }

    // -------------------------------------------------------------------------
    // vga.c
    // -------------------------------------------------------------------------

    method VgaScroll()
      requires target.Length == 2000
      modifies this`s, target
      ensures Now() == Term(old(s).(row := 24), Scrolled(old(target[..]), old(s.prot), old(s.color)))
    {
      var blank := Blank(s.color);
      var start := if s.prot < 0 then 0 else if s.prot >= 25 then 24 else s.prot;
      var i := start * 80;
      while i < 1920
        invariant start * 80 <= i <= 1920 && s == old(s)
        invariant forall k :: 0 <= k < 2000 && !(start * 80 <= k < i) ==> target[k] == old(target[k])
        invariant forall k :: start * 80 <= k < i ==> target[k] == old(target[k + 80])
      {
        target[i] := target[i + 80];
        i := i + 1;
      }
      while i < 2000
        invariant 1920 <= i <= 2000 && s == old(s)
        invariant forall k :: 0 <= k < start * 80 ==> target[k] == old(target[k])
        invariant forall k :: start * 80 <= k < 1920 ==> target[k] == old(target[k + 80])
        invariant forall k :: 1920 <= k < i ==> target[k] == blank
      {
        target[i] := blank;
        i := i + 1;
      }
      s := s.(row := 24);
      ScrolledCells(target[..], old(target[..]), old(s.prot), blank);
    }

    static lemma ScrolledCells(now: Cells, was: Cells, prot: int, blank: Cell)
      requires blank.ch == 32 && forall k :: 0 <= k < Clamp(prot, 0, 24) * 80 ==> now[k] == was[k]
      requires forall k :: Clamp(prot, 0, 24) * 80 <= k < 1920 ==> now[k] == was[k + 80]
      requires forall k :: 1920 <= k < 2000 ==> now[k] == blank
      ensures now == Scrolled(was, prot, blank.color)
    {
      var r := Scrolled(was, prot, blank.color);
      forall k | 0 <= k < 2000 ensures now[k] == r[k] { }
    }

    method VgaClearScreen()
      requires target.Length == 2000
      modifies this`s, target
      ensures Now() == VgaClear(old(Now()))
    {
      var blank := Blank(s.color);
      var i := 0;
      while i < 2000
        invariant i <= 2000 && s == old(s) && forall k :: 0 <= k < i ==> target[k] == blank
      {
        target[i] := blank;
        i := i + 1;
      }
      s := s.(prot := 0, row := 0, col := 0);
      assert target[..] == Cleared(old(s.color));
    }

    /** vga_putchar. */
    method VgaPutchar(b: Byte)
      requires target.Length == 2000 && 0 <= s.row < HEIGHT && 0 <= s.col < WIDTH
      modifies this`s, target
      ensures Now() == VgaPut(old(Now()), b)
    {
      if b == 10 {
        s := s.(col := 0, row := s.row + 1);
      } else if b == 13 {
        s := s.(col := 0);
      } else if b == 9 {
        s := s.(col := (s.col + 8) / 8 * 8);
      } else if b == 8 {
        if s.col > 0 { s := s.(col := s.col - 1); }
      } else {
        target[s.row * 80 + s.col] := Cell(b, s.color);
        s := s.(col := s.col + 1);
        assert target[..] == old(target[..])[old(s.row) * 80 + old(s.col) := Cell(b, old(s.color))];
      }
      if s.col >= 80 { s := s.(col := 0, row := s.row + 1); }
      if s.row >= 25 { VgaScroll(); }
    }

    // -------------------------------------------------------------------------
    // vt100.c
    // -------------------------------------------------------------------------

    /** vga_write_space_at, through vga_write_cell. */
    method WriteSpaceAt(r: int, c: int)
      requires target.Length == 2000
      modifies target
      ensures s == old(s) && target == old(target)
      ensures target[..] ==
              if 0 <= r < 25 && 0 <= c < 80 then old(target[..])[r * 80 + c := Blank(SgrColor(s))]
              else old(target[..])
    {
      if r < 0 || r >= 25 || c < 0 || c >= 80 { return; }
      target[r * 80 + c] := Blank(SgrColor(s));
    }

    /** vga_erase_region. */
    method EraseRegion(ra: int, ca: int, rb: int, cb: int)
      requires target.Length == 2000
      modifies target
      ensures Now() == Erased(old(Now()), ra, ca, rb, cb)
    {
      hide InRegion, SgrColor;
      var r0, r1, c0, c1 := Clamp(ra, 0, 25), Clamp(rb, 0, 25), Clamp(ca, 0, 80), Clamp(cb, 0, 80);
      ghost var was, blank := target[..], Blank(SgrColor(s));
      var r := r0;
      NothingErased(was, r0, c0, r1, c1, blank);
      while r < r1
        invariant r0 <= r <= 25 && (r0 < r1 ==> r <= r1) && ErasedSoFar(target[..], was, r0, c0, r1, c1, r, 0, blank)
      {
        var cs := if r == r0 then c0 else 0;
        var ce := if r == r1 - 1 then c1 else 80;
        var c := cs;
        SkipTo(target[..], was, r0, c0, r1, c1, r, cs, blank);
        while c < ce
          invariant cs <= c && (cs < ce ==> c <= ce) && ErasedSoFar(target[..], was, r0, c0, r1, c1, r, c, blank)
        {
          EraseNext(target[..], was, r0, c0, r1, c1, r, c, blank);
          WriteSpaceAt(r, c);
          c := c + 1;
        }
        RowErased(target[..], was, r0, c0, r1, c1, r, c, blank);
        r := r + 1;
      }
      AllErased(target[..], was, r0, c0, r1, c1, r, blank);
      assert target[..] == Erased(old(Now()), ra, ca, rb, cb).cells;
    }

    static lemma NothingErased(was: Cells, r0: int, c0: int, r1: int, c1: int, blank: Cell)
      ensures ErasedSoFar(was, was, r0, c0, r1, c1, r0, 0, blank)
    {
    }

    static lemma SkipTo(now: Cells, was: Cells, r0: int, c0: int, r1: int, c1: int, r: int, cs: int, blank: Cell)
      requires ErasedSoFar(now, was, r0, c0, r1, c1, r, 0, blank) && cs == if r == r0 then c0 else 0
      ensures ErasedSoFar(now, was, r0, c0, r1, c1, r, cs, blank)
    {
    }

    static lemma RowErased(now: Cells, was: Cells, r0: int, c0: int, r1: int, c1: int, r: int, c: int, blank: Cell)
      requires ErasedSoFar(now, was, r0, c0, r1, c1, r, c, blank) && c >= if r == r1 - 1 then c1 else 80
      ensures ErasedSoFar(now, was, r0, c0, r1, c1, r + 1, 0, blank)
    {
    }

    static lemma AllErased(now: Cells, was: Cells, r0: int, c0: int, r1: int, c1: int, r: int, blank: Cell)
      requires ErasedSoFar(now, was, r0, c0, r1, c1, r, 0, blank) && r >= r1
      ensures forall i :: 0 <= i < 2000 ==> now[i] == if InRegion(i, r0, c0, r1, c1) then blank else was[i]
    {
    }

    /** vga_set_cursor, and the parser's cursor with it. */
    method SetCursor(row: int, col: int)
      requires target.Length == 2000
      modifies this`s
      ensures Now() == MoveTo(old(Now()), row, col)
    {
      s := s.(curRow := row, curCol := col);
      s := s.(row := row, col := col);
    }

    /** The colour sequence: parameters in order, then apply_sgr. */
    method SelectGraphics()
      requires GoodCtx(s)
      modifies this`s
      ensures s == Sgr(if old(s).nparam == 0 then old(s).(fg := 15, bg := 0, bold := false)
                       else SgrMany(old(s), old(s).params, old(s).nparam))
    {
      hide SgrOne, SgrColor;
      if s.nparam == 0 {
        s := s.(fg := 15, bg := 0, bold := false);
      } else {
        var i, ps := 0, s.params;
        var n := s.nparam;
        while i < n
          invariant i <= n && s == SgrMany(old(s), ps, i)
        {
          s := SgrOne(s, ps[i]);
          i := i + 1;
        }
      }
      s := Sgr(s);
    }

    /** vt_handle_csi. A status report only feeds input, and is no part of the terminal here. */
    method HandleCsiByte(cmd: Byte)
      requires target.Length == 2000 && GoodCtx(s)
      modifies this`s, target
      ensures Now() == HandleCsi(old(Now()), cmd)
    {
      hide Erased, Cleared, SgrMany, SgrColor, Clamp;
      var p0, p1 := Param(s, 0), Param(s, 1);
      var n := AtLeastOne(p0);
      match cmd
      case 65 => SetCursor(Clamp(s.curRow - n, 0, 24), s.curCol);
      case 66 => SetCursor(Clamp(s.curRow + n, 0, 24), s.curCol);
      case 67 => SetCursor(s.curRow, Clamp(s.curCol + n, 0, 79));
      case 68 => SetCursor(s.curRow, Clamp(s.curCol - n, 0, 79));
      case 69 => SetCursor(Clamp(s.curRow + n, 0, 24), 0);
      case 70 => SetCursor(Clamp(s.curRow - n, 0, 24), 0);
      case 71 => SetCursor(s.curRow, Clamp(n - 1, 0, 79));
      case 72 => SetCursor(Clamp(n - 1, 0, 24), Clamp(AtLeastOne(p1) - 1, 0, 79));
      case 102 => SetCursor(Clamp(n - 1, 0, 24), Clamp(AtLeastOne(p1) - 1, 0, 79));
      case 74 =>
        if p0 == 0 {
          EraseRegion(s.curRow, s.curCol, 25, 80);
        } else if p0 == 1 {
          EraseRegion(0, 0, s.curRow, s.curCol + 1);
        } else if p0 == 2 {
          VgaClearScreen();
          SetCursor(0, 0);
        }
      case 75 =>
        if p0 == 0 {
          EraseRegion(s.curRow, s.curCol, s.curRow + 1, 80);
        } else if p0 == 1 {
          EraseRegion(s.curRow, 0, s.curRow + 1, s.curCol + 1);
        } else if p0 == 2 {
          EraseRegion(s.curRow, 0, s.curRow + 1, 80);
        }
      case 109 => SelectGraphics();
      case 115 => s := s.(savedRow := s.curRow, savedCol := s.curCol);
      case 117 => SetCursor(s.savedRow, s.savedCol);
      case _ =>
    }

    /** vt100_putchar. */
    method Vt100Putchar(b: Byte)
      requires target.Length == 2000 && GoodCtx(s)
      modifies this`s, target
      ensures Now() == PutChar(old(Now()), b) && GoodCtx(s)
    {
      hide HandleCsi, VgaPut, VgaClear, Printable, Track;
      match s.mode
      case Normal => NormalByte(b);
      case Esc => EscByte(b);
      case Csi => CsiByte(b);
    }

    method NormalByte(b: Byte)
      requires target.Length == 2000 && GoodCtx(s)
      modifies this`s, target
      ensures Now() == PutNormal(old(Now()), b)
    {
      hide VgaPut, Track;
      if b == 27 {
        s := s.(mode := Esc);
      } else if Printable(b) {
        VgaPutchar(b);
        s := Track(s, b);
      }
    }

    method EscByte(b: Byte)
      requires target.Length == 2000 && GoodCtx(s)
      modifies this`s, target
      ensures Now() == PutEsc(old(Now()), b)
    {
      if b == 91 {
        s := s.(mode := Csi, nparam := 0, params := seq(8, _ => 0));
      } else if b == 99 {
        VgaClearScreen();
        s := s.(color := Attribute(15, 0));
        s := s.(curRow := 0, curCol := 0, fg := 15, bg := 0, bold := false, mode := Normal);
      } else if b == 55 {
        s := s.(savedRow := s.curRow, savedCol := s.curCol, mode := Normal);
      } else if b == 56 {
        SetCursor(s.savedRow, s.savedCol);
        s := s.(mode := Normal);
      } else {
        s := s.(mode := Normal);
      }
    }

    method CsiByte(b: Byte)
      requires target.Length == 2000 && GoodCtx(s)
      modifies this`s, target
      ensures Now() == PutCsi(old(Now()), b)
    {
      hide HandleCsi;
      if 48 <= b <= 57 {
        if s.nparam == 0 { s := s.(nparam := 1); }
        s := s.(params := s.params[s.nparam - 1 := s.params[s.nparam - 1] * 10 + (b as int - 48)]);
      } else if b == 59 {
        if s.nparam < PARAMS { s := s.(nparam := s.nparam + 1); }
      } else if b == 63 || b == 62 || b == 61 {
        return;
      } else {
        HandleCsiByte(b);
        s := s.(mode := Normal);
      }
    }

    // -------------------------------------------------------------------------
    // tty.c
    // -------------------------------------------------------------------------

    ghost predicate Valid()
      reads this, screen, bufs
    {
      Shape() && target == screen && GoodWorld(Abs())
    }

    /** The three consoles: the active one on the screen, the others in their buffers. */
    ghost function Abs(): (w: World)
      requires Shape() && target == screen
      reads this, screen, bufs
      ensures |w.terms| == NUM_VTYS && w.active == active
      ensures forall v :: 0 <= v < NUM_VTYS ==>
        w.terms[v] == if v == active then Term(s, screen[..]) else Term(ctx[v], bufs[v][..])
    {
      World(seq(NUM_VTYS, v requires Shape() && 0 <= v < NUM_VTYS reads this, screen, bufs =>
                  if v == active then Term(s, screen[..]) else Term(ctx[v], bufs[v][..])), active)
    }

    /** tty_output_char_vt. */
    method OutputChar(v: nat, b: Byte)
      requires Valid() && v < NUM_VTYS
      modifies this`s, this`ctx, this`target, this`serial, screen, bufs
      ensures Valid() && Abs() == Output(old(Abs()), v, b)
      ensures serial == old(serial) + if v == 0 then [b] else []
    {
      hide PutChar, SgrColor;
      ghost var w := Output(Abs(), v, b);
      if v == 0 { serial := serial + [b]; }
      if v == active {
        Vt100Putchar(b);
        assert forall u :: 0 <= u < NUM_VTYS ==> Abs().terms[u] == w.terms[u];
      } else {
        BackgroundChar(v, b);
      }
    }

    /** The driver is borrowed: the active console is saved, the other restored, and back. */
    method BackgroundChar(v: nat, b: Byte)
      requires Valid() && v < NUM_VTYS && v != active
      modifies this`s, this`ctx, this`target, bufs
      ensures Valid() && Abs() == Output(old(Abs()), v, b)
    {
      hide PutChar, SgrColor;
      ghost var w := Output(Abs(), v, b);
      ctx := ctx[active := s];
      target := bufs[v];
      s := Sgr(ctx[v]);
      Vt100Putchar(b);
      ctx := ctx[v := s];
      target := screen;
      s := Sgr(ctx[active]);
      assert forall u :: 0 <= u < NUM_VTYS ==> Abs().terms[u] == w.terms[u];
    }

    /** memcpy between two cell buffers. */
    method CopyCells(to: array<Cell>, from: array<Cell>)
      requires to.Length == from.Length == 2000 && to != from
      modifies to
      ensures to[..] == from[..]
    {
      var i := 0;
      while i < 2000
        invariant i <= 2000 && forall k :: 0 <= k < i ==> to[k] == from[k]
      {
        to[i] := from[i];
        i := i + 1;
      }
    }

    /** tty_switch_vt. */
    method SwitchVt(v: int)
      requires Valid()
      modifies this`s, this`ctx, this`target, this`active, screen, bufs
      ensures Valid() && Abs() == SwitchTo(old(Abs()), v)
    {
      hide SgrColor;
      ghost var w := SwitchTo(Abs(), v);
      if v < 0 || v >= NUM_VTYS || v == active { return; }
      ctx := ctx[active := s];
      CopyCells(bufs[active], screen);
      CopyCells(screen, bufs[v]);
      target := screen;
      active := v;
      s := Sgr(ctx[active]);
      assert forall u :: 0 <= u < NUM_VTYS ==> Abs().terms[u] == w.terms[u];
    }

    /** tty_write_vt: a line feed goes out after a carriage return if the console asks for it. */
    method WriteVt(v: int, buf: seq<Byte>)
      requires Valid()
      modifies this`s, this`ctx, this`target, this`serial, screen, bufs
      ensures Valid()
      ensures 0 <= v < NUM_VTYS ==> Abs() == Run(old(Abs()), Writes(v, Expand(buf, onlcr[v])))
      ensures !(0 <= v < NUM_VTYS) ==> Abs() == old(Abs())
      ensures serial == old(serial) + if v == 0 then Expand(buf, onlcr[v]) else []
    {
      hide Output, GoodWorld, Run, One, Known;
      if v < 0 || v >= NUM_VTYS { return; }
      var i := 0;
      RunAppend(Abs(), v, [], []);
      while i < |buf|
        invariant i <= |buf| && Valid() && Known(Writes(v, Expand(buf[..i], onlcr[v])))
        invariant Abs() == Run(old(Abs()), Writes(v, Expand(buf[..i], onlcr[v])))
        invariant serial == old(serial) + if v == 0 then Expand(buf[..i], onlcr[v]) else []
      {
        assert buf[..i + 1][..i] == buf[..i];
        RunAppend(old(Abs()), v, Expand(buf[..i], onlcr[v]), One(buf[i], onlcr[v]));
        OutputOne(v, buf[i]);
        i := i + 1;
      }
      assert buf[..|buf|] == buf;
    }

    /** One byte of a write, with the carriage return ONLCR puts before a line feed. */
    method OutputOne(v: nat, c: Byte)
      requires Valid() && v < NUM_VTYS
      modifies this`s, this`ctx, this`target, this`serial, screen, bufs
      ensures Valid() && Known(Writes(v, One(c, onlcr[v]))) && Abs() == Run(old(Abs()), Writes(v, One(c, onlcr[v])))
      ensures serial == old(serial) + if v == 0 then One(c, onlcr[v]) else []
    {
      hide Output, Run, Known, GoodWorld;
      assert [] + [13] == [13] && [] + [c] == [c] && [13] + [c] == [13, c];
      assert One(c, onlcr[v]) == if c == 10 && onlcr[v] then [13, c] else [c];
      if c == 10 && onlcr[v] {
        RunNext(Abs(), v, [], 13);
        RunNext(Abs(), v, [13], c);
        RunAppend(Abs(), v, [], []);
        OutputChar(v, 13);
      } else {
        RunNext(Abs(), v, [], c);
        RunAppend(Abs(), v, [], []);
      }
      OutputChar(v, c);
    }
  }

  function One(c: Byte, onlcr: bool): seq<Byte> { (if c == 10 && onlcr then [13] else []) + [c] }

  /** What ONLCR makes of a buffer. */
  function Expand(buf: seq<Byte>, onlcr: bool): seq<Byte> {
    if buf == [] then []
    else Expand(buf[..|buf| - 1], onlcr) + One(buf[|buf| - 1], onlcr)
  }

  function Writes(v: nat, bs: seq<Byte>): seq<Event> { seq(|bs|, i requires 0 <= i < |bs| => Wrote(v, bs[i])) }

  lemma RunNext(w: World, v: nat, bs: seq<Byte>, b: Byte)
    requires GoodWorld(w) && v < NUM_VTYS
    ensures Known(Writes(v, bs)) && Known(Writes(v, bs + [b]))
    ensures Run(w, Writes(v, bs + [b])) == Output(Run(w, Writes(v, bs)), v, b)
  {
    assert Writes(v, bs + [b])[..|bs|] == Writes(v, bs);
  }

  lemma {:induction false} RunAppend(w: World, v: nat, a: seq<Byte>, b: seq<Byte>)
    requires GoodWorld(w) && v < NUM_VTYS
    ensures Known(Writes(v, a)) && Known(Writes(v, b)) && Known(Writes(v, a + b))
    ensures Run(w, Writes(v, a + b)) == Run(Run(w, Writes(v, a)), Writes(v, b)) && Run(w, Writes(v, [])) == w
  {
    hide Output, Step, GoodWorld;
    assert Writes(v, []) == [];
    if b == [] {
      assert a + b == a;
    } else {
      var c := b[..|b| - 1];
      RunAppend(w, v, a, c);
      RunNext(w, v, a + c, b[|b| - 1]);
      RunNext(Run(w, Writes(v, a)), v, c, b[|b| - 1]);
      assert a + b == a + c + [b[|b| - 1]] && b == c + [b[|b| - 1]];
    }
  }
}
