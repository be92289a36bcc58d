/** The text console of src/scrn.c: an 80 by 25 screen of two-byte cells at 0xB8000 that scrolls
    when the cursor leaves the last row. */
module Console {
  import opened Numbers
  import opened Memory

  const TEXT: nat := 0xB8000
  const COLUMNS: nat := 80
  const ROWS: nat := 25
  const CELLS: nat := 2000

  /** One 16-bit cell: the character in the low byte, the colours in the high byte. */
  datatype Cell = Cell(ch: bv8, colour: bv8)

  /** What the console shows and remembers. `count` is the source's `cursor`. */
  datatype Screen = Screen(cells: seq<Cell>, x: int, y: int, attrib: bv16, count: i32)

  function Blank(attrib: bv16): Cell {
    Cell(0x20, LowByte(attrib))
  }

  function Blanks(attrib: bv16, n: nat): (cells: seq<Cell>)
    ensures |cells| == n
  {
    seq(n, _ => Blank(attrib))
  }

  /** 32-bit addition; the source's counter is an int that is only ever increased. */
  function Wrap32(n: int): (r: i32)
    ensures -0x8000_0000 <= n < 0x8000_0000 ==> r == n
  {
    (n + 0x8000_0000) % 0x1_0000_0000 - 0x8000_0000
  }

  lemma WrapsAround(n: int)
    ensures (n - Wrap32(n)) % 0x1_0000_0000 == 0
  {
    var a := n + 0x8000_0000;
    DivModEquation(a, U32_SIZE);
    MultipleModZero(U32_SIZE, a / U32_SIZE);
  }

  predicate Printable(c: bv8) {
    c >= 0x20
  }

  /** The colour word of set_text_color; AttributeNibbles says what of it reaches the screen. */
  function Attribute(fore: bv8, back: bv8): bv16 {
    ((back as bv16) << 4) | ((fore & 0x0F) as bv16)
  }

  lemma AttributeNibbles(fore: bv8, back: bv8)
    ensures LowByte(Attribute(fore, back)) & 0x0F == fore & 0x0F
    ensures LowByte(Attribute(fore, back)) >> 4 == back & 0x0F
  {
  }

  // ----- Cursor motion, common to the screen and to the unbounded page

  /** The column after one character, before the right margin is checked. */
  function NextColumn(x: nat, c: bv8): nat {
    if c == 0x08 then (if x != 0 then x - 1 else 0)
    else if c == 0x09 then (x + 8) / 8 * 8
    else if c == 0x0d || c == 0x0a then 0
    else if Printable(c) then x + 1
    else x
  }

  /** A tab goes to the next multiple of eight; everything else moves by at most one column or returns
      to the margin, so that one new line is always enough. */
  lemma ColumnMoves(x: nat, c: bv8)
    requires x < COLUMNS
    ensures NextColumn(x, c) <= COLUMNS
    ensures c == 0x09 ==> NextColumn(x, c) % 8 == 0 && x < NextColumn(x, c) <= x + 8
    ensures c != 0x09 ==> NextColumn(x, c) == 0 || x - 1 <= NextColumn(x, c) <= x + 1
  {
  }

  function NextCount(count: i32, c: bv8): i32 {
    if c == 0x08 then (if count != 0 then Wrap32(count - 1) else 0)
    else if c == 0x09 then Wrap32((count + 8) / 8 * 8)
    else if c == 0x0d then 0
    else if c == 0x0a then Wrap32(count + 80)
    else if Printable(c) then Wrap32(count + 1)
    else count
  }

  // ----- The screen as the source keeps it

  ghost predicate ScreenValid(s: Screen) {
    |s.cells| == CELLS && 0 <= s.x < COLUMNS && 0 <= s.y < ROWS
  }

  /** kscroll for a cursor up to 24 rows below the screen: the rows move up, and the row below the
      last one moved is blanked. */
  ghost function Scrolled(s: Screen): Screen
    requires |s.cells| == CELLS && 0 <= s.y < 2 * ROWS
  {
    if s.y < ROWS then s
    else
      var temp := s.y - ROWS + 1;
      s.(cells := s.cells[COLUMNS * temp..] + Blanks(s.attrib, COLUMNS) + s.cells[COLUMNS * (ROWS - temp + 1)..],
         y := ROWS - 1)
  }

  /** The character itself: a cell is stored or the cursor moves. */
  ghost function Struck(s: Screen, c: bv8): Screen
    requires ScreenValid(s)
  {
    s.(cells := if Printable(c) then s.cells[COLUMNS * s.y + s.x := Cell(c, LowByte(s.attrib))] else s.cells,
       x := NextColumn(s.x, c),
       y := if c == 0x0a then s.y + 1 else s.y,
       count := NextCount(s.count, c))
  }

  /** At the right margin a new line is inserted. */
  ghost function Wrapped(s: Screen): Screen {
    if s.x >= COLUMNS then s.(x := 0, y := s.y + 1, count := Wrap32(s.count + 80)) else s
  }

  ghost function ScreenPut(s: Screen, c: bv8): Screen
    requires ScreenValid(s)
  {
    Scrolled(Wrapped(Struck(s, c)))
  }

  ghost function ScreenClear(s: Screen): Screen {
    s.(cells := Blanks(s.attrib, CELLS), x := 0, y := 0)
  }

  /** The 2000 cells at TEXT. */
  ghost function CellsOf(m: seq<bv8>): (cells: seq<Cell>)
    requires TEXT + 2 * CELLS <= |m|
    ensures |cells| == CELLS
  {
    seq(CELLS, k requires 0 <= k < CELLS => Cell(m[TEXT + 2 * k], m[TEXT + 2 * k + 1]))
  }

  lemma CellsMovedUp(m: seq<bv8>, first: nat)
    requires TEXT + 2 * CELLS <= |m| && 0 < first <= CELLS
    ensures CellsOf(Moved(m, TEXT, TEXT + 2 * first, 2 * (CELLS - first)))
         == CellsOf(m)[first..] + CellsOf(m)[CELLS - first..]
  {
    var n := Moved(m, TEXT, TEXT + 2 * first, 2 * (CELLS - first));
    forall k | 0 <= k < CELLS
      ensures CellsOf(n)[k] == (CellsOf(m)[first..] + CellsOf(m)[CELLS - first..])[k]
    {
      if k < CELLS - first {
        assert n[TEXT + 2 * k] == m[TEXT + 2 * (first + k)] && n[TEXT + 2 * k + 1] == m[TEXT + 2 * (first + k) + 1];
      } else {
        assert n[TEXT + 2 * k] == m[TEXT + 2 * k] && n[TEXT + 2 * k + 1] == m[TEXT + 2 * k + 1];
      }
    }
  }

  class Terminal {
    const mem: array<bv8>
    var attrib: bv16
    var csrX: u16
    var csrY: u16
    var cursor: i32

    constructor (mem: array<bv8>)
      requires InMemory(mem, TEXT, 2 * CELLS)
      ensures this.mem == mem && Placed()
      ensures attrib == 0x0F && csrX == 0 && csrY == 0 && cursor == 0
    {
      this.mem := mem;
      attrib, csrX, csrY, cursor := 0x0F, 0, 0, 0;
    }

    ghost predicate Placed() {
      InMemory(mem, TEXT, 2 * CELLS)
    }

    ghost function Cells(): (cells: seq<Cell>)
      requires Placed()
      reads mem
      ensures |cells| == CELLS
    {
      CellsOf(mem[..])
    }

    ghost function Now(): Screen
      requires Placed()
      reads this, mem
    {
      Screen(Cells(), csrX, csrY, attrib, cursor)
    }

    /** Only the 2000 cells of the screen differ from the memory m. */
    ghost predicate OnlyScreen(m: seq<bv8>)
      reads mem
    {
      |m| == mem.Length &&
      forall a :: 0 <= a < |m| && !(TEXT <= a < TEXT + 2 * CELLS) ==> mem[a] == m[a]
    }

    method SetTextColor(forecolor: bv8, backcolor: bv8)
      requires Placed()
      modifies this`attrib
      ensures Now() == old(Now()).(attrib := Attribute(forecolor, backcolor))
    {
      attrib := ((backcolor as bv16) << 4) | ((forecolor & 0x0F) as bv16);
    }

    /** kmemcpyb at the granularity of cells: the cells from `first` on move to the top of the screen. */
    method MoveCellsUp(first: nat)
      requires Placed() && 0 < first <= CELLS
      modifies mem
      ensures Cells() == old(Cells())[first..] + old(Cells())[CELLS - first..]
      ensures OnlyScreen(old(mem[..]))
    {
      hide Moved, CellsOf, Copied, ForwardSource;
      CellsMovedUp(mem[..], first);
      var _ := KMemcpyb(mem, TEXT, TEXT + 2 * first, 2 * (CELLS - first));
    }

    /** kmemsetw at the granularity of cells. */
    method BlankCells(first: nat, n: nat)
      requires Placed() && first + n <= CELLS
      modifies mem
      ensures Cells() == old(Cells())[..first] + Blanks(attrib, n) + old(Cells())[first + n..]
      ensures OnlyScreen(old(mem[..]))
    {
      var blank: bv16 := 0x20 | (attrib << 8);
      BlankBytes(attrib);
      ghost var before := Cells();
      var _ := KMemsetw(mem, TEXT + 2 * first, blank, n);
      forall k | first <= k < first + n
        ensures Cells()[k] == Blank(attrib)
      {
        var i := k - first;
        assert LowByte(blank) == mem[TEXT + 2 * first + 2 * i];
      }
      assert Cells()[first..first + n] == Blanks(attrib, n);
    }

    method KScroll()
      requires Placed() && csrY < 2 * ROWS
      modifies this`csrY, mem
      ensures Now() == Scrolled(old(Now()))
      ensures OnlyScreen(old(mem[..]))
    {
      hide Cells, Blanks;
      ghost var s := Now();
      if csrY >= 25 {
        ghost var before := Cells();
        var temp: u32 := csrY - 25 + 1;
        MoveCellsUp(temp * 80);
        BlankCells((25 - temp) * 80, 80);
        RowsScrolled(before, Blanks(attrib, COLUMNS), COLUMNS * temp);
        assert Cells() == Scrolled(s).cells;
        csrY := 25 - 1;
      }
    }

    method Cls()
      requires Placed()
      modifies this`csrX, this`csrY, mem
      ensures Now() == ScreenClear(old(Now())) && csrX == 0 && csrY == 0
      ensures forall k :: 0 <= k < 2000 ==> Cells()[k] == Cell(0x20, LowByte(attrib))
      ensures OnlyScreen(old(mem[..]))
    {
      ghost var m := mem[..];
      for i := 0 to 25
        invariant Cells()[..80 * i] == Blanks(attrib, 80 * i)
        invariant OnlyScreen(m)
      {
        BlankCells(i * 80, 80);
        assert Blanks(attrib, 80 * i) + Blanks(attrib, 80) == Blanks(attrib, 80 * (i + 1));
      }
      csrX := 0;
      csrY := 0;
    }

    method KPutch(c: bv8)
      requires Placed() && ScreenValid(Now())
      modifies this`csrX, this`csrY, this`cursor, mem
      ensures ScreenValid(Now())
      ensures Now() == ScreenPut(old(Now()), c)
      ensures OnlyScreen(old(mem[..]))
    {
      ghost var s := Now();
      ghost var m := mem[..];
      Strike(c);
      if csrX >= 80 {
        csrX := 0;
        cursor := Wrap32(cursor + 80);
        csrY := csrY + 1;
      }
      assert Now() == Wrapped(Struck(s, c));
      KScroll();
    }

    /** The branches of kputch on the character. */
    method Strike(c: bv8)
      requires Placed() && ScreenValid(Now())
      modifies this`csrX, this`csrY, this`cursor, mem
      ensures Now() == Struck(old(Now()), c)
      ensures OnlyScreen(old(mem[..]))
    {
      hide LowByte, HighByte, Wrap32, Cells;
      ghost var s := Now();
      if c == 0x08 {
        if csrX != 0 {
          csrX := csrX - 1;
        }
        if cursor != 0 {
          cursor := Wrap32(cursor - 1);
        }
        assert Now() == Struck(s, c);
      } else if c == 0x09 {
        csrX := (csrX + 8) / 8 * 8;
        cursor := Wrap32((cursor + 8) / 8 * 8);
        assert Now() == Struck(s, c);
      } else if c == 0x0d {
        csrX := 0;
        cursor := 0;
        assert Now() == Struck(s, c);
      } else if c == 0x0a {
        csrX := 0;
        cursor := Wrap32(cursor + 80);
        csrY := csrY + 1;
        assert Now() == Struck(s, c);
      } else if c >= 0x20 {
        SetCell(csrY * 80 + csrX, c);
        csrX := csrX + 1;
        cursor := Wrap32(cursor + 1);
        assert Now() == Struck(s, c);
      }
    }

    /** The 16-bit store `*where = c | att`. */
    method SetCell(k: nat, c: bv8)
      requires Placed() && k < CELLS
      modifies mem
      ensures Cells() == old(Cells())[k := Cell(c, LowByte(attrib))]
      ensures OnlyScreen(old(mem[..]))
    {
      var att: bv16 := attrib << 8;
      var value := (c as bv16) | att;
      CellBytes(c, attrib);
      mem[TEXT + 2 * k], mem[TEXT + 2 * k + 1] := LowByte(value), HighByte(value);
    }
  }

  /** Moving the cells from `first` on to the top and replacing the row after them. */
  lemma RowsScrolled(before: seq<Cell>, row: seq<Cell>, first: nat)
    requires |before| == CELLS && |row| == COLUMNS && COLUMNS <= first <= CELLS
    ensures var moved := before[first..] + before[CELLS - first..];
      moved[..CELLS - first] + row + moved[CELLS - first + COLUMNS..]
      == before[first..] + row + before[CELLS - first + COLUMNS..]
  {
  }

  lemma CellBytes(c: bv8, attrib: bv16)
    ensures LowByte((c as bv16) | (attrib << 8)) == c
    ensures HighByte((c as bv16) | (attrib << 8)) == LowByte(attrib)
  {
  }

  lemma BlankBytes(attrib: bv16)
    ensures LowByte(0x20 | (attrib << 8)) == 0x20
    ensures HighByte(0x20 | (attrib << 8)) == LowByte(attrib)
  {
  }
}
