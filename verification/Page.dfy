/** What the console is meant to show: a page of 80 columns that is never scrolled, only extended at
    the bottom. The screen is at all times the last 25 rows of it. */
module Page {
  import opened Numbers
  import opened Memory
  import opened Console

  /** `rows` rows of 80 cells; the cursor is in column x of row y, counted from the top of the page. */
  datatype Page = Page(cells: seq<Cell>, rows: nat, x: nat, y: nat, attrib: bv16, count: i32)

  ghost predicate PageValid(p: Page) {
    |p.cells| == COLUMNS * p.rows && p.x < COLUMNS && ROWS <= p.rows && p.rows - ROWS <= p.y < p.rows
  }

  ghost function NewPage(attrib: bv16, count: i32): (p: Page)
    ensures PageValid(p)
  {
    Page(Blanks(attrib, CELLS), ROWS, 0, 0, attrib, count)
  }

  /** The row below the last one comes into being, blank, when the cursor enters it. */
  ghost function Extended(p: Page): Page {
    if p.y == p.rows then p.(cells := p.cells + Blanks(p.attrib, COLUMNS), rows := p.rows + 1) else p
  }

  ghost function PageStruck(p: Page, c: bv8): Page
    requires PageValid(p)
  {
    p.(cells := if Printable(c) then p.cells[COLUMNS * p.y + p.x := Cell(c, LowByte(p.attrib))] else p.cells,
       x := NextColumn(p.x, c),
       y := if c == 0x0a then p.y + 1 else p.y,
       count := NextCount(p.count, c))
  }

  ghost function PageWrapped(p: Page): Page {
    if p.x >= COLUMNS then p.(x := 0, y := p.y + 1, count := Wrap32(p.count + 80)) else p
  }

  ghost function PagePut(p: Page, c: bv8): (q: Page)
    requires PageValid(p)
    ensures PageValid(q)
  {
    Extended(PageWrapped(PageStruck(p, c)))
  }

  /** The page from row `top` on, as a screen. */
  ghost function Cut(p: Page, top: nat): Screen
    requires COLUMNS * top <= |p.cells|
  {
    Screen(p.cells[COLUMNS * top..], p.x, p.y - top, p.attrib, p.count)
  }

  /** The last 25 rows. */
  ghost function View(p: Page): (s: Screen)
    requires PageValid(p)
    ensures ScreenValid(s)
  {
    Cut(p, p.rows - ROWS)
  }

  /** The view is the last 2000 cells of the page, and the cursor is where it is on the page. */
  lemma ViewExactly(p: Page)
    requires PageValid(p)
    ensures |p.cells| >= 2000 && View(p).cells == p.cells[|p.cells| - 2000..]
    ensures View(p).x == p.x && 80 * View(p).y == 80 * p.y - (|p.cells| - 2000)
    ensures View(p).attrib == p.attrib && View(p).count == p.count
  {
  }

  lemma CutOfStruck(p: Page, c: bv8)
    requires PageValid(p)
    ensures Cut(PageStruck(p, c), p.rows - ROWS) == Struck(View(p), c)
  {
    hide Printable, LowByte, NextColumn, NextCount;
    var top := p.rows - ROWS;
    var k := COLUMNS * p.y + p.x;
    assert p.cells[k := Cell(c, LowByte(p.attrib))][COLUMNS * top..]
        == p.cells[COLUMNS * top..][k - COLUMNS * top := Cell(c, LowByte(p.attrib))];
  }

  lemma CutOfWrapped(p: Page, top: nat)
    requires COLUMNS * top <= |p.cells|
    ensures Cut(PageWrapped(p), top) == Wrapped(Cut(p, top))
  {
  }

  lemma CutOfExtended(p: Page)
    requires |p.cells| == COLUMNS * p.rows && ROWS <= p.rows && p.rows - ROWS <= p.y <= p.rows
    ensures Extended(p).rows >= ROWS
    ensures Cut(Extended(p), Extended(p).rows - ROWS) == Scrolled(Cut(p, p.rows - ROWS))
  {
    var top := p.rows - ROWS;
    if p.y == p.rows {
      var b := Blanks(p.attrib, COLUMNS);
      assert (p.cells + b)[COLUMNS * (top + 1)..] == p.cells[COLUMNS * top..][COLUMNS..] + b;
    }
  }

  lemma ViewOfPut(p: Page, c: bv8)
    requires PageValid(p)
    ensures View(PagePut(p, c)) == ScreenPut(View(p), c)
  {
    hide PageStruck, PageWrapped, Struck, Wrapped, Extended, Scrolled, Cut;
    var top := p.rows - ROWS;
    CutOfStruck(p, c);
    BeforeExtending(p, c);
    CutOfWrapped(PageStruck(p, c), top);
    CutOfExtended(PageWrapped(PageStruck(p, c)));
  }

  lemma BeforeExtending(p: Page, c: bv8)
    requires PageValid(p)
    ensures |PageStruck(p, c).cells| == |p.cells|
    ensures var q := PageWrapped(PageStruck(p, c));
      |q.cells| == |p.cells| && q.rows == p.rows && p.y <= q.y <= q.rows
  {
  }

  // ----- Whole sessions

  datatype Action = Put(c: bv8) | Colour(fore: bv8, back: bv8) | Clear

  ghost function ScreenAct(s: Screen, a: Action): (r: Screen)
    requires ScreenValid(s)
    ensures ScreenValid(r)
  {
    match a
    case Put(c) => ScreenPut(s, c)
    case Colour(fore, back) => s.(attrib := Attribute(fore, back))
    case Clear => ScreenClear(s)
  }

  ghost function PageAct(p: Page, a: Action): (q: Page)
    requires PageValid(p)
    ensures PageValid(q)
  {
    match a
    case Put(c) => PagePut(p, c)
    case Colour(fore, back) => p.(attrib := Attribute(fore, back))
    case Clear => NewPage(p.attrib, p.count)
  }

  ghost function ScreenRun(s: Screen, acts: seq<Action>): (r: Screen)
    requires ScreenValid(s)
    ensures ScreenValid(r)
    decreases |acts|
  {
    if acts == [] then s else ScreenRun(ScreenAct(s, acts[0]), acts[1..])
  }

  ghost function PageRun(p: Page, acts: seq<Action>): (q: Page)
    requires PageValid(p)
    ensures PageValid(q)
    decreases |acts|
  {
    if acts == [] then p else PageRun(PageAct(p, acts[0]), acts[1..])
  }

  lemma {:induction false} ViewOfRun(p: Page, acts: seq<Action>)
    requires PageValid(p)
    ensures ScreenRun(View(p), acts) == View(PageRun(p, acts))
    decreases |acts|
  {
    if acts != [] {
      if acts[0].Put? {
        ViewOfPut(p, acts[0].c);
      }
      assert ScreenAct(View(p), acts[0]) == View(PageAct(p, acts[0]));
      ViewOfRun(PageAct(p, acts[0]), acts[1..]);
    }
  }

  /** After cls and any sequence of characters, colour changes and further cls, the cursor is on the
      screen, and the screen is the last 25 rows of the page drawn without any scrolling. */
  lemma ScreenIsLastRowsOfPage(s: Screen, acts: seq<Action>)
    ensures ScreenValid(ScreenClear(s))
    ensures ScreenValid(ScreenRun(ScreenClear(s), acts))
    ensures ScreenRun(ScreenClear(s), acts) == View(PageRun(NewPage(s.attrib, s.count), acts))
  {
    assert View(NewPage(s.attrib, s.count)) == ScreenClear(s);
    ViewOfRun(NewPage(s.attrib, s.count), acts);
  }

  // ----- The page keeps what was written

  /** Until the next cls, rows above the cursor are final and the page never gets shorter. */
  lemma {:induction false} FinishedRowsStay(p: Page, acts: seq<Action>)
    requires PageValid(p) && Clear !in acts
    ensures PageRun(p, acts).y >= p.y && |PageRun(p, acts).cells| >= |p.cells|
    ensures PageRun(p, acts).cells[..COLUMNS * p.y] == p.cells[..COLUMNS * p.y]
    decreases |acts|
  {
    if acts != [] {
      var q := PageAct(p, acts[0]);
      RowsAboveStay(p, acts[0]);
      FinishedRowsStay(q, acts[1..]);
      hide PageAct, PageValid;
      PrefixOfPrefix(p.cells, q.cells, PageRun(p, acts).cells, COLUMNS * p.y, COLUMNS * q.y);
    }
  }

  lemma RowsAboveStay(p: Page, a: Action)
    requires PageValid(p) && !a.Clear?
    ensures PageAct(p, a).y >= p.y && |PageAct(p, a).cells| >= |p.cells|
    ensures COLUMNS * p.y <= |p.cells| && PageAct(p, a).cells[..COLUMNS * p.y] == p.cells[..COLUMNS * p.y]
    ensures COLUMNS * PageAct(p, a).y <= |PageAct(p, a).cells|
  {
    hide LowByte, NextCount, NextColumn, Blanks, Wrap32;
    if a.Put? {
      var q := PageStruck(p, a.c);
      assert q.cells[..COLUMNS * p.y] == p.cells[..COLUMNS * p.y];
      assert PagePut(p, a.c).cells[..COLUMNS * p.y] == q.cells[..COLUMNS * p.y];
    }
  }

  lemma PrefixOfPrefix(a: seq<Cell>, b: seq<Cell>, c: seq<Cell>, m: nat, n: nat)
    requires m <= n && m <= |a| && n <= |b| <= |c| && b[..m] == a[..m] && c[..n] == b[..n]
    ensures c[..m] == a[..m]
  {
    assert c[..m] == c[..n][..m] && b[..m] == b[..n][..m];
  }

  function Text(t: seq<bv8>): seq<Action> {
    seq(|t|, i requires 0 <= i < |t| => Put(t[i]))
  }

  ghost function Position(p: Page): nat {
    COLUMNS * p.y + p.x
  }

  lemma PositionInPage(p: Page)
    requires PageValid(p)
    ensures Position(p) < |p.cells|
  {
  }

  // ----- What each character does to the page

  /** q has the cells `cells` and, after them, blank ones. */
  ghost predicate Extends(q: Page, cells: seq<Cell>, attrib: bv16) {
    && q.attrib == attrib
    && |cells| <= |q.cells| && q.cells[..|cells|] == cells
    && forall k :: |cells| <= k < |q.cells| ==> q.cells[k] == Cell(0x20, LowByte(attrib))
  }

  /** A new line goes to column 0 of the next row, and changes no cell. */
  lemma NewLine(p: Page)
    requires PageValid(p)
    ensures var q := PagePut(p, 0x0a);
      && q.x == 0 && q.y == p.y + 1 && q.attrib == p.attrib && q.count == Wrap32(p.count + 80)
      && Extends(q, p.cells, p.attrib)
  {
    hide LowByte, Wrap32;
  }

  /** A carriage return goes to column 0 of the same row, and changes nothing else on the page. */
  lemma CarriageReturn(p: Page)
    requires PageValid(p)
    ensures PagePut(p, 0x0d) == p.(x := 0, count := 0)
  {
  }

  /** A tab goes to the next cell whose number is a multiple of eight, on the next row if need be. */
  lemma Tab(p: Page)
    requires PageValid(p)
    ensures var q := PagePut(p, 0x09);
      && Position(p) < Position(q) <= Position(p) + 8 && Position(q) % 8 == 0 && Extends(q, p.cells, p.attrib)
      && q.count == Wrap32(Wrap32(p.count / 8 * 8 + 8) + 80 * (q.y - p.y))
  {
    ColumnMoves(p.x, 0x09);
    NoCellStruck(p, 0x09);
    TabCount(p.count);
    AfterWrapping(p, 0x09);
    hide LowByte, Wrap32, NextColumn, NextCount, PageStruck, PagePut, Extends, PageValid;
    var x := NextColumn(p.x, 0x09);
    MultipleOfEight(p.y, x);
    MultipleOfEight(p.y + 1, 0);
    if x == COLUMNS {
      assert PageWrapped(PageStruck(p, 0x09)).x == 0 && PageWrapped(PageStruck(p, 0x09)).y == p.y + 1;
    }
  }

  lemma MultipleOfEight(y: nat, x: nat)
    requires x % 8 == 0
    ensures (COLUMNS * y + x) % 8 == 0
  {
    assert COLUMNS * y == 8 * (10 * y);
    ModPlusMultiple(x, 8, 10 * y);
  }

  /** The last part of a step only adds a row. */
  lemma AfterWrapping(p: Page, c: bv8)
    requires PageValid(p)
    ensures p.x < COLUMNS
    ensures var w, q := PageWrapped(PageStruck(p, c)), PagePut(p, c);
      q.x == w.x && q.y == w.y && q.count == w.count && Extends(q, w.cells, w.attrib)
  {
    hide PageStruck, PageWrapped, LowByte;
    BeforeExtending(p, c);
  }

  lemma TabCount(count: i32)
    ensures NextCount(count, 0x09) == Wrap32(count / 8 * 8 + 8)
    ensures Wrap32(NextCount(count, 0x09)) == NextCount(count, 0x09)
  {
    assert (count + 8) / 8 * 8 == count / 8 * 8 + 8;
  }

  lemma NoCellStruck(p: Page, c: bv8)
    requires PageValid(p) && c < 0x20 && c != 0x0a
    ensures PageStruck(p, c) == p.(x := NextColumn(p.x, c), count := NextCount(p.count, c))
  {
    hide NextColumn, NextCount;
  }

  /** A backspace goes one cell back but never to the row above, and erases nothing. */
  lemma Backspace(p: Page)
    requires PageValid(p)
    ensures var q := PagePut(p, 0x08);
      && q == p.(x := q.x, count := if p.count != 0 then Wrap32(p.count - 1) else 0)
      && (p.x > 0 ==> Position(q) == Position(p) - 1)
      && (p.x == 0 ==> q.x == 0)
  {
  }

  lemma OtherControls(p: Page, c: bv8)
    requires PageValid(p) && c < 0x20 && c != 0x08 && c != 0x09 && c != 0x0a && c != 0x0d
    ensures PagePut(p, c) == p
  {
  }

  lemma Letter(p: Page, c: bv8)
    requires PageValid(p) && c >= 0x20
    ensures Position(p) < |p.cells|
    ensures var q := PagePut(p, c);
      && Position(q) == Position(p) + 1 && q.attrib == p.attrib
      && q.count == Wrap32(Wrap32(p.count + 1) + 80 * (q.y - p.y)) && p.y <= q.y <= p.y + 1
      && Extends(q, p.cells[Position(p) := Cell(c, LowByte(p.attrib))], p.attrib)
  {
    hide LowByte, Wrap32;
  }

  /** A letter, a backspace and another letter: the second takes the place of the first, unless the
      first ended a row; then it stays, and the second begins the row below. */
  lemma CorrectedLetter(p: Page, c: bv8, d: bv8)
    requires PageValid(p) && c >= 0x20 && d >= 0x20
    ensures var q := PagePut(PagePut(PagePut(p, c), 0x08), d);
      && Position(p) < |p.cells|
      && (p.x < 79 ==> Position(q) == Position(p) + 1
                       && Extends(q, p.cells[Position(p) := Cell(d, LowByte(p.attrib))], p.attrib))
      && (p.x == 79 ==> q.x == 1 && q.y == p.y + 1 && Position(p) + 1 < |q.cells|
                        && q.cells[Position(p)] == Cell(c, LowByte(p.attrib))
                        && q.cells[Position(p) + 1] == Cell(d, LowByte(p.attrib)))
  {
    hide LowByte, PagePut, Wrap32, PageValid, Extends;
    var one := PagePut(p, c);
    var back := PagePut(one, 0x08);
    Letter(p, c);
    Backspace(one);
    Letter(back, d);
    ColumnsInRange(p);
    ColumnsInRange(one);
    ColumnsInRange(back);
    ColumnsInRange(PagePut(back, d));
    assert back.cells == one.cells && back.attrib == one.attrib;
    var first := p.cells[Position(p) := Cell(c, LowByte(p.attrib))];
    ExtendsKeeps(one, first, p.attrib);
    if p.x < 79 {
      assert Position(back) == Position(p);
      ExtendsAgain(PagePut(back, d), one, first, Position(p), Cell(d, LowByte(p.attrib)), p.attrib);
      assert first[Position(p) := Cell(d, LowByte(p.attrib))] == p.cells[Position(p) := Cell(d, LowByte(p.attrib))];
    } else {
      assert Position(back) == Position(p) + 1;
      ExtendsKeeps(PagePut(back, d), one.cells[Position(back) := Cell(d, LowByte(p.attrib))], p.attrib);
    }
  }

  lemma ExtendsKeeps(q: Page, cells: seq<Cell>, attrib: bv16)
    requires Extends(q, cells, attrib)
    ensures q.attrib == attrib && |cells| <= |q.cells|
    ensures forall k :: 0 <= k < |cells| ==> q.cells[k] == cells[k]
  {
    assert forall k :: 0 <= k < |cells| ==> q.cells[k] == q.cells[..|cells|][k];
  }

  lemma ExtendsAgain(q: Page, p: Page, cells: seq<Cell>, k: nat, c: Cell, attrib: bv16)
    requires Extends(p, cells, attrib) && k < |cells| && Extends(q, p.cells[k := c], attrib)
    ensures Extends(q, cells[k := c], attrib)
  {
    hide LowByte;
    ExtendsKeeps(p, cells, attrib);
    ExtendsKeeps(q, p.cells[k := c], attrib);
  }

  lemma ColumnsInRange(p: Page)
    requires PageValid(p)
    ensures p.x < COLUMNS && |p.cells| == COLUMNS * p.rows && p.y < p.rows
  {
  }

  // ----- Text

  ghost predicate AllPrintable(t: seq<bv8>) {
    forall i :: 0 <= i < |t| ==> t[i] >= 0x20
  }

  /** q has the cells `cells`, with the text t over them from cell `at` on, and blank cells after them. */
  ghost predicate Typed(q: Page, cells: seq<Cell>, at: nat, t: seq<bv8>, attrib: bv16) {
    && q.attrib == attrib
    && |cells| <= |q.cells| && at + |t| <= |q.cells|
    && forall k :: 0 <= k < |q.cells| ==> q.cells[k] == TypedCell(cells, at, t, attrib, k)
  }

  ghost function TypedCell(cells: seq<Cell>, at: nat, t: seq<bv8>, attrib: bv16, k: nat): Cell {
    if at <= k < at + |t| then Cell(t[k - at], LowByte(attrib))
    else if k < |cells| then cells[k]
    else Cell(0x20, LowByte(attrib))
  }

  /** Printable text fills consecutive cells of the page, across line ends and screens, and changes no
      others. The counter counts the letters, and each row begun as another 80. */
  lemma {:induction false} TextIsLaidOut(p: Page, t: seq<bv8>)
    requires PageValid(p) && AllPrintable(t)
    ensures var q := PageRun(p, Text(t));
      && Position(q) == Position(p) + |t| < |q.cells| && q.attrib == p.attrib
      && q.y >= p.y && q.count == Wrap32(p.count + |t| + 80 * (q.y - p.y))
      && Typed(q, p.cells, Position(p), t, p.attrib)
    decreases |t|
  {
    hide PagePut, PageValid, Wrap32, LowByte, Typed, Extends, Text, PageRun, AllPrintable, Position;
    PositionInPage(p);
    if t == [] {
      NothingRun(p);
      NothingTyped(p, Position(p));
      WrapTwice(p.count, 0);
    } else {
      var q := PagePut(p, t[0]);
      FirstLetter(p, t);
      TextIsLaidOut(q, t[1..]);
      var r := PageRun(q, Text(t[1..]));
      TypedMore(r, q, p.cells, Position(p), t, p.attrib);
      WrapTwice(p.count + 1, 80 * (q.y - p.y));
      WrapTwice(p.count + 1 + 80 * (q.y - p.y), |t| - 1 + 80 * (r.y - q.y));
    }
  }

  lemma FirstLetter(p: Page, t: seq<bv8>)
    requires PageValid(p) && AllPrintable(t) && t != []
    ensures var q := PagePut(p, t[0]);
      && PageRun(p, Text(t)) == PageRun(q, Text(t[1..])) && AllPrintable(t[1..])
      && Position(q) == Position(p) + 1 && q.attrib == p.attrib && p.y <= q.y
      && q.count == Wrap32(Wrap32(p.count + 1) + 80 * (q.y - p.y))
      && Position(p) < |p.cells| && Extends(q, p.cells[Position(p) := Cell(t[0], LowByte(p.attrib))], p.attrib)
  {
    hide PagePut, PageValid, Wrap32, LowByte, Extends, Position;
    Letter(p, t[0]);
    assert Text(t)[0] == Put(t[0]) && Text(t)[1..] == Text(t[1..]);
  }

  lemma WrapTwice(n: int, m: int)
    ensures Wrap32(Wrap32(n) + m) == Wrap32(n + m)
    ensures -0x8000_0000 <= n < 0x8000_0000 ==> Wrap32(n) == n
  {
    var a := n + 0x8000_0000;
    DivModEquation(a, U32_SIZE);
    ModPlusMultiple(a % U32_SIZE + m, U32_SIZE, a / U32_SIZE);
  }

  lemma NothingTyped(p: Page, at: nat)
    requires at <= |p.cells|
    ensures Typed(p, p.cells, at, [], p.attrib)
  {
  }

  lemma TypedMore(r: Page, q: Page, cells: seq<Cell>, at: nat, t: seq<bv8>, attrib: bv16)
    requires t != [] && at < |cells|
    requires Extends(q, cells[at := Cell(t[0], LowByte(attrib))], attrib)
    requires Typed(r, q.cells, at + 1, t[1..], attrib)
    ensures Typed(r, cells, at, t, attrib)
  {
    hide LowByte;
    ExtendsKeeps(q, cells[at := Cell(t[0], LowByte(attrib))], attrib);
  }

  /** After a carriage return, text overwrites the row from its start, and nothing else. */
  lemma ReturnOverwrites(p: Page, t: seq<bv8>)
    requires PageValid(p) && AllPrintable(t)
    ensures Typed(PageRun(p, [Put(0x0d)] + Text(t)), p.cells, COLUMNS * p.y, t, p.attrib)
  {
    CarriageReturn(p);
    assert ([Put(0x0d)] + Text(t))[1..] == Text(t);
    TextIsLaidOut(PagePut(p, 0x0d), t);
  }

  // ----- Lines of text

  lemma {:induction false} RunAppend(p: Page, a: seq<Action>, b: seq<Action>)
    requires PageValid(p)
    ensures PageRun(p, a + b) == PageRun(PageRun(p, a), b)
    decreases |a|
  {
    if a == [] {
      assert a + b == b;
    } else {
      assert (a + b)[1..] == a[1..] + b;
      RunAppend(PageAct(p, a[0]), a[1..], b);
    }
  }

  /** Lines, each ended by a new line character. */
  ghost function LinesText(lines: seq<seq<bv8>>): seq<Action> {
    if lines == [] then [] else Text(lines[0]) + [Put(0x0a)] + LinesText(lines[1..])
  }

  /** The cells of a line: its letters, then blanks to the end of the row that the cursor ends in. */
  ghost function LineCells(line: seq<bv8>, attrib: bv16): (cells: seq<Cell>)
    ensures |cells| == 80 * (|line| / 80 + 1)
  {
    seq(80 * (|line| / 80 + 1), k requires 0 <= k => Cell(if k < |line| then line[k] else 0x20, LowByte(attrib)))
  }

  ghost function LaidOut(lines: seq<seq<bv8>>, attrib: bv16): seq<Cell> {
    if lines == [] then [] else LineCells(lines[0], attrib) + LaidOut(lines[1..], attrib)
  }

  /** All cells from `at` on are blank. */
  ghost predicate BlankFrom(p: Page, at: nat) {
    forall k :: at <= k < |p.cells| ==> p.cells[k] == Cell(0x20, LowByte(p.attrib))
  }

  lemma OneLine(p: Page, line: seq<bv8>)
    requires PageValid(p) && p.x == 0 && BlankFrom(p, COLUMNS * p.y) && AllPrintable(line)
    ensures var q := PageRun(p, Text(line) + [Put(0x0a)]);
      && q.x == 0 && q.y == p.y + |line| / 80 + 1 && q.attrib == p.attrib
      && COLUMNS * q.y <= |q.cells| && COLUMNS * p.y <= |p.cells|
      && q.cells[..COLUMNS * q.y] == p.cells[..COLUMNS * p.y] + LineCells(line, p.attrib)
      && BlankFrom(q, COLUMNS * q.y)
  {
    hide PagePut, Extends, LowByte, Wrap32, PageRun, Typed, PageValid, BlankFrom, LineCells, AllPrintable, Text;
    var typed := PageRun(p, Text(line));
    OneLineRuns(p, line);
    TextIsLaidOut(p, line);
    NewLine(typed);
    LinePlace(p, typed, |line|);
    ColumnsInRange(p);
    ColumnsInRange(PagePut(typed, 0x0a));
    LineTyped(PagePut(typed, 0x0a), typed, p, line);
  }

  lemma OneLineRuns(p: Page, line: seq<bv8>)
    requires PageValid(p)
    ensures PageRun(p, Text(line) + [Put(0x0a)]) == PagePut(PageRun(p, Text(line)), 0x0a)
  {
    RunAppend(p, Text(line), [Put(0x0a)]);
    var typed := PageRun(p, Text(line));
    assert PageRun(typed, [Put(0x0a)]) == PagePut(typed, 0x0a);
  }

  lemma LinePlace(p: Page, typed: Page, n: nat)
    requires PageValid(p) && PageValid(typed) && p.x == 0 && p.y <= typed.y
    requires Position(typed) == Position(p) + n
    ensures typed.y == p.y + n / 80
  {
    ColumnsInRange(typed);
    hide PageValid;
    DivModUnique(n, 80, typed.y - p.y, typed.x);
  }

  lemma LineTyped(q: Page, typed: Page, p: Page, line: seq<bv8>)
    requires Typed(typed, p.cells, COLUMNS * p.y, line, p.attrib) && BlankFrom(p, COLUMNS * p.y)
    requires Extends(q, typed.cells, p.attrib)
    requires COLUMNS * p.y <= |p.cells| && q.y == p.y + |line| / 80 + 1 && COLUMNS * q.y <= |q.cells|
    ensures q.cells[..COLUMNS * q.y] == p.cells[..COLUMNS * p.y] + LineCells(line, p.attrib)
    ensures BlankFrom(q, COLUMNS * q.y)
  {
    hide LowByte;
    ExtendsKeeps(q, typed.cells, p.attrib);
    forall k | 0 <= k < COLUMNS * q.y
      ensures q.cells[k] == (p.cells[..COLUMNS * p.y] + LineCells(line, p.attrib))[k]
    {
    }
  }

  /** Lines written on an empty part of the page come out row by row: each begins in column 0, takes
      one row more than it fills, and is followed by blanks. */
  lemma {:induction false} LinesAreRows(p: Page, lines: seq<seq<bv8>>)
    requires PageValid(p) && p.x == 0 && BlankFrom(p, COLUMNS * p.y)
    requires forall line :: line in lines ==> AllPrintable(line)
    ensures var q := PageRun(p, LinesText(lines));
      && q.x == 0 && BlankFrom(q, COLUMNS * q.y) && q.attrib == p.attrib
      && COLUMNS * q.y <= |q.cells| && COLUMNS * p.y <= |p.cells|
      && q.cells[..COLUMNS * q.y] == p.cells[..COLUMNS * p.y] + LaidOut(lines, p.attrib)
    decreases |lines|
  {
    hide PageValid, BlankFrom, LineCells, Text, PageRun, AllPrintable;
    PositionInPage(p);
    if lines == [] {
      NothingRun(p);
    } else {
      var first := Text(lines[0]) + [Put(0x0a)];
      var q := PageRun(p, first);
      assert lines[0] in lines;
      OneLine(p, lines[0]);
      RunAppend(p, first, LinesText(lines[1..]));
      LinesAreRows(q, lines[1..]);
      Joined(p.cells[..COLUMNS * p.y], LineCells(lines[0], p.attrib), LaidOut(lines[1..], p.attrib));
    }
  }

  lemma NothingRun(p: Page)
    requires PageValid(p)
    ensures PageRun(p, []) == p && PageRun(p, Text([])) == p
  {
  }

  lemma Joined(a: seq<Cell>, b: seq<Cell>, c: seq<Cell>)
    ensures (a + b) + c == a + (b + c)
  {
  }

  /** The new page of cls is empty, so LinesAreRows holds of it. */
  lemma NewPageIsEmpty(attrib: bv16, count: i32)
    ensures var p := NewPage(attrib, count);
      p.x == 0 && p.y == 0 && |p.cells| == 2000 && p.attrib == attrib && p.count == count && BlankFrom(p, 0)
  {
  }

  // ----- A session on the real terminal

  /** cls and then any sequence of actions, performed by the methods of the console: the cells in
      memory are the last 25 rows of the page, and no byte outside them changes. */
  method Session(t: Terminal, acts: seq<Action>)
    requires t.Placed()
    modifies t, t.mem
    ensures t.Placed() && ScreenValid(t.Now())
    ensures t.Now() == View(PageRun(NewPage(old(t.attrib), old(t.cursor)), acts))
    ensures forall k :: 0 <= k < 2000 ==>
      t.Now().cells[k] == Cell(t.mem[0xB8000 + 2 * k], t.mem[0xB8000 + 2 * k + 1])
    ensures t.OnlyScreen(old(t.mem[..]))
  {
    hide PageRun, ScreenPut, ScreenClear, View, NewPage;
    ghost var s := t.Now();
    ghost var m := t.mem[..];
    ScreenIsLastRowsOfPage(s, acts);
    t.Cls();
    ghost var first := t.Now();
    for i := 0 to |acts|
      invariant t.Placed() && ScreenValid(t.Now())
      invariant ScreenRun(t.Now(), acts[i..]) == ScreenRun(first, acts)
      invariant t.OnlyScreen(m)
    {
      assert acts[i..][0] == acts[i] && acts[i..][1..] == acts[i + 1..];
      match acts[i]
      case Put(c) => t.KPutch(c);
      case Colour(fore, back) => t.SetTextColor(fore, back);
      case Clear => t.Cls();
    }
    assert acts[|acts|..] == [];
  }
}
