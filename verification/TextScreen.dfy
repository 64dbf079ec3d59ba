/** The 80x25 text screen of `putc`: a window that scrolls over a page that never does. */
module TextScreen {
  import opened Bytes

  const BACKSPACE := 8
  const NEWLINE := 10
  const RETURN := 13

  type Row = s: seq<int> | |s| == 80 witness seq(80, i => 0)

  /** A character cell: colour in the high byte. */
  function Cell(color: byte, c: byte): int {
    color as int * 0x100 + c as int
  }

  function BlankRow(color: byte): Row {
    seq(80, i => Cell(color, 0x20))
  }

  // ---------------------------------------------------------------- the page

  /** All the rows ever reached, and where the next character goes. */
  datatype Page = Page(rows: seq<Row>, row: nat, col: nat)

  /** The page has the rows of the first screen and every row up to the current one. */
  ghost predicate PageOk(p: Page) {
    |p.rows| == Max(25, p.row + 1) && p.col < 80
  }

  function NewPage(): Page {
    Page(seq(25, i => BlankRow(7)), 0, 0)
  }

  function NextLine(p: Page, color: byte): Page {
    Page(if p.row + 1 < |p.rows| then p.rows else p.rows + [BlankRow(color)], p.row + 1, 0)
  }

  function SetCell(rows: seq<Row>, row: nat, col: nat, cell: int): (r: seq<Row>)
    requires row < |rows| && col < 80
    ensures |r| == |rows|
  {
    rows[row := rows[row][col := cell]]
  }

  predicate Printable(c: byte) {
    32 <= c <= 126
  }

  /** `putc` on a page without end. */
  function Put(p: Page, c: byte, color: byte): Page
    requires PageOk(p)
  {
    if c == BACKSPACE then
      if p.col > 0 then Page(SetCell(p.rows, p.row, p.col - 1, Cell(color, 0x20)), p.row, p.col - 1) else p
    else if c == RETURN then p.(col := 0)
    else if c == NEWLINE then NextLine(p, color)
    else if Printable(c) then
      var q := Page(SetCell(p.rows, p.row, p.col, Cell(color, c)), p.row, p.col + 1);
      if q.col == 80 then NextLine(q, color) else q
    else p
  }

  lemma {:induction false} PutKeepsOk(p: Page, c: byte, color: byte)
    requires PageOk(p)
    ensures PageOk(Put(p, c, color))
  {
  }

  function PutAll(p: Page, s: seq<byte>, color: byte): (q: Page)
    requires PageOk(p)
    ensures PageOk(q)
    decreases |s|
  {
    if s == [] then p
    else
      var q := PutAll(p, s[..|s| - 1], color);
      PutKeepsOk(q, s[|s| - 1], color);
      Put(q, s[|s| - 1], color)
  }

  /** What the screen shows: the last 25 rows of the page, one after the other. */
  function Top(p: Page): nat
    requires PageOk(p)
  {
    |p.rows| - 25
  }

  function Joined(rows: seq<Row>): (s: seq<int>)
    ensures |s| == 80 * |rows|
  {
    if rows == [] then [] else rows[0] + Joined(rows[1..])
  }

  function View(p: Page): (s: seq<int>)
    requires PageOk(p)
    ensures |s| == 2000
  {
    Joined(p.rows[Top(p)..])
  }

  // ---------------------------------------------------------------- properties of the page

  /** Rows above the current one are final: nothing printed later changes them. */
  lemma {:induction false} RowsAboveStay(p: Page, s: seq<byte>, color: byte)
    requires PageOk(p)
    ensures var q := PutAll(p, s, color);
            p.row <= q.row && p.rows[..p.row] == q.rows[..p.row]
    decreases |s|
  {
    if s != [] {
      var n := |s| - 1;
      RowsAboveStay(p, s[..n], color);
      var q := PutAll(p, s[..n], color);
      assert q.rows[..p.row] == Put(q, s[n], color).rows[..p.row];
    }
  }

  /** Printing characters only, from a cleared screen: the k-th one stands in row k / 80, column k % 80. */
  lemma {:induction false} PlainText(s: seq<byte>, color: byte)
    requires forall k :: 0 <= k < |s| ==> Printable(s[k])
    ensures var q := PutAll(NewPage(), s, color);
            && q.row == |s| / 80 && q.col == |s| % 80
            && forall k :: 0 <= k < |s| ==> q.rows[k / 80][k % 80] == Cell(color, s[k])
    decreases |s|
  {
    hide Cell, BlankRow;
    if s != [] {
      var n := |s| - 1;
      var t := s[..n];
      PlainText(t, color);
      NextPlace(n);
      var q, q' := PutAll(NewPage(), t, color), PutAll(NewPage(), s, color);
      forall k | 0 <= k < |s|
        ensures q'.rows[k / 80][k % 80] == Cell(color, s[k])
      {
        if k < n {
          assert s[k] == t[k] && q.rows[k / 80][k % 80] == Cell(color, t[k]);
          PlacesDiffer(k, n);
        }
      }
    }
  }

  lemma {:induction false} NextPlace(n: nat)
    ensures n % 80 == 79 ==> (n + 1) / 80 == n / 80 + 1 && (n + 1) % 80 == 0
    ensures n % 80 < 79 ==> (n + 1) / 80 == n / 80 && (n + 1) % 80 == n % 80 + 1
  {
  }

  lemma {:induction false} PlacesDiffer(k: nat, n: nat)
    requires k < n
    ensures k / 80 <= n / 80 && (k / 80 != n / 80 || k % 80 != n % 80)
  {
  }

  // ---------------------------------------------------------------- control characters

  /** Carriage return goes back to the start of the row and changes nothing. */
  lemma {:induction false} ReturnGoesBack(p: Page, color: byte)
    requires PageOk(p)
    ensures var q := Put(p, 13, color); q.rows == p.rows && q.row == p.row && q.col == 0
  {
  }

  /** Newline goes to the start of the next row; a row not reached before is blank, all others stay. */
  lemma {:induction false} NewlineGoesOn(p: Page, color: byte)
    requires PageOk(p)
    ensures var q := Put(p, 10, color);
            && q.row == p.row + 1 && q.col == 0
            && p.rows <= q.rows && |q.rows| <= |p.rows| + 1
            && forall r, x :: |p.rows| <= r < |q.rows| && 0 <= x < 80 ==> q.rows[r][x] == 0x100 * color as int + 0x20
  {
  }

  /** A character short of the row end, followed by a backspace, leaves a blank and the cursor before it. */
  lemma {:induction false} BackspaceTakesBack(p: Page, c: byte, color: byte, color': byte)
    requires PageOk(p) && 32 <= c <= 126 && p.col < 79
    ensures var q := Put(p, c, color);
            && PageOk(q) && q.row == p.row && q.col == p.col + 1
            && q.rows[p.row][p.col] == 0x100 * color as int + c as int
            && var b := Put(q, 8, color');
            && b.row == p.row && b.col == p.col
            && b.rows == SetCell(p.rows, p.row, p.col, 0x100 * color' as int + 0x20)
  {
    var q := Put(p, c, color);
    assert q.rows[p.row][p.col] == Cell(color, c);
    var row := p.rows[p.row];
    assert row[p.col := Cell(color, c)][p.col := Cell(color', 0x20)] == row[p.col := Cell(color', 0x20)];
  }

  /** Backspace stops at the start of the row, and no other byte does anything. */
  lemma {:induction false} OthersDoNothing(p: Page, c: byte, color: byte)
    requires PageOk(p)
    requires (c == 8 && p.col == 0) || (c != 8 && c != 10 && c != 13 && (c < 32 || c > 126))
    ensures Put(p, c, color) == p
  {
  }

  /** Lines with newlines between them. */
  function JoinLines(lines: seq<seq<byte>>): seq<byte> {
    if lines == [] then []
    else if |lines| == 1 then lines[0]
    else JoinLines(lines[..|lines| - 1]) + [10] + lines[|lines| - 1]
  }

  /** A printable line that leaves room in its row. */
  predicate ShortLine(line: seq<byte>) {
    |line| < 80 && forall k :: 0 <= k < |line| ==> 32 <= line[k] <= 126
  }

  /** The line in grey, and blanks behind it. */
  function RowOf(line: seq<byte>): (r: Row)
    requires |line| <= 80
    ensures forall x :: 0 <= x < 80 ==> r[x] == if x < |line| then 0x700 + line[x] as int else 0x720
  {
    seq(80, x requires 0 <= x < 80 => if x < |line| then 0x700 + line[x] as int else 0x720)
  }

  /** Row by row the page holds these lines, the cursor stands behind the last one, and all later rows
      are blank. */
  ghost predicate Holds(p: Page, lines: seq<seq<byte>>) {
    && PageOk(p) && lines != [] && p.row == |lines| - 1
    && p.col == |lines[|lines| - 1]| < 80
    && (forall i :: 0 <= i < |lines| ==> |lines[i]| <= 80 && p.rows[i] == RowOf(lines[i]))
    && (forall r :: |lines| <= r < |p.rows| ==> p.rows[r] == RowOf([]))
  }

  lemma {:induction false} PutAllAppend(p: Page, s: seq<byte>, t: seq<byte>, color: byte)
    requires PageOk(p)
    ensures PutAll(p, s + t, color) == PutAll(PutAll(p, s, color), t, color)
    decreases |t|
  {
    hide Put;
    if t == [] {
      assert s + t == s;
    } else {
      var n := |t| - 1;
      assert (s + t)[..|s| + n] == s + t[..n];
      PutAllAppend(p, s, t[..n], color);
    }
  }

  lemma {:induction false} HoldsLonger(p: Page, lines: seq<seq<byte>>, c: byte)
    requires Holds(p, lines) && 32 <= c <= 126 && p.col < 79
    ensures var n := |lines| - 1; Holds(Put(p, c, 7), lines[n := lines[n] + [c]])
  {
    var n := |lines| - 1;
    var line, q := lines[n], Put(p, c, 7);
    assert RowOf(line)[|line| := 0x700 + c as int] == RowOf(line + [c]);
    assert q.rows[n] == RowOf(line + [c]);
  }

  lemma {:induction false} HoldsMore(p: Page, lines: seq<seq<byte>>)
    requires Holds(p, lines)
    ensures Holds(Put(p, 10, 7), lines + [[]])
  {
    assert BlankRow(7) == RowOf([]);
  }

  lemma {:induction false} HoldsLine(p: Page, lines: seq<seq<byte>>, line: seq<byte>)
    requires Holds(p, lines + [[]]) && ShortLine(line)
    ensures Holds(PutAll(p, line, 7), lines + [line])
    decreases |line|
  {
    hide Put, Holds;
    HoldsCol(p, lines + [[]]);
    if line == [] {
      assert PutAll(p, line, 7) == p;
    } else {
      var n := |line| - 1;
      HoldsLine(p, lines, line[..n]);
      var q := PutAll(p, line[..n], 7);
      HoldsCol(q, lines + [line[..n]]);
      HoldsLonger(q, lines + [line[..n]], line[n]);
      assert (lines + [line[..n]])[|lines| := line[..n] + [line[n]]] == lines + [line] by {
        assert line[..n] + [line[n]] == line;
      }
    }
  }

  lemma {:induction false} HoldsCol(p: Page, lines: seq<seq<byte>>)
    requires Holds(p, lines)
    ensures PageOk(p) && lines != [] && p.col == |lines[|lines| - 1]|
  {
  }

  /** Short lines separated by newlines, on a cleared screen: each stands in its row, followed by blanks, and
      the cursor stands behind the last one. */
  lemma {:induction false} LinesStandInRows(lines: seq<seq<byte>>)
    requires lines != [] && forall i :: 0 <= i < |lines| ==> ShortLine(lines[i])
    ensures Holds(PutAll(NewPage(), JoinLines(lines), 7), lines)
    decreases |lines|
  {
    hide Put, Holds;
    var n := |lines| - 1;
    if n == 0 {
      HoldsNothing();
      var none: seq<seq<byte>> := [];
      assert none + [[]] == [[]] && none + [lines[0]] == lines;
      HoldsLine(NewPage(), none, lines[0]);
    } else {
      var before := PutAll(NewPage(), JoinLines(lines[..n]), 7);
      LinesStandInRows(lines[..n]);
      PutAllAppend(NewPage(), JoinLines(lines[..n]) + [10], lines[n], 7);
      PutAllAppend(NewPage(), JoinLines(lines[..n]), [10], 7);
      assert PutAll(before, [10], 7) == Put(before, 10, 7) by {
        assert [10][..0] == [];
      }
      HoldsMore(before, lines[..n]);
      HoldsLine(Put(before, 10, 7), lines[..n], lines[n]);
      assert lines[..n] + [lines[n]] == lines;
    }
  }

  lemma {:induction false} HoldsNothing()
    ensures Holds(NewPage(), [[]])
  {
    assert BlankRow(7) == RowOf([]);
  }

  /** Place by place, the screen shows the last 25 rows of the page. */
  lemma {:induction false} ViewAt(p: Page, y: nat, x: nat)
    requires PageOk(p) && y < 25 && x < 80
    ensures View(p)[80 * y + x] == p.rows[|p.rows| - 25 + y][x]
  {
    JoinedAt(p.rows[Top(p)..], y, x);
  }

  lemma {:induction false} JoinedAt(rows: seq<Row>, y: nat, x: nat)
    requires y < |rows| && x < 80
    ensures 80 * y + x < |Joined(rows)| && Joined(rows)[80 * y + x] == rows[y][x]
    decreases |rows|
  {
    if y > 0 {
      JoinedAt(rows[1..], y - 1, x);
    }
  }

  // ---------------------------------------------------------------- joining rows

  lemma {:induction false} JoinedAppend(rows: seq<Row>, r: Row)
    ensures Joined(rows + [r]) == Joined(rows) + r
    decreases |rows|
  {
    var all := rows + [r];
    if rows == [] {
      assert all[1..] == [];
    } else {
      JoinedAppend(rows[1..], r);
      assert all[1..] == rows[1..] + [r];
    }
  }

  /** Changing one cell of one row changes one cell of the screen. */
  lemma {:induction false} JoinedSet(rows: seq<Row>, y: nat, x: nat, cell: int)
    requires y < |rows| && x < 80
    ensures 80 * y + x < |Joined(rows)|
    ensures Joined(SetCell(rows, y, x, cell)) == Joined(rows)[80 * y + x := cell]
    decreases |rows|
  {
    var rows' := SetCell(rows, y, x, cell);
    if y > 0 {
      JoinedSet(rows[1..], y - 1, x, cell);
      assert rows'[1..] == SetCell(rows[1..], y - 1, x, cell);
    } else {
      assert rows'[1..] == rows[1..];
    }
  }

  /** Setting a cell of the current row, seen through the window. */
  lemma {:induction false} ViewSet(p: Page, col: nat, cell: int)
    requires PageOk(p) && col < 80
    ensures Top(p) <= p.row < Top(p) + 25
    ensures View(p.(rows := SetCell(p.rows, p.row, col, cell))) == View(p)[80 * (p.row - Top(p)) + col := cell]
  {
    var t := Top(p);
    JoinedSet(p.rows[t..], p.row - t, col, cell);
    assert SetCell(p.rows, p.row, col, cell)[t..] == SetCell(p.rows[t..], p.row - t, col, cell);
  }

  /** A new last row, seen through the window: everything moves up one line. */
  lemma {:induction false} ViewScroll(p: Page, color: byte)
    requires PageOk(p) && p.row + 1 == |p.rows|
    ensures PageOk(NextLine(p, color))
    ensures View(NextLine(p, color)) == View(p)[80..] + BlankRow(color)
  {
    var t := Top(p);
    var q := NextLine(p, color);
    assert q.rows[t + 1..] == p.rows[t + 1..] + [BlankRow(color)];
    JoinedAppend(p.rows[t + 1..], BlankRow(color));
    assert p.rows[t..][1..] == p.rows[t + 1..];
  }

  // ---------------------------------------------------------------- the screen

  class Screen {
    const vmem: array<int>
    var cursorX: int
    var cursorY: int
    ghost var page: Page

    /** Video memory is the last 25 rows of the page; the cursor is the page's position in them. */
    ghost predicate Valid()
      reads this, vmem
    {
      && vmem.Length == 2000
      && PageOk(page)
      && cursorX == page.col && 0 <= cursorX < 80
      && cursorY == page.row - Top(page) && 0 <= cursorY < 25
      && vmem[..] == View(page)
    }

    constructor (vmem: array<int>)
      requires vmem.Length == 2000
      ensures this.vmem == vmem
    {
      this.vmem := vmem;
      cursorX, cursorY := 0, 0;
    }

    /** `clear_screen`, from any state of the memory. */
    method ClearScreen()
      requires vmem.Length == 2000
      modifies this, vmem
      ensures Valid() && page == NewPage()
    {
      for i := 0 to 80 * 25
        invariant forall k :: 0 <= k < i ==> vmem[k] == Cell(7, 0x20)
      {
        vmem[i] := Cell(7, 0x20);
      }
      cursorX := 0;
      cursorY := 0;
      page := NewPage();
      BlankView();
    }

    /** `putc`. */
    method Putc(c: byte, color: byte)
      requires Valid()
      modifies this, vmem
      ensures Valid() && page == Put(old(page), c, color)
    {
      hide Joined, SetCell;
      ghost var before := page;
      if c == 8 {
        if cursorX > 0 {
          cursorX := cursorX - 1;
          ViewSet(page, cursorX, Cell(color, 0x20));
          vmem[cursorY * 80 + cursorX] := Cell(color, 0x20);
          page := Put(before, c, color);
        }
        return;
      }
      if c == 13 {
        cursorX := 0;
        page := Put(before, c, color);
        return;
      }
      if c == 10 {
        cursorX := 0;
        cursorY := cursorY + 1;
      } else if c >= 32 && c <= 126 {
        ViewSet(page, cursorX, Cell(color, c));
        vmem[cursorY * 80 + cursorX] := Cell(color, c);
        cursorX := cursorX + 1;
        page := page.(rows := SetCell(page.rows, page.row, page.col, Cell(color, c)));
      } else {
        return;
      }
      if cursorX >= 80 {
        cursorX := 0;
        cursorY := cursorY + 1;
      }
      if cursorY >= 25 {
        ViewScroll(page, color);
        Scroll(color);
        cursorY := 24;
      }
      page := Put(before, c, color);
    }

    /** The scroll of `putc`: every line moves up, the last becomes blank. */
    method Scroll(color: byte)
      requires vmem.Length == 2000
      modifies vmem
      ensures vmem[..] == old(vmem[80..]) + BlankRow(color)
    {
      ghost var before := vmem[..];
      for y := 1 to 25
        invariant forall k :: 0 <= k < 80 * (y - 1) ==> vmem[k] == before[k + 80]
        invariant forall k :: 80 * (y - 1) <= k < 2000 ==> vmem[k] == before[k]
      {
        for x := 0 to 80
          invariant forall k :: 0 <= k < 80 * (y - 1) + x ==> vmem[k] == before[k + 80]
          invariant forall k :: 80 * (y - 1) + x <= k < 2000 ==> vmem[k] == before[k]
        {
          vmem[(y - 1) * 80 + x] := vmem[y * 80 + x];
        }
      }
      for x := 0 to 80
        invariant forall k :: 0 <= k < 1920 ==> vmem[k] == before[k + 80]
        invariant forall k :: 1920 <= k < 1920 + x ==> vmem[k] == Cell(color, 0x20)
      {
        vmem[24 * 80 + x] := Cell(color, 0x20);
      }
      assert vmem[..] == before[80..] + BlankRow(color);
    }

    /** `puts`: the page receives the characters in order, all in colour 7. */
    method Puts(s: seq<byte>)
      requires Valid()
      modifies this, vmem
      ensures Valid() && page == PutAll(old(page), s, 7)
    {
      ghost var before := page;
      for i := 0 to |s|
        invariant Valid() && page == PutAll(before, s[..i], 7)
      {
        Putc(s[i], 7);
        assert s[..i + 1][..i] == s[..i];
      }
      assert s[..|s|] == s;
    }
  }

  lemma {:induction false} BlankRows(n: nat, k: nat)
    requires k < 80 * n
    ensures Joined(seq(n, i => BlankRow(7)))[k] == Cell(7, 0x20)
  {
    var rows := seq(n, i => BlankRow(7));
    if k >= 80 {
      BlankRows(n - 1, k - 80);
      assert rows[1..] == seq(n - 1, i => BlankRow(7));
    }
  }

  lemma {:induction false} BlankView()
    ensures forall k :: 0 <= k < 2000 ==> View(NewPage())[k] == Cell(7, 0x20)
  {
    forall k | 0 <= k < 2000
      ensures View(NewPage())[k] == Cell(7, 0x20)
    {
      BlankRows(25, k);
      assert NewPage().rows[0..] == seq(25, i => BlankRow(7));
    }
  }
}
