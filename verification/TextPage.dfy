/**
 What printing means: an unbounded page of 80-column rows that only grows at the bottom. The
 screen shows the last 25 rows.
 */
module TextPage {
  const BLANK: nat := 0xF20
  const BACKSPACE: nat := 8
  const TAB: nat := 9

  type Row = r: seq<nat> | |r| == 80 witness seq(80, _ => 0)

  /** White on black: attribute 15 in the high byte. */
  function Cell(c: nat): nat {
    c + 256 * 15
  }

  function BlankRow(): Row {
    seq(80, _ => BLANK)
  }

  /** The cursor is at column `x` of row `y`. */
  datatype Page = Page(rows: seq<Row>, x: nat, y: nat)

  predicate Valid(p: Page) {
    |p.rows| >= 25 && p.x < 80 && Top(p) <= p.y < |p.rows|
  }

  /** The first row on the screen. */
  function Top(p: Page): int {
    |p.rows| - 25
  }

  function Empty(): (p: Page)
    ensures Valid(p)
  {
    Page(seq(25, _ => BlankRow()), 0, 0)
  }

  function Put(p: Page, cell: nat): (q: Page)
    requires Valid(p)
    ensures Valid(q) && |q.rows| == |p.rows| && q.x == p.x && q.y == p.y
  {
    p.(rows := p.rows[p.y := p.rows[p.y][p.x := cell]])
  }

  /** One step back, to the end of the row above at the left edge. */
  function Back(p: Page): (q: Page)
    requires Valid(p) && (p.x > 0 || p.y > Top(p))
    ensures Valid(q)
  {
    if p.x > 0 then p.(x := p.x - 1) else p.(x := 79, y := p.y - 1)
  }

  /** The cursor may be one past the right edge, or one past the last row. */
  predicate Unsettled(p: Page) {
    |p.rows| >= 25 && p.x <= 80 && Top(p) <= p.y <= |p.rows| && (p.y == |p.rows| ==> p.x < 80)
  }

  /** Past the right edge the cursor goes to the next row; past the last row the page grows. */
  function Settle(p: Page): (q: Page)
    requires Unsettled(p)
    ensures Valid(q)
  {
    var wrapped := if p.x >= 80 then p.(x := 0, y := p.y + 1) else p;
    if wrapped.y == |wrapped.rows| then wrapped.(rows := wrapped.rows + [BlankRow()]) else wrapped
  }

  function Print(p: Page, c: nat): (q: Page)
    requires Valid(p)
    ensures Valid(q)
  {
    if c == BACKSPACE && (p.x > 0 || p.y > Top(p)) then Put(Back(p), BLANK)
    else if c == TAB then Settle(p.(x := p.x / 8 * 8 + 8))
    else if c == 13 then p.(x := 0)
    else if c == 10 then Settle(p.(x := 0, y := p.y + 1))
    else if c >= 0x20 then Settle(Put(p, Cell(c)).(x := p.x + 1))
    else p
  }

  function PrintAll(p: Page, text: seq<nat>): (q: Page)
    requires Valid(p)
    ensures Valid(q)
    decreases |text|
  {
    if text == [] then p else PrintAll(Print(p, text[0]), text[1..])
  }

  /** A page as one long line of cells. */
  function CellAt(rows: seq<Row>, k: nat): nat
    requires k < 80 * |rows|
  {
    rows[k / 80][k % 80]
  }

  function Position(p: Page): nat {
    80 * p.y + p.x
  }

  // ---- what a reader of the page can rely on

  /** Storing a cell changes that cell and no other. */
  lemma PutCell(p: Page, cell: nat, k: nat)
    requires Valid(p) && k < 80 * |p.rows|
    ensures CellAt(Put(p, cell).rows, k) == if k == Position(p) then cell else CellAt(p.rows, k)
  {
    assert Position(p) / 80 == p.y && Position(p) % 80 == p.x;
    if k != Position(p) {
      assert k / 80 != p.y || k % 80 != p.x;
    }
  }

  /** Settling keeps every cell; a row it adds is blank. */
  lemma SettleCell(p: Page, k: nat)
    requires Unsettled(p) && k < 80 * |Settle(p).rows|
    ensures CellAt(Settle(p).rows, k) == if k < 80 * |p.rows| then CellAt(p.rows, k) else BLANK
  {
    assert k >= 80 * |p.rows| ==> k / 80 == |p.rows|;
  }

  lemma PrintableStep(p: Page, c: nat)
    requires Valid(p) && c >= 0x20
    ensures var q := Print(p, c);
            && Position(q) == Position(p) + 1 && |q.rows| >= |p.rows|
            && CellAt(q.rows, Position(p)) == Cell(c)
            && (forall k :: 0 <= k < 80 * |p.rows| && k != Position(p) ==> CellAt(q.rows, k) == CellAt(p.rows, k))
  {
    var put := Put(p, Cell(c)).(x := p.x + 1);
    forall k | 0 <= k < 80 * |p.rows|
      ensures CellAt(Print(p, c).rows, k) == if k == Position(p) then Cell(c) else CellAt(p.rows, k)
    {
      PutCell(p, Cell(c), k);
      SettleCell(put, k);
    }
  }

  /**
   Printable text lands cell after cell from the cursor on, across row ends, and everything
   before it stays; the cursor ends up behind it.
   */
  lemma {:induction false} PrintableText(p: Page, text: seq<nat>)
    requires Valid(p) && forall i :: 0 <= i < |text| ==> text[i] >= 0x20
    ensures var q := PrintAll(p, text);
            && Position(q) == Position(p) + |text| && |q.rows| >= |p.rows|
            && (forall i :: 0 <= i < |text| ==> CellAt(q.rows, Position(p) + i) == Cell(text[i]))
            && (forall k :: 0 <= k < Position(p) ==> CellAt(q.rows, k) == CellAt(p.rows, k))
    decreases |text|
  {
    hide Print, CellAt, Cell;
    if text != [] {
      PrintableStep(p, text[0]);
      var step := Print(p, text[0]);
      PrintableText(step, text[1..]);
      var q := PrintAll(p, text);
      forall i | 0 <= i < |text|
        ensures CellAt(q.rows, Position(p) + i) == Cell(text[i])
      {
        if i > 0 {
          assert text[1..][i - 1] == text[i];
          assert CellAt(q.rows, Position(step) + (i - 1)) == Cell(text[1..][i - 1]);
        }
      }
    }
  }

  lemma PrintKeepsRowsAbove(p: Page, c: nat)
    requires Valid(p) && c != BACKSPACE
    ensures var q := Print(p, c); q.y >= p.y && p.rows[..p.y] <= q.rows
  {
  }

  /** Without backspaces the rows above the cursor never change again. */
  lemma {:induction false} RowsAboveStay(p: Page, text: seq<nat>)
    requires Valid(p) && BACKSPACE !in text
    ensures var q := PrintAll(p, text); q.y >= p.y && p.rows[..p.y] <= q.rows
    decreases |text|
  {
    if text != [] {
      PrintKeepsRowsAbove(p, text[0]);
      var step := Print(p, text[0]);
      RowsAboveStay(step, text[1..]);
      assert p.rows[..p.y] <= step.rows[..step.y];
    }
  }

  // ---- every character

  /** The character and the attribute byte of a cell. */
  predicate Holds(cell: nat, c: nat) {
    cell % 256 == c && cell / 256 == 0x0F
  }

  /** No cell of `p` is another in `q`; rows `q` has more are blank, white on black. */
  ghost predicate SameCells(p: Page, q: Page)
    requires |p.rows| <= |q.rows|
  {
    && (forall k :: 0 <= k < 80 * |p.rows| ==> CellAt(q.rows, k) == CellAt(p.rows, k))
    && (forall k :: 80 * |p.rows| <= k < 80 * |q.rows| ==> Holds(CellAt(q.rows, k), 32))
  }

  /** The cleared screen: 25 blank rows, the cursor at the top left. */
  lemma EmptyIsBlank()
    ensures |Empty().rows| == 25 && Position(Empty()) == 0 && AllBlank(Empty())
  {
    forall k | 0 <= k < 80 * |Empty().rows|
      ensures Holds(CellAt(Empty().rows, k), 32)
    {
      BlankCell(k / 80, k % 80);
    }
  }

  /** Every cell is a blank, white on black. */
  ghost predicate AllBlank(p: Page) {
    forall k :: 0 <= k < 80 * |p.rows| ==> Holds(CellAt(p.rows, k), 32)
  }

  lemma BlankCell(i: nat, j: nat)
    requires i < 25 && j < 80
    ensures Empty().rows[i] == BlankRow() && BlankRow()[j] == BLANK && Holds(BLANK, 32)
  {
  }

  lemma SettleKeepsCells(p: Page)
    requires Unsettled(p)
    ensures |p.rows| <= |Settle(p).rows| && SameCells(p, Settle(p))
  {
    forall k | 0 <= k < 80 * |Settle(p).rows|
      ensures CellAt(Settle(p).rows, k) == if k < 80 * |p.rows| then CellAt(p.rows, k) else BLANK
    {
      SettleCell(p, k);
    }
  }

  /** A newline goes to the first column of the next row. */
  lemma NewlineStep(p: Page)
    requires Valid(p)
    ensures var q := Print(p, 10);
            && q.x == 0 && q.y == p.y + 1
            && |q.rows| == (if p.y + 1 == |p.rows| then |p.rows| + 1 else |p.rows|) && SameCells(p, q)
  {
    SettleKeepsCells(p.(x := 0, y := p.y + 1));
  }

  /** A carriage return goes to the first column of the same row. */
  lemma ReturnStep(p: Page)
    requires Valid(p)
    ensures var q := Print(p, 13); q.x == 0 && q.y == p.y && q.rows == p.rows
  {
  }

  /** A tab goes to the next position divisible by 8, past the right edge to the start of the next row. */
  lemma TabStep(p: Page)
    requires Valid(p)
    ensures var q := Print(p, 9);
            && Position(q) % 8 == 0 && Position(p) < Position(q) <= Position(p) + 8
            && |q.rows| == (if p.x >= 72 && p.y + 1 == |p.rows| then |p.rows| + 1 else |p.rows|) && SameCells(p, q)
  {
    var moved := p.(x := p.x / 8 * 8 + 8);
    SettleKeepsCells(moved);
    NextStop(p.x, p.y);
  }

  lemma NextStop(x: nat, y: nat)
    requires x < 80
    ensures var stop := x / 8 * 8 + 8;
            stop % 8 == 0 && x < stop <= x + 8 && (80 * y + stop) % 8 == 0 && (stop >= 80 <==> x >= 72) && stop <= 80
  {
  }

  /**
   A backspace goes one position back and puts a blank there; at the top left of the screen it
   does nothing.
   */
  lemma BackspaceStep(p: Page)
    requires Valid(p)
    ensures var q := Print(p, 8);
            if Position(p) == 80 * Top(p) then q == p
            else && Position(q) == Position(p) - 1 && |q.rows| == |p.rows|
                 && Holds(CellAt(q.rows, Position(q)), 32)
                 && forall k :: 0 <= k < 80 * |p.rows| && k != Position(q) ==> CellAt(q.rows, k) == CellAt(p.rows, k)
  {
    if Position(p) != 80 * Top(p) {
      var back := Back(p);
      forall k | 0 <= k < 80 * |p.rows|
        ensures CellAt(Put(back, BLANK).rows, k) == if k == Position(back) then BLANK else CellAt(p.rows, k)
      {
        PutCell(back, BLANK, k);
      }
    }
  }

  /** A printable character is stored white on black at the cursor, which moves one position on. */
  lemma CharacterStep(p: Page, c: nat)
    requires Valid(p) && 0x20 <= c < 256
    ensures var q := Print(p, c);
            && Position(q) == Position(p) + 1 && |q.rows| >= |p.rows|
            && Holds(CellAt(q.rows, Position(p)), c)
            && (forall k :: 0 <= k < 80 * |p.rows| && k != Position(p) ==> CellAt(q.rows, k) == CellAt(p.rows, k))
  {
    hide CellAt, Print;
    PrintableStep(p, c);
  }

  /** Every other control character does nothing. */
  lemma ControlStep(p: Page, c: nat)
    requires Valid(p) && c < 0x20 && c !in {8, 9, 10, 13}
    ensures Print(p, c) == p
  {
  }

  // ---- lines

  /** Lines of printable characters, each shorter than a row. */
  predicate AreLines(lines: seq<seq<nat>>) {
    forall i :: 0 <= i < |lines| ==> |lines[i]| < 80 && forall j :: 0 <= j < |lines[i]| ==> 0x20 <= lines[i][j] < 256
  }

  /** The text of the lines, each with a newline. */
  function LinesText(lines: seq<seq<nat>>): seq<nat> {
    if lines == [] then [] else lines[0] + [10] + LinesText(lines[1..])
  }

  lemma {:induction false} PrintJoin(p: Page, s: seq<nat>, t: seq<nat>)
    requires Valid(p)
    ensures PrintAll(p, s + t) == PrintAll(PrintAll(p, s), t)
    decreases |s|
  {
    hide Print;
    if s == [] {
      assert s + t == t;
    } else {
      assert (s + t)[1..] == s[1..] + t;
      PrintJoin(Print(p, s[0]), s[1..], t);
    }
  }

  lemma PrintOne(p: Page, c: nat)
    requires Valid(p)
    ensures PrintAll(p, [c]) == Print(p, c)
  {
    assert [c][1..] == [];
  }

  /** One line with its newline, from the first column. */
  lemma PrintLine(p: Page, line: seq<nat>)
    requires Valid(p) && p.x == 0 && |line| < 80 && forall j :: 0 <= j < |line| ==> 0x20 <= line[j] < 256
    ensures var q := PrintAll(p, line + [10]);
            && q.x == 0 && q.y == p.y + 1 && |p.rows| <= |q.rows|
            && (forall j :: 0 <= j < |line| ==> Holds(CellAt(q.rows, 80 * p.y + j), line[j]))
            && (forall k :: 0 <= k < 80 * p.y ==> CellAt(q.rows, k) == CellAt(p.rows, k))
  {
    hide Print, CellAt;
    PrintJoin(p, line, [10]);
    PrintableText(p, line);
    var printed := PrintAll(p, line);
    SamePlace(p, printed, |line|);
    PrintOne(printed, 10);
    NewlineStep(printed);
    forall j | 0 <= j < |line|
      ensures Holds(CellAt(PrintAll(p, line + [10]).rows, 80 * p.y + j), line[j])
    {
      assert CellAt(printed.rows, Position(p) + j) == Cell(line[j]);
    }
  }

  lemma SamePlace(p: Page, q: Page, n: nat)
    requires Valid(p) && Valid(q) && p.x == 0 && n < 80 && Position(q) == Position(p) + n
    ensures q.y == p.y && q.x == n
  {
  }

  /**
   Lines shorter than a row, each with a newline, printed from a first column: line `i` stands in
   the `i`-th row from there, from its first column on, and the cursor is in the first column of
   the row after the last.
   */
  lemma {:induction false} PrintLines(p: Page, lines: seq<seq<nat>>)
    requires Valid(p) && p.x == 0 && AreLines(lines)
    ensures var q := PrintAll(p, LinesText(lines));
            && q.x == 0 && q.y == p.y + |lines| && |p.rows| <= |q.rows|
            && (forall i, j :: 0 <= i < |lines| && 0 <= j < |lines[i]| ==> Holds(CellAt(q.rows, 80 * (p.y + i) + j), lines[i][j]))
            && (forall k :: 0 <= k < 80 * p.y ==> CellAt(q.rows, k) == CellAt(p.rows, k))
    decreases |lines|
  {
    hide Print, CellAt, Holds;
    if lines != [] {
      var line, rest := lines[0], lines[1..];
      PrintLine(p, line);
      PrintJoin(p, line + [10], LinesText(rest));
      var mid := PrintAll(p, line + [10]);
      PrintLines(mid, rest);
      var q := PrintAll(mid, LinesText(rest));
      forall i, j | 0 <= i < |lines| && 0 <= j < |lines[i]|
        ensures Holds(CellAt(q.rows, 80 * (p.y + i) + j), lines[i][j])
      {
        if i > 0 {
          assert rest[i - 1] == lines[i];
          assert Holds(CellAt(q.rows, 80 * (mid.y + (i - 1)) + j), rest[i - 1][j]);
        }
      }
    }
  }
}
