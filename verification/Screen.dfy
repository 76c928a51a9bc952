/**
 The text screen as the kernel runs it: a framebuffer of 25 rows of 80 cells and a cursor. It
 always shows the last 25 rows of the page printed so far.
 */
module Screens {
  import opened TextPage

  class Screen {
    const framebuffer: array<nat>
    var cursorX: nat
    var cursorY: nat

    /** The framebuffer holds the last 25 rows of a page whose cursor may still be past their edge. */
    ghost predicate ShowsUnsettled(p: Page)
      reads this, framebuffer
    {
      && framebuffer.Length == 2000
      && Unsettled(p)
      && cursorX == p.x && cursorY == p.y - Top(p)
      && forall k :: 0 <= k < 2000 ==> framebuffer[k] == CellAt(p.rows, 80 * Top(p) + k)
    }

    /** The framebuffer holds the last 25 rows of `p` and the cursor is where `p` has it. */
    ghost predicate Shows(p: Page)
      reads this, framebuffer
    {
      Valid(p) && ShowsUnsettled(p)
    }

    constructor (framebuffer: array<nat>)
      requires framebuffer.Length == 2000
      ensures this.framebuffer == framebuffer && cursorX == 0 && cursorY == 0
    {
      this.framebuffer := framebuffer;
      cursorX := 0;
      cursorY := 0;
    }

    /** clear_screen */
    method ClearScreen()
      requires framebuffer.Length == 2000
      modifies this, framebuffer
      ensures Shows(Empty())
    {
      for i := 0 to 2000
        invariant forall k :: 0 <= k < i ==> framebuffer[k] == BLANK
      {
        framebuffer[i] := BLANK;
      }
      cursorX := 0;
      cursorY := 0;
    }

    /** scroll_screen */
    method ScrollScreen()
      requires framebuffer.Length == 2000
      modifies this`cursorY, framebuffer
      ensures old(cursorY) < 25 ==> cursorY == old(cursorY) && framebuffer[..] == old(framebuffer[..])
      ensures old(cursorY) >= 25 ==> cursorY == 24
      ensures old(cursorY) >= 25 ==> forall k :: 0 <= k < 1920 ==> framebuffer[k] == old(framebuffer[k + 80])
      ensures old(cursorY) >= 25 ==> forall k :: 1920 <= k < 2000 ==> framebuffer[k] == BLANK
    {
      if cursorY < 25 {
        return;
      }
      for i := 0 to 80 * 24
        invariant cursorY == old(cursorY)
        invariant forall k :: 0 <= k < i ==> framebuffer[k] == old(framebuffer[k + 80])
        invariant forall k :: i <= k < 2000 ==> framebuffer[k] == old(framebuffer[k])
      {
        framebuffer[i] := framebuffer[i + 80];
      }
      for i := 24 * 80 to 80 * 25
        invariant cursorY == old(cursorY)
        invariant forall k :: 0 <= k < 1920 ==> framebuffer[k] == old(framebuffer[k + 80])
        invariant forall k :: 1920 <= k < i ==> framebuffer[k] == BLANK
      {
        framebuffer[i] := BLANK;
      }
      cursorY := 24;
    }

    /** A store at the cursor. */
    method Store(cell: nat, ghost p: Page)
      requires Shows(p)
      modifies framebuffer
      ensures Shows(Put(p, cell))
    {
      framebuffer[cursorY * 80 + cursorX] := cell;
      forall k | 0 <= k < 2000
        ensures framebuffer[k] == CellAt(Put(p, cell).rows, 80 * Top(p) + k)
      {
        PutCell(p, cell, 80 * Top(p) + k);
      }
    }

    /** The end of print_char: wrap at the right edge, then scroll. */
    method Finish(ghost p: Page)
      requires ShowsUnsettled(p)
      modifies this, framebuffer
      ensures Shows(Settle(p))
    {
      if cursorX >= 80 {
        cursorX := 0;
        cursorY := cursorY + 1;
      }
      ScrollScreen();
      ghost var q := Settle(p);
      forall k | 0 <= k < 2000
        ensures framebuffer[k] == CellAt(q.rows, 80 * Top(q) + k)
      {
        SettleCell(p, 80 * Top(q) + k);
      }
    }

    /** print_char */
    method PrintChar(c: nat, ghost p: Page)
      requires Shows(p) && c < 256
      modifies this, framebuffer
      ensures Shows(Print(p, c))
    {
      hide CellAt;
      ghost var page := p;
      if c == BACKSPACE && (cursorX != 0 || cursorY != 0) {
        if cursorX != 0 {
          cursorX := cursorX - 1;
        } else if cursorY != 0 {
          cursorY := cursorY - 1;
          cursorX := 79;
        }
        Store(BLANK, Back(p));
        page := Put(Back(p), BLANK);
      } else if c == TAB {
        cursorX := cursorX / 8 * 8 + 8;
        page := p.(x := p.x / 8 * 8 + 8);
      } else if c == 13 {
        cursorX := 0;
        page := p.(x := 0);
      } else if c == 10 {
        cursorX := 0;
        cursorY := cursorY + 1;
        page := p.(x := 0, y := p.y + 1);
      } else if c >= 0x20 {
        Store(Cell(c), p);
        cursorX := cursorX + 1;
        page := Put(p, Cell(c)).(x := p.x + 1);
      }
      Finish(page);
    }

    /** print_string */
    method PrintString(text: seq<nat>, ghost p: Page)
      requires Shows(p) && forall i :: 0 <= i < |text| ==> text[i] < 256
      modifies this, framebuffer
      ensures Shows(PrintAll(p, text))
    {
      ghost var page := p;
      for i := 0 to |text|
        invariant Shows(page) && PrintAll(page, text[i..]) == PrintAll(p, text)
      {
        assert text[i..][1..] == text[i + 1..];
        PrintChar(text[i], page);
        page := Print(page, text[i]);
      }
    }
  }
}
