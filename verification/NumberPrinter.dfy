/**
 The number printers as the kernel runs them: digits come out lowest first into a buffer, which
 is then reversed in place or copied out backwards. What appears is the numeral.
 */
module NumberPrinters {
  import opened Numerals
  import opened TextPage
  import opened Screens

  function Reversed(s: seq<nat>): (r: seq<nat>)
    ensures |r| == |s| && forall k :: 0 <= k < |s| ==> r[k] == s[|s| - 1 - k]
  {
    seq(|s|, k requires 0 <= k < |s| => s[|s| - 1 - k])
  }

  /** A C string: everything before the first NUL. */
  function UntilNul(s: seq<nat>): seq<nat> {
    if s == [] || s[0] == 0 then [] else [s[0]] + UntilNul(s[1..])
  }

  lemma {:induction false} UntilNulIs(text: seq<nat>, s: seq<nat>)
    requires |text| < |s| && s[..|text|] == text && s[|text|] == 0 && 0 !in text
    ensures UntilNul(s) == text
    decreases |text|
  {
    if text != [] {
      assert s[0] == text[0] && s[1..][..|text| - 1] == text[1..];
      UntilNulIs(text[1..], s[1..]);
    }
  }

  /** reverse_string: the characters up to index `lastIdx` change places, the rest stay. */
  method ReverseString(lastIdx: nat, text: array<nat>)
    requires lastIdx < 256 && lastIdx < text.Length
    modifies text
    ensures text[..lastIdx + 1] == Reversed(old(text[..lastIdx + 1]))
    ensures text[lastIdx + 1..] == old(text[lastIdx + 1..])
  {
    var i, j := lastIdx, 0;
    while j < i
      invariant i + j == lastIdx && j <= i + 1
      invariant forall k :: 0 <= k < j || i < k <= lastIdx ==> text[k] == old(text[lastIdx - k])
      invariant forall k :: j <= k <= i ==> text[k] == old(text[k])
      invariant text[lastIdx + 1..] == old(text[lastIdx + 1..])
    {
      var tmp := text[j];
      text[j] := text[i];
      text[i] := tmp;
      j := j + 1;
      i := i - 1;
    }
  }

  /** The digits still to come, before those already in the buffer. */
  function Rest(n: nat, base: nat): seq<nat>
    requires IsBase(base)
  {
    if n == 0 then [] else Numeral(n, base)
  }

  lemma NumeralUnfolds(n: nat, base: nat)
    requires IsBase(base)
    ensures Numeral(n, base) == Rest(n / base, base) + [Digit(n % base)]
    ensures n / base < n || n == 0
  {
    hide Digit;
    LastDigit(n, base);
  }

  lemma ReversedConcat(a: seq<nat>, b: seq<nat>)
    ensures Reversed(a + b) == Reversed(b) + Reversed(a)
  {
  }

  /** One round of a digit loop. */
  lemma DigitStep(n: nat, base: nat, done: seq<nat>)
    requires IsBase(base)
    ensures n / base < n || n == 0
    ensures Rest(n / base, base) + Reversed(done + [Digit(n % base)]) == Numeral(n, base) + Reversed(done)
  {
    hide Digit, Numeral;
    NumeralUnfolds(n, base);
    ReversedConcat(done, [Digit(n % base)]);
    assert Reversed([Digit(n % base)]) == [Digit(n % base)];
  }

  /** The digit loop of print_hex and print_dec: digits of `num`, lowest first, and how many. */
  method DigitsInto(num: nat, base: nat, buffer: array<nat>) returns (count: nat)
    requires IsBase(base) && 0 < num && |Numeral(num, base)| <= buffer.Length
    modifies buffer
    ensures count == |Numeral(num, base)| && Reversed(buffer[..count]) == Numeral(num, base)
  {
    hide Numeral, Digit;
    var n: nat := num;
    count := 0;
    assert Rest(n, base) + Reversed(buffer[..count]) == Numeral(num, base);
    while n > 0
      invariant count <= buffer.Length
      invariant Rest(n, base) + Reversed(buffer[..count]) == Numeral(num, base)
    {
      DigitStep(n, base, buffer[..count]);
      assert |Rest(n, base)| > 0;
      buffer[count] := Digit(n % base);
      assert buffer[..count + 1] == buffer[..count] + [Digit(n % base)];
      n := n / base;
      count := count + 1;
    }
  }

  /** Reversing the buffer in place leaves the text, and a NUL after it. */
  lemma BufferIsText(before: seq<nat>, after: seq<nat>, text: seq<nat>)
    requires |before| == |after| && |text| < |before|
    requires after[..|text|] == Reversed(before[..|text|]) && after[|text|..] == before[|text|..]
    requires Reversed(before[..|text|]) == text && before[|text|] == 0 && IsPlain(text)
    ensures UntilNul(after) == text
  {
    assert after[|text|] == after[|text|..][0];
    UntilNulIs(text, after);
  }

  /** print_hex */
  method PrintHex(screen: Screen, hex: nat, ghost p: Page)
    requires screen.Shows(p) && hex < 0x1_0000_0000
    modifies screen, screen.framebuffer
    ensures screen.Shows(PrintAll(p, HexText(hex)))
  {
    hide Numeral, PrintAll, UntilNul, Reversed;
    if hex == 0 {
      ZeroTexts();
      screen.PrintString([ZERO, LETTER_X, ZERO], p);
      return;
    }
    WordFits(hex);
    var buffer := new nat[80];
    var i := DigitsInto(hex, 16, buffer);
    buffer[i], buffer[i + 1], buffer[i + 2] := LETTER_X, ZERO, 0;
    HexBuffer(hex, buffer[..i], buffer[..i + 2]);
    ghost var before := buffer[..];
    ReverseString(i + 1, buffer);
    BufferIsText(before, buffer[..], HexText(hex));
    screen.PrintString(UntilNul(buffer[..]), p);
  }

  /** Printable characters, each in a byte. */
  predicate IsPlain(text: seq<nat>) {
    forall k :: 0 <= k < |text| ==> 0x20 <= text[k] < 256
  }

  lemma NumeralIsPlain(n: nat, base: nat)
    requires IsBase(base)
    ensures IsPlain(Numeral(n, base))
  {
    hide Numeral;
    var text := Numeral(n, base);
    forall k | 0 <= k < |text|
      ensures 0x20 <= text[k] < 256
    {
      assert text[k] in text;
    }
  }

  lemma HexBuffer(hex: nat, digits: seq<nat>, full: seq<nat>)
    requires Reversed(digits) == Numeral(hex, 16) && full == digits + [LETTER_X, ZERO]
    ensures Reversed(full) == HexText(hex) && IsPlain(HexText(hex))
  {
    hide Numeral;
    ReversedConcat(digits, [LETTER_X, ZERO]);
    assert Reversed([LETTER_X, ZERO]) == [ZERO, LETTER_X];
    NumeralIsPlain(hex, 16);
  }

  lemma ZeroTexts()
    ensures HexText(0) == [ZERO, LETTER_X, ZERO] && DecText(0) == [ZERO]
  {
  }

  lemma DecBuffer(num: int, digits: seq<nat>, full: seq<nat>)
    requires Reversed(digits) == Numeral(if num < 0 then -num else num, 10)
    requires full == digits + (if num < 0 then [MINUS] else [])
    ensures Reversed(full) == DecText(num) && IsPlain(DecText(num))
  {
    hide Numeral;
    NumeralIsPlain(if num < 0 then -num else num, 10);
    if num < 0 {
      ReversedConcat(digits, [MINUS]);
      assert Reversed([MINUS]) == [MINUS];
    } else {
      assert full == digits;
    }
  }

  /** Negation of a 32-bit integer in two's complement: the least one stays itself. */
  function Negated(num: int): int {
    (0x8000_0000 - num) % 0x1_0000_0000 - 0x8000_0000
  }

  /** The text print_dec prints: for the least 32-bit integer the digits are missing. */
  function PrintedDec(num: int): seq<nat> {
    if num == -0x8000_0000 then [MINUS] else DecText(num)
  }

  /** What print_dec prints reads back for every 32-bit integer but the least. */
  lemma PrintedDecReadsBack(num: int)
    requires -0x8000_0000 <= num < 0x8000_0000
    ensures ParseDec(PrintedDec(num)) == Number(num) <==> num != -0x8000_0000
  {
    TextReadsBack(num, 0);
    if num == -0x8000_0000 {
      assert [MINUS][1..] == [];
      assert ParseDigits([], 10) == Number(0);
    }
  }

  lemma MinusAlone(full: seq<nat>)
    requires full == [MINUS]
    ensures Reversed(full) == [MINUS] && IsPlain([MINUS])
  {
  }

  /** print_dec, for every 32-bit integer. */
  method PrintDec(screen: Screen, num: int, ghost p: Page)
    requires screen.Shows(p) && -0x8000_0000 <= num < 0x8000_0000
    modifies screen, screen.framebuffer
    ensures screen.Shows(PrintAll(p, PrintedDec(num)))
  {
    hide Numeral, UntilNul, Reversed, DecText, PrintAll;
    if num == 0 {
      ZeroTexts();
      PrintOne(p, ZERO);
      screen.PrintChar(ZERO, p);
      return;
    }
    var n := num;
    if num < 0 {
      n := Negated(num);
    }
    var buffer := new nat[80];
    var i := 0;
    if n > 0 {
      WordFits(n);
      i := DigitsInto(n, 10, buffer);
    }
    ghost var digits := buffer[..i];
    if num < 0 {
      buffer[i] := MINUS;
      i := i + 1;
    }
    buffer[i] := 0;
    if n > 0 {
      DecBuffer(num, digits, buffer[..i]);
    } else {
      MinusAlone(buffer[..i]);
    }
    ghost var before := buffer[..];
    ReverseString(i - 1, buffer);
    BufferIsText(before, buffer[..], PrintedDec(num));
    screen.PrintString(UntilNul(buffer[..]), p);
  }

  function CharOf(cell: nat): nat {
    cell % 256
  }

  lemma CharOfCell(c: nat)
    requires c < 256
    ensures CharOf(Cell(c)) == c
  {
  }

  /** The characters between two cursor positions. */
  function Shown(rows: seq<Row>, from: nat, to: nat): seq<nat>
    requires from <= to <= 80 * |rows|
  {
    seq<nat>(to - from, i requires 0 <= i < to - from => CharOf(CellAt(rows, from + i)))
  }

  lemma TextIsShown(p: Page, text: seq<nat>)
    requires Valid(p) && forall i :: 0 <= i < |text| ==> 0x20 <= text[i] < 256
    ensures var q := PrintAll(p, text); Position(p) <= Position(q) && Shown(q.rows, Position(p), Position(q)) == text
  {
    hide CellAt, PrintAll, CharOf, Cell, Valid, Position;
    PrintableText(p, text);
    var q := PrintAll(p, text);
    CursorInPage(q);
    forall i | 0 <= i < |text|
      ensures CharOf(CellAt(q.rows, Position(p) + i)) == text[i]
    {
      CharOfCell(text[i]);
    }
  }

  lemma CursorInPage(p: Page)
    requires Valid(p)
    ensures Position(p) < 80 * |p.rows|
  {
  }

  /** A number printed on the page, wherever the cursor was, can be read off the page again. */
  lemma PrintedReadsBack(p: Page, k: int, n: nat)
    requires Valid(p)
    ensures var q := PrintAll(p, DecText(k)); Position(p) <= Position(q) && ParseDec(Shown(q.rows, Position(p), Position(q))) == Number(k)
    ensures var q := PrintAll(p, HexText(n)); Position(p) <= Position(q) && ParseHex(Shown(q.rows, Position(p), Position(q))) == Number(n)
  {
    hide PrintAll, Shown, Numeral, ParseDec, ParseHex;
    NumeralIsPlain(if k < 0 then -k else k, 10);
    NumeralIsPlain(n, 16);
    TextIsShown(p, DecText(k));
    TextIsShown(p, HexText(n));
    TextReadsBack(k, n);
  }

  /** The output buffer of printf: the characters written so far are the first `len`. */
  class WriteBuffer {
    var buffer: array<nat>
    var len: nat

    ghost predicate Valid()
      reads this
    {
      len <= buffer.Length
    }

    ghost function Written(): seq<nat>
      requires Valid()
      reads this, buffer
    {
      buffer[..len]
    }

    constructor (buffer: array<nat>)
      ensures Valid() && this.buffer == buffer && Written() == []
    {
      this.buffer := buffer;
      len := 0;
    }

    /** Copying digits out of a local buffer, last stored first. */
    method WriteBackwards(local: array<nat>, count: nat)
      requires Valid() && local != buffer && count <= local.Length && len + count <= buffer.Length
      modifies this`len, buffer
      ensures Valid() && Written() == old(Written()) + Reversed(local[..count])
    {
      var i: nat := count;
      ghost var copied := Reversed(local[..count]);
      while i > 0
        invariant i <= count && len == old(len) + count - i && Valid()
        invariant local[..count] == old(local[..count])
        invariant Written() == old(Written()) + copied[..count - i]
      {
        i := i - 1;
        buffer[len] := local[i];
        len := len + 1;
      }
    }

    /** The do-while loop of printf_int and printf_hex. */
    static method DigitsOnce(num: nat, base: nat, local: array<nat>) returns (count: nat)
      requires IsBase(base) && |Numeral(num, base)| <= local.Length
      modifies local
      ensures count == |Numeral(num, base)| && Reversed(local[..count]) == Numeral(num, base)
    {
      hide Numeral, Digit;
      var n: nat := num;
      DigitStep(n, base, []);
      local[0] := Digit(n % base);
      assert local[..1] == [] + [Digit(n % base)];
      n := n / base;
      count := 1;
      while n > 0
        invariant 1 <= count <= local.Length
        invariant Rest(n, base) + Reversed(local[..count]) == Numeral(num, base)
      {
        DigitStep(n, base, local[..count]);
        assert |Rest(n, base)| > 0;
        local[count] := Digit(n % base);
        assert local[..count + 1] == local[..count] + [Digit(n % base)];
        n := n / base;
        count := count + 1;
      }
    }

    /** printf_hex */
    method PrintfHex(num: nat)
      requires Valid() && num < 0x1_0000_0000 && len + |PaddedHex(num)| <= buffer.Length
      modifies this`len, buffer
      ensures Valid() && Written() == old(Written()) + PaddedHex(num)
    {
      hide Numeral, Reversed;
      WordFits(num);
      var local := new nat[16];
      var i := DigitsOnce(num, 16, local);
      if num < 0x10 {
        buffer[len] := ZERO;
        len := len + 1;
      }
      WriteBackwards(local, i);
    }

    /** printf_int */
    method PrintfInt(num: int)
      requires Valid() && -0x8000_0000 < num < 0x8000_0000 && len + |DecText(num)| <= buffer.Length
      modifies this`len, buffer
      ensures Valid() && Written() == old(Written()) + DecText(num)
    {
      hide Numeral, Reversed;
      var n := num;
      if num < 0 {
        n := -num;
      }
      WordFits(n);
      var local := new nat[16];
      var i := DigitsOnce(n, 10, local);
      ghost var digits := local[..i];
      if num < 0 {
        local[i] := MINUS;
        i := i + 1;
      }
      DecBuffer(num, digits, local[..i]);
      WriteBackwards(local, i);
    }
  }
}
