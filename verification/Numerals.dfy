/**
 Numbers as text, in character codes: the numeral of a number in a base, most significant digit
 first, and the parser that reads it back. Digits above nine are capital letters.
 */
module Numerals {
  const ZERO: nat := 48
  const MINUS: nat := 45
  const LETTER_X: nat := 120

  datatype Parsed = Number(value: int) | NotANumber

  predicate IsBase(base: nat) {
    base == 10 || base == 16
  }

  function Digit(d: nat): (c: nat)
    requires d < 16
    ensures ZERO <= c < 256 && DigitValue(c) == d
  {
    if d < 10 then ZERO + d else 55 + d
  }

  /** -1 for a character that is no digit. */
  function DigitValue(c: nat): int {
    if ZERO <= c < 58 then c - ZERO else if 65 <= c < 71 then c - 55 else -1
  }

  function Numeral(n: nat, base: nat): (text: seq<nat>)
    requires IsBase(base)
    ensures |text| > 0
    ensures forall c <- text :: ZERO <= c < 256
  {
    (if n < base then [] else Numeral(n / base, base)) + [Digit(n % base)]
  }

  /** The value of a numeral with one more digit. */
  function Append(value: int, d: int, base: nat): int {
    value * base + d
  }

  function ParseDigits(text: seq<nat>, base: nat): Parsed
    requires IsBase(base)
  {
    if text == [] then Number(0) else
    var front := ParseDigits(text[..|text| - 1], base);
    var d := DigitValue(text[|text| - 1]);
    if front.Number? && 0 <= d < base then Number(Append(front.value, d, base)) else NotANumber
  }

  /** Not empty, and no leading zero except in "0" itself. */
  predicate Canonical(text: seq<nat>) {
    |text| == 1 || (|text| > 1 && text[0] != ZERO)
  }

  lemma ParseAppends(text: seq<nat>, c: nat, base: nat)
    requires IsBase(base)
    ensures var front := ParseDigits(text, base);
            ParseDigits(text + [c], base)
            == if front.Number? && 0 <= DigitValue(c) < base then Number(Append(front.value, DigitValue(c), base)) else NotANumber
  {
    hide Append, DigitValue;
    assert (text + [c])[..|text|] == text;
  }

  lemma LastDigit(n: nat, base: nat)
    requires IsBase(base)
    ensures n % base < base && Append(n / base, n % base, base) == n
    ensures n >= base <==> n / base > 0
    ensures n < base ==> n / base == 0 && n % base == n
  {
    if base == 10 {
    } else {
    }
  }

  lemma AppendSplits(value: int, d: nat, base: nat)
    requires IsBase(base) && d < base && value >= 0
    ensures var n := Append(value, d, base); n >= 0 && n / base == value && n % base == d && (n < base <==> value == 0)
  {
    if base == 10 {
      assert (value * 10 + d) / 10 == value;
    } else {
      assert (value * 16 + d) / 16 == value;
    }
  }

  lemma {:induction false} NumeralParses(n: nat, base: nat)
    requires IsBase(base)
    ensures ParseDigits(Numeral(n, base), base) == Number(n) && Canonical(Numeral(n, base))
  {
    hide Append, Digit;
    LastDigit(n, base);
    var c := Digit(n % base);
    if n < base {
      ParseAppends([], c, base);
    } else {
      NumeralParses(n / base, base);
      NumeralStarts(n / base, base);
      ParseAppends(Numeral(n / base, base), c, base);
    }
  }

  lemma {:induction false} NumeralStarts(n: nat, base: nat)
    requires IsBase(base) && n > 0
    ensures Numeral(n, base)[0] != ZERO
  {
    if n >= base {
      NumeralStarts(n / base, base);
    }
  }

  lemma {:induction false} LeadingDigitCounts(text: seq<nat>, base: nat)
    requires IsBase(base) && |text| > 0 && text[0] != ZERO && ParseDigits(text, base).Number?
    ensures ParseDigits(text, base).value > 0
  {
    hide Append;
    var front, c := text[..|text| - 1], text[|text| - 1];
    assert text == front + [c];
    ParseAppends(front, c, base);
    if |text| > 1 {
      LeadingDigitCounts(front, base);
      AppendSplits(ParseDigits(front, base).value, DigitValue(c), base);
    } else {
      AppendSplits(0, DigitValue(c), base);
    }
  }

  lemma {:induction false} CanonicalIsNumeral(text: seq<nat>, base: nat)
    requires IsBase(base) && Canonical(text) && ParseDigits(text, base).Number?
    ensures var n := ParseDigits(text, base).value; n >= 0 && text == Numeral(n, base)
  {
    hide Append;
    var front, c := text[..|text| - 1], text[|text| - 1];
    assert text == front + [c];
    ParseAppends(front, c, base);
    if |text| > 1 {
      LeadingDigitCounts(front, base);
      CanonicalIsNumeral(front, base);
      AppendSplits(ParseDigits(front, base).value, DigitValue(c), base);
    } else {
      AppendSplits(0, DigitValue(c), base);
    }
  }

  /** The numeral of `n` is the one text without leading zeros that parses to `n`. */
  lemma NumeralIsTheCanonicalText(n: nat, text: seq<nat>, base: nat)
    requires IsBase(base)
    ensures text == Numeral(n, base) <==> Canonical(text) && ParseDigits(text, base) == Number(n)
  {
    NumeralParses(n, base);
    if Canonical(text) && ParseDigits(text, base) == Number(n) {
      CanonicalIsNumeral(text, base);
    }
  }

  // ---- what the printers write

  function DecText(k: int): seq<nat> {
    if k < 0 then [MINUS] + Numeral(-k, 10) else Numeral(k, 10)
  }

  function HexText(n: nat): seq<nat> {
    [ZERO, LETTER_X] + Numeral(n, 16)
  }

  /** One leading zero makes a single digit two. */
  function PaddedHex(n: nat): seq<nat> {
    (if n < 16 then [ZERO] else []) + Numeral(n, 16)
  }

  function ParseDec(text: seq<nat>): Parsed {
    if |text| > 0 && text[0] == MINUS then
      match ParseDigits(text[1..], 10)
      case Number(n) => Number(-n)
      case NotANumber => NotANumber
    else ParseDigits(text, 10)
  }

  function ParseHex(text: seq<nat>): Parsed {
    if |text| > 2 && text[0] == ZERO && text[1] == LETTER_X then ParseDigits(text[2..], 16) else NotANumber
  }

  /** Decimal and hexadecimal text read back to the number printed. */
  lemma TextReadsBack(k: int, n: nat)
    ensures ParseDec(DecText(k)) == Number(k)
    ensures ParseHex(HexText(n)) == Number(n)
  {
    hide ParseDigits, Numeral;
    NumeralParses(n, 16);
    assert HexText(n)[2..] == Numeral(n, 16);
    if k < 0 {
      NumeralParses(-k, 10);
      assert DecText(k)[1..] == Numeral(-k, 10);
    } else {
      NumeralParses(k, 10);
      assert Numeral(k, 10)[0] in Numeral(k, 10);
    }
  }

  /** The padded text reads back too, has two digits or more, and pads single digits only. */
  lemma PaddedReadsBack(n: nat)
    ensures ParseDigits(PaddedHex(n), 16) == Number(n) && |PaddedHex(n)| >= 2
    ensures HexText(n) == [ZERO, LETTER_X] + PaddedHex(n)[(if n < 16 then 1 else 0)..]
  {
    hide ParseDigits, Append, Numeral, Digit;
    NumeralParses(n, 16);
    if n < 16 {
      LeadingZero(n);
      ParseAppends([], ZERO, 16);
      assert [] + [ZERO] == [ZERO];
      ParseAppends([ZERO], Digit(n), 16);
    } else {
      TwoDigits(n);
    }
  }

  lemma TwoDigits(n: nat)
    requires n >= 16
    ensures PaddedHex(n) == Numeral(n, 16) && |Numeral(n, 16)| >= 2
  {
    assert |Numeral(n / 16, 16)| > 0;
  }

  lemma LeadingZero(n: nat)
    requires n < 16
    ensures PaddedHex(n) == [ZERO] + [Digit(n)] && Numeral(n, 16) == [Digit(n)]
    ensures ParseDigits([], 16) == Number(0) && Append(0, 0, 16) == 0 && Append(0, n, 16) == n
  {
    hide Digit;
    LastDigit(n, 16);
  }

  /** The characters used: digits, capital letters, a minus sign, a small x. */
  lemma Characters()
    ensures ZERO == '0' as nat && MINUS == '-' as nat && LETTER_X == 'x' as nat
    ensures forall d: nat :: d < 16 ==> Digit(d) == "0123456789ABCDEF"[d] as nat
  {
    assert "0123456789ABCDEF"[0] == '0' && "0123456789ABCDEF"[9] == '9' && "0123456789ABCDEF"[10] == 'A';
  }

  // ---- how long a text gets

  function Power(base: nat, k: nat): nat {
    if k == 0 then 1 else base * Power(base, k - 1)
  }

  lemma {:induction false} NumeralFits(n: nat, base: nat, k: nat)
    requires IsBase(base) && k > 0 && n < Power(base, k)
    ensures |Numeral(n, base)| <= k
  {
    if n >= base {
      assert k > 1;
      NumeralFits(n / base, base, k - 1);
    }
  }

  /** A 32-bit number has at most eight hexadecimal digits, a signed one at most ten decimal ones. */
  lemma WordFits(n: nat)
    ensures n < 0x1_0000_0000 ==> |Numeral(n, 16)| <= 8
    ensures n < 0x8000_0000 ==> |Numeral(n, 10)| <= 10
  {
    Powers();
    if n < 0x1_0000_0000 {
      NumeralFits(n, 16, 8);
    }
    if n < 0x8000_0000 {
      NumeralFits(n, 10, 10);
    }
  }

  lemma Powers()
    ensures Power(16, 8) == 0x1_0000_0000 && Power(10, 10) == 10_000_000_000
  {
    assert Power(16, 4) == 0x1_0000;
    assert Power(10, 5) == 100_000;
  }
}
