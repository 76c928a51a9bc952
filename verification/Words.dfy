/**
 Machine words. The kernel keeps page entries as 32-bit words and mixes
 bit operations with address arithmetic. This module relates the two views: `Word` is the
 32-bit pattern of a number (truncated as C truncates it), `Nat` the number a pattern denotes.
 */
module Words {

  const WORD_SPAN: nat := 0x1_0000_0000

  const PAGE_SIZE: nat := 4096

  /** 32-bit unsigned wrap-around. */
  function Wrap(n: int): (r: nat)
    ensures r < WORD_SPAN
    ensures 0 <= n < WORD_SPAN ==> r == n
    ensures 0 - WORD_SPAN <= n < 0 ==> r == n + WORD_SPAN
  {
    n % WORD_SPAN
  }

  function Pow2(k: nat): nat {
    if k == 0 then 1 else 2 * Pow2(k - 1)
  }

  /** Shift a bit `c` in from the right. */
  function ShiftIn(w: bv32, c: bv32): bv32 {
    (w << 1) | c
  }

  /** The pattern with the lowest `k` bits set. */
  function Ones(k: nat): bv32 {
    if k == 0 then 0 else ShiftIn(Ones(k - 1), 1)
  }

  /** The 32-bit pattern of `n`; higher bits are lost. */
  function Word(n: nat): bv32 {
    if n == 0 then 0 else ShiftIn(Word(n / 2), if n % 2 == 1 then 1 else 0)
  }

  /** The number denoted by the lowest `k` bits. */
  function Low(w: bv32, k: nat): nat {
    if k == 0 then 0 else 2 * Low(w >> 1, k - 1) + (if w & 1 == 1 then 1 else 0)
  }

  /** The number a pattern denotes. */
  function Nat(w: bv32): nat {
    Low(w, 32)
  }

  /** All bits of `w` lie inside `mask`. */
  predicate Within(w: bv32, mask: bv32) {
    w & mask == w
  }

  lemma {:induction false} ShiftInWithin(a: bv32, b: bv32, c: bv32)
    requires Within(a, b) && Within(c, 1)
    ensures Within(ShiftIn(a, c), ShiftIn(b, 1))
  {
  }

  lemma {:induction false} ZeroWithin(b: bv32)
    ensures Within(0, b)
  {
  }

  lemma {:induction false} BitWithin()
    ensures Within(0, 1) && Within(1, 1)
  {
  }

  lemma {:induction false} WithinTransitive(a: bv32, b: bv32, c: bv32)
    requires Within(a, b) && Within(b, c)
    ensures Within(a, c)
  {
  }

  lemma {:induction false} OnesNest(k: nat, m: nat)
    requires k <= m
    ensures Within(Ones(k), Ones(m))
  {
    if k == 0 {
      ZeroWithin(Ones(m));
    } else {
      OnesNest(k - 1, m - 1);
      ShiftInWithin(Ones(k - 1), Ones(m - 1), 1);
    }
  }

  lemma {:induction false} OnesValues()
    ensures Ones(19) == 0x7_FFFF && Ones(20) == 0xF_FFFF && Ones(31) == 0x7FFF_FFFF && Ones(32) == 0xFFFF_FFFF
  {
    assert Ones(5) == 0x1F;
    assert Ones(10) == 0x3FF;
    assert Ones(15) == 0x7FFF;
    assert Ones(20) == 0xF_FFFF;
    assert Ones(25) == 0x1FF_FFFF;
    assert Ones(30) == 0x3FFF_FFFF;
  }

  lemma {:induction false} Pow2Values()
    ensures Pow2(19) == 0x8_0000 && Pow2(20) == 0x10_0000 && Pow2(32) == WORD_SPAN
  {
    assert Pow2(5) == 32;
    assert Pow2(10) == 1024;
    assert Pow2(15) == 0x8000;
    assert Pow2(20) == 0x10_0000;
    assert Pow2(25) == 0x200_0000;
    assert Pow2(30) == 0x4000_0000;
  }

  lemma {:induction false} WordBelow(n: nat, k: nat)
    requires n < Pow2(k)
    ensures Within(Word(n), Ones(k))
  {
    if n == 0 {
      ZeroWithin(Ones(k));
    } else if n % 2 == 1 {
      WordBelow(n / 2, k - 1);
      ShiftInWithin(Word(n / 2), Ones(k - 1), 1);
    } else {
      WordBelow(n / 2, k - 1);
      ShiftInWithin(Word(n / 2), Ones(k - 1), 0);
    }
  }

  lemma {:induction false} ShiftInHalf(w: bv32, c: bv32)
    requires Within(w, 0x7FFF_FFFF) && Within(c, 1)
    ensures ShiftIn(w, c) >> 1 == w && ShiftIn(w, c) & 1 == c
  {
  }

  lemma {:induction false} LowOfShiftIn(w: bv32, c: bv32, k: nat)
    requires Within(w, 0x7FFF_FFFF) && Within(c, 1)
    ensures Low(ShiftIn(w, c), k + 1) == 2 * Low(w, k) + (if c == 1 then 1 else 0)
  {
    hide ShiftIn, Within;
    ShiftInHalf(w, c);
  }

  lemma {:induction false} LowOfZero(k: nat)
    ensures Low(0, k) == 0
  {
    if k > 0 {
      assert (0 as bv32) >> 1 == 0;
      LowOfZero(k - 1);
    }
  }

  lemma {:induction false} HalfWord(n: nat, k: nat)
    requires k <= 31 && n < Pow2(k)
    ensures Within(Word(n), 0x7FFF_FFFF)
  {
    hide *;
    WordBelow(n, k);
    OnesNest(k, 31);
    OnesValues();
    WithinTransitive(Word(n), Ones(k), 0x7FFF_FFFF);
  }

  lemma {:induction false} LowOfWord(n: nat, k: nat)
    requires k <= 32 && n < Pow2(k)
    ensures Low(Word(n), k) == n
  {
    hide ShiftIn, Low, Within, Ones;
    if n == 0 {
      LowOfZero(k);
    } else {
      LowOfWord(n / 2, k - 1);
      HalfWord(n / 2, k - 1);
      BitWithin();
      if n % 2 == 1 {
        LowOfShiftIn(Word(n / 2), 1, k - 1);
      } else {
        LowOfShiftIn(Word(n / 2), 0, k - 1);
      }
    }
  }

  /** A number below 2^32 survives the trip through its pattern. */
  lemma {:induction false} NatOfWord(n: nat)
    requires n < WORD_SPAN
    ensures Nat(Word(n)) == n
  {
    Pow2Values();
    LowOfWord(n, 32);
  }

  lemma {:induction false} LowBelow(w: bv32, k: nat)
    ensures Low(w, k) < Pow2(k)
  {
    if k > 0 {
      LowBelow(w >> 1, k - 1);
    }
  }

  /** Bits above the mask contribute nothing. */
  lemma {:induction false} LowNarrow(w: bv32, j: nat, k: nat)
    requires j <= k && Within(w, Ones(j))
    ensures Low(w, k) == Low(w, j)
  {
    if j == 0 {
      LowOfZero(k);
    } else {
      HalfWithin(w, Ones(j - 1));
      LowNarrow(w >> 1, j - 1, k - 1);
    }
  }

  lemma {:induction false} HalfWithin(w: bv32, b: bv32)
    requires Within(w, ShiftIn(b, 1))
    ensures Within(w >> 1, b)
  {
  }

  /** A pattern inside the low `k` bits denotes a number below 2^k. */
  lemma {:induction false} NatBelow(w: bv32, k: nat)
    requires k <= 32 && Within(w, Ones(k))
    ensures Nat(w) < Pow2(k)
  {
    LowNarrow(w, k, 32);
    LowBelow(w, k);
  }

  lemma {:induction false} ShiftInBackOne(w: bv32)
    requires w & 1 == 1
    ensures ShiftIn(w >> 1, 1) == w
  {
  }

  lemma {:induction false} ShiftInBackZero(w: bv32)
    requires w & 1 != 1
    ensures ShiftIn(w >> 1, 0) == w
  {
  }

  lemma {:induction false} WordOfLow(w: bv32, k: nat)
    requires Within(w, Ones(k))
    ensures Word(Low(w, k)) == w
  {
    if k > 0 {
      HalfWithin(w, Ones(k - 1));
      WordOfLow(w >> 1, k - 1);
      if w & 1 == 1 {
        ShiftInBackOne(w);
      } else {
        ShiftInBackZero(w);
      }
      ShiftInZeros();
    }
  }

  lemma {:induction false} ShiftInZeros()
    ensures ShiftIn(0, 0) == 0
  {
  }

  lemma {:induction false} WithinAll(w: bv32)
    ensures Within(w, 0xFFFF_FFFF)
  {
  }

  /** A pattern is the pattern of the number it denotes. */
  lemma WordOfNat(w: bv32)
    ensures Word(Nat(w)) == w
  {
    hide Within;
    OnesValues();
    WithinAll(w);
    WordOfLow(w, 32);
  }

  function Half(w: bv32): bv32 {
    w >> 1
  }

  /** The frame number field of a word. */
  function FrameField(w: bv32): bv32 {
    w >> 12
  }

  lemma {:induction false} TwelveHalves(w: bv32)
    ensures FrameField(w) == Half(Half(Half(Half(Half(Half(Half(Half(Half(Half(Half(Half(w))))))))))))
  {
  }

  lemma {:induction false} HalfOfShiftIn(w: bv32, c: bv32)
    requires Within(w, 0x7FFF_FFFF) && Within(c, 1)
    ensures Half(ShiftIn(w, c)) == w
  {
  }

  lemma {:induction false} HalfOfZero()
    ensures Half(0) == 0
  {
  }

  /** Shifting right once halves. */
  lemma {:induction false} WordOfHalf(n: nat)
    requires n < WORD_SPAN
    ensures Half(Word(n)) == Word(n / 2)
  {
    hide Within, ShiftIn, Half;
    Pow2Values();
    WordBelow(n / 2, 31);
    OnesValues();
    BitWithin();
    if n == 0 {
      HalfOfZero();
    } else if n % 2 == 1 {
      HalfOfShiftIn(Word(n / 2), 1);
    } else {
      HalfOfShiftIn(Word(n / 2), 0);
    }
  }

  lemma {:induction false} WordOfEighth(n: nat)
    requires n < WORD_SPAN
    ensures Half(Half(Half(Word(n)))) == Word(n / 8)
  {
    hide *;
    WordOfHalf(n);
    WordOfHalf(n / 2);
    WordOfHalf(n / 2 / 2);
    assert n / 2 / 2 / 2 == n / 8;
  }

  /** Dropping the offset within a frame is shifting right by twelve. */
  lemma {:induction false} WordOfFrameNumber(n: nat)
    requires n < WORD_SPAN
    ensures FrameField(Word(n)) == Word(n / 4096)
  {
    hide *;
    WordOfEighth(n);
    WordOfEighth(n / 8);
    WordOfEighth(n / 8 / 8);
    WordOfEighth(n / 8 / 8 / 8);
    TwelveHalves(Word(n));
    assert n / 8 / 8 / 8 / 8 == n / 4096;
  }

  lemma {:induction false} WordOfEven(n: nat)
    requires n % 2 == 0
    ensures Word(n) == Word(n / 2) << 1
  {
  }

  lemma ShiftThrice(w: bv32)
    ensures ((w << 1) << 1) << 1 == w << 3
  {
  }

  lemma WordOfEightfold(n: nat)
    requires n % 8 == 0
    ensures Word(n) == Word(n / 8) << 3
  {
    hide *;
    WordOfEven(n);
    WordOfEven(n / 2);
    WordOfEven(n / 2 / 2);
    assert n / 2 / 2 / 2 == n / 8;
    ShiftThrice(Word(n / 8));
  }

  lemma ShiftedClear(w: bv32)
    ensures ((((w << 3) << 3) << 3) << 3) & 0xFFF == 0
  {
  }

  /** A page-aligned address has its low twelve bits clear. */
  lemma WordOfPage(n: nat)
    requires n % 4096 == 0
    ensures Word(n) & 0xFFF == 0
  {
    hide *;
    var k := n / 4096;
    assert n / 8 == 512 * k && 512 * k / 8 == 64 * k && 64 * k / 8 == 8 * k && 8 * k / 8 == k;
    WordOfEightfold(n);
    WordOfEightfold(512 * k);
    WordOfEightfold(64 * k);
    WordOfEightfold(8 * k);
    ShiftedClear(Word(k));
  }

  lemma {:induction false} NoTop(w: bv32)
    ensures Within(w, 0x7FFF_FFFF) <==> w & 0x8000_0000 == 0
  {
  }

  /** Bit 31 tells the addresses from 2 GiB up. */
  lemma {:induction false} TopOfWord(n: nat)
    requires n < WORD_SPAN
    ensures Word(n) & 0x8000_0000 == 0 <==> n < 0x8000_0000
  {
    hide Within;
    NoTop(Word(n));
    OnesValues();
    assert Pow2(31) == 0x8000_0000 by { Pow2Values(); }
    if n < 0x8000_0000 {
      WordBelow(n, 31);
    }
    if Within(Word(n), 0x7FFF_FFFF) {
      NatBelow(Word(n), 31);
      NatOfWord(n);
    }
  }

  // ---- single bits of a word

  /** The test `w & (1 << k)`. */
  predicate Bit(w: bv32, k: bv5) {
    w & (1 << k) != 0
  }

  lemma OrBit(w: bv32, k: bv5, j: bv5)
    ensures Bit(w | (1 << k), j) <==> j == k || Bit(w, j)
  {
  }

  lemma AndNotBit(w: bv32, k: bv5, j: bv5)
    ensures Bit(w & !(1 << k), j) <==> j != k && Bit(w, j)
  {
  }

  lemma FullBit(k: bv5)
    ensures Bit(0xFFFF_FFFF, k)
  {
  }

  lemma IndexBack(k: nat)
    requires k < 32
    ensures (k as bv5) as int == k
  {
  }

  lemma IndexInjective(j: nat, k: nat)
    requires j < 32 && k < 32 && j as bv5 == k as bv5
    ensures j == k
  {
    IndexBack(j);
    IndexBack(k);
  }

  /** Bit `k` of a word. */
  predicate TestBit(w: bv32, k: nat)
    requires k < 32
  {
    Bit(w, k as bv5)
  }

  /** The store `w |= 1 << k`. */
  function SetBit(w: bv32, k: nat): bv32
    requires k < 32
  {
    w | (1 << (k as bv5))
  }

  /** The store `w &= ~(1 << k)`. */
  function ClearBit(w: bv32, k: nat): bv32
    requires k < 32
  {
    w & !(1 << (k as bv5))
  }

  /** Setting a bit changes that bit and no other. */
  lemma BitOfSet(w: bv32, k: nat, j: nat)
    requires k < 32 && j < 32
    ensures TestBit(SetBit(w, k), j) <==> j == k || TestBit(w, j)
  {
    hide Bit;
    OrBit(w, k as bv5, j as bv5);
    if j as bv5 == k as bv5 {
      IndexInjective(j, k);
    }
  }

  /** Clearing a bit changes that bit and no other. */
  lemma BitOfClear(w: bv32, k: nat, j: nat)
    requires k < 32 && j < 32
    ensures TestBit(ClearBit(w, k), j) <==> j != k && TestBit(w, j)
  {
    hide Bit;
    AndNotBit(w, k as bv5, j as bv5);
    if j != k && j as bv5 == k as bv5 {
      IndexInjective(j, k);
    }
  }

  /** A full word, which the frame search skips, has no clear bit. */
  lemma BitOfFull(k: nat)
    requires k < 32
    ensures TestBit(0xFFFF_FFFF, k)
  {
    FullBit(k as bv5);
  }
}
