/**
 The physical frame allocator as the kernel runs it: a bitmap of 32-bit words updated in place
 and a wrapping counter. Every method is proved to do what FrameMap says.
 */
module FrameAllocators {
  import opened Words
  import opened FrameMap

  /** The bits of a bitmap, word by word, lowest bit first. */
  function BitsOf(words: seq<bv32>): (bits: seq<bool>)
    ensures |bits| == 32 * |words|
  {
    seq(32 * |words|, b requires 0 <= b < 32 * |words| => TestBit(words[b / 32], b % 32))
  }

  lemma BitsAfterSet(words: seq<bv32>, bit: nat)
    requires bit / 32 < |words|
    ensures BitsOf(words[bit / 32 := SetBit(words[bit / 32], bit % 32)]) == SetRange(BitsOf(words), bit, 1)
  {
    hide TestBit, SetBit;
    forall b | 0 <= b < 32 * |words| && b / 32 == bit / 32
      ensures TestBit(SetBit(words[bit / 32], bit % 32), b % 32) == (b == bit || TestBit(words[bit / 32], b % 32))
    {
      BitOfSet(words[bit / 32], bit % 32, b % 32);
    }
  }

  lemma BitsAfterClear(words: seq<bv32>, bit: nat)
    requires bit / 32 < |words|
    ensures BitsOf(words[bit / 32 := ClearBit(words[bit / 32], bit % 32)]) == ClearRange(BitsOf(words), bit, 1)
  {
    hide TestBit, ClearBit;
    forall b | 0 <= b < 32 * |words| && b / 32 == bit / 32
      ensures TestBit(ClearBit(words[bit / 32], bit % 32), b % 32) == (b != bit && TestBit(words[bit / 32], b % 32))
    {
      BitOfClear(words[bit / 32], bit % 32, b % 32);
    }
  }

  lemma BitInWord(words: seq<bv32>, i: nat, bit: nat)
    requires i < |words| && bit < 32
    ensures BitsOf(words)[32 * i + bit] == TestBit(words[i], bit)
  {
    assert (32 * i + bit) / 32 == i && (32 * i + bit) % 32 == bit;
  }

  lemma ProbeInWord(words: nat, i: nat, offset: nat, idx: nat)
    requires i < words
    requires idx == if i + offset / 32 < words then i + offset / 32 else words - 1
    ensures Probe(words, 32 * i + offset) == 32 * idx + offset % 32
  {
    assert (32 * i + offset) / 32 == i + offset / 32;
    assert (32 * i + offset) % 32 == offset % 32;
  }

  /** The search passes over used blocks. */
  lemma {:induction false} SearchSkips(bits: seq<bool>, words: nat, n: nat, s: nat, t: nat)
    requires n > 0 && 32 * words <= |bits| && s <= t <= 32 * words
    requires forall b :: s <= b < t ==> bits[b]
    ensures Search(bits, words, n, s) == Search(bits, words, n, t)
    decreases t - s
  {
    if s < t {
      assert Probe(words, s) == s;
      SearchSkips(bits, words, n, s + 1, t);
    }
  }

  lemma SearchStep(bits: seq<bool>, words: nat, n: nat, s: nat)
    requires 32 * words <= |bits| && s < 32 * words
    ensures Search(bits, words, n, s) == if ClampedRun(bits, words, s, n) then s else Search(bits, words, n, s + 1)
  {
  }

  lemma SearchEnds(bits: seq<bool>, words: nat, n: nat)
    requires 32 * words <= |bits|
    ensures Search(bits, words, n, 32 * words) == -1
  {
  }

  lemma SetRangeGrows(bits: seq<bool>, start: nat, n: nat)
    ensures SetRange(bits, start, 0) == bits
    ensures SetRange(SetRange(bits, start, n), start + n, 1) == SetRange(bits, start, n + 1)
  {
  }

  lemma ClearRangeGrows(bits: seq<bool>, start: nat, n: nat)
    ensures ClearRange(bits, start, 0) == bits
    ensures ClearRange(ClearRange(bits, start, n), start + n, 1) == ClearRange(bits, start, n + 1)
  {
  }

  lemma FullWord(words: seq<bv32>, i: nat)
    requires i < |words| && words[i] == 0xFFFF_FFFF
    ensures forall b :: 32 * i <= b < 32 * i + 32 ==> BitsOf(words)[b]
  {
    hide TestBit;
    forall b | 32 * i <= b < 32 * i + 32
      ensures BitsOf(words)[b]
    {
      BitOfFull(b % 32);
    }
  }

  class FrameAllocator {
    /** The bitmap words, followed by the memory that lies behind them. */
    const memoryMap: array<bv32>
    var memorySize: nat
    var maxBlocks: nat
    var usedBlocks: nat

    ghost function Bits(): seq<bool>
      reads memoryMap
    {
      BitsOf(memoryMap[..])
    }

    ghost function View(): Frames
      reads this, memoryMap
    {
      Frames(Bits(), maxBlocks, usedBlocks)
    }

    /** pmmngr_init: everything is in use until a region is handed over. */
    constructor (memory: array<bv32>, size: nat)
      requires size < WORD_SPAN
      requires memory.Length >= 2 * (size / BLOCK_SIZE / 32) + 1
      modifies memory
      ensures memoryMap == memory && memorySize == size
      ensures View() == Init(BitsOf(old(memory[..])), size)
      ensures Valid(View())
    {
      memoryMap := memory;
      memorySize := size;
      maxBlocks := size / BLOCK_SIZE;
      usedBlocks := size / BLOCK_SIZE;
      new;
      ghost var before := Bits();
      assert SetRange(before, 0, 0) == before;
      // memset of maxBlocks / 8 bytes with 0xFF, one bit at a time
      for b := 0 to maxBlocks / 8 * 8
        invariant maxBlocks == size / BLOCK_SIZE && usedBlocks == maxBlocks && memorySize == size && memoryMap == memory
        invariant Bits() == SetRange(before, 0, b)
      {
        Set(b);
        assert SetRange(SetRange(before, 0, b), b, 1) == SetRange(before, 0, b + 1);
      }
    }

    /** mmap_set */
    method Set(bit: nat)
      requires bit / 32 < memoryMap.Length
      modifies memoryMap
      ensures Bits() == SetRange(old(Bits()), bit, 1)
    {
      hide TestBit, SetBit;
      BitsAfterSet(memoryMap[..], bit);
      memoryMap[bit / 32] := SetBit(memoryMap[bit / 32], bit % 32);
    }

    /** mmap_unset */
    method Unset(bit: nat)
      requires bit / 32 < memoryMap.Length
      modifies memoryMap
      ensures Bits() == ClearRange(old(Bits()), bit, 1)
    {
      hide TestBit, ClearBit;
      BitsAfterClear(memoryMap[..], bit);
      memoryMap[bit / 32] := ClearBit(memoryMap[bit / 32], bit % 32);
    }

    /** One test of the search: the walk from word `i` to the word probed, then its bit. */
    method ProbeBit(i: nat, offset: nat) returns (used: bool)
      requires i < maxBlocks / 32 <= memoryMap.Length
      ensures used == Bits()[Probe(maxBlocks / 32, 32 * i + offset)]
    {
      hide TestBit, BitsOf, Probe;
      var idx := i;
      var steps: nat := offset / 32;
      while steps > 0 && idx + 1 < maxBlocks / 32
        invariant i <= idx < maxBlocks / 32
        invariant idx + steps == i + offset / 32
      {
        idx := idx + 1;
        steps := steps - 1;
      }
      used := TestBit(memoryMap[idx], offset % 32);
      BitInWord(memoryMap[..], idx, offset % 32);
      ProbeInWord(maxBlocks / 32, i, offset, idx);
    }

    /** mmap_first_free_blocks */
    method FirstFreeBlocks(blocks: nat) returns (r: int)
      requires Valid(View())
      ensures r == FirstFit(View(), blocks)
    {
      hide TestBit, BitsOf, Search;
      if blocks == 0 {
        return -1;
      }
      var words := maxBlocks / 32;
      ghost var bits := Bits();
      assert |bits| == 32 * memoryMap.Length;
      for i := 0 to words
        invariant Search(bits, words, blocks, 0) == Search(bits, words, blocks, 32 * i)
      {
        if memoryMap[i] != 0xFFFF_FFFF {
          r := FirstInWord(i, blocks);
          if r != -1 {
            return r;
          }
        } else {
          FullWord(memoryMap[..], i);
          SearchSkips(bits, words, blocks, 32 * i, 32 * i + 32);
        }
      }
      SearchEnds(bits, words, blocks);
      return -1;
    }

    /** The middle loop of the search: the first bit of word `i` where a run starts, -1 if none. */
    method FirstInWord(i: nat, blocks: nat) returns (r: int)
      requires Valid(View()) && i < maxBlocks / 32 && blocks > 0
      ensures r != -1 ==> r == Search(Bits(), maxBlocks / 32, blocks, 32 * i)
      ensures r == -1 ==> Search(Bits(), maxBlocks / 32, blocks, 32 * i) == Search(Bits(), maxBlocks / 32, blocks, 32 * i + 32)
    {
      hide TestBit, Search, ClampedRun;
      ghost var bits, words := Bits(), maxBlocks / 32;
      for j := 0 to 32
        invariant Search(bits, words, blocks, 32 * i) == Search(bits, words, blocks, 32 * i + j)
      {
        if !TestBit(memoryMap[i], j) {
          SearchStep(bits, words, blocks, 32 * i + j);
          var fits := RunFits(i, j, blocks);
          if fits {
            return i * 32 + j;
          }
        } else {
          assert bits[32 * i + j];
          SearchSkips(bits, words, blocks, 32 * i + j, 32 * i + j + 1);
        }
      }
      return -1;
    }

    /** The innermost loop of the search: count the free bits of the run that starts at bit `j` of word `i`. */
    method RunFits(i: nat, j: nat, blocks: nat) returns (fits: bool)
      requires i < maxBlocks / 32 <= memoryMap.Length && j < 32 && blocks > 0
      ensures fits == ClampedRun(Bits(), maxBlocks / 32, 32 * i + j, blocks)
    {
      hide TestBit;
      ghost var s := 32 * i + j;
      ghost var words := maxBlocks / 32;
      var freeBlocks := 0;
      for count := 0 to blocks
        invariant 0 <= freeBlocks <= count && freeBlocks < blocks
        invariant freeBlocks == count <==> ClampedRun(Bits(), words, s, count)
      {
        var used := ProbeBit(i, j + count);
        assert ClampedRun(Bits(), words, s, count + 1) <==> ClampedRun(Bits(), words, s, count) && !Bits()[Probe(words, s + count)];
        if !used {
          freeBlocks := freeBlocks + 1;
        }
        if freeBlocks == blocks {
          return true;
        }
      }
      return false;
    }

    /** pmmngr_init_region */
    method InitRegion(base: nat, size: nat)
      requires base / BLOCK_SIZE + size / BLOCK_SIZE <= 32 * memoryMap.Length && memoryMap.Length > 0
      requires usedBlocks < WORD_SPAN
      modifies this`usedBlocks, memoryMap
      ensures View() == FrameMap.InitRegion(old(View()), base, size)
    {
      hide BitsOf, SetRange, ClearRange;
      var align := base / BLOCK_SIZE;
      ghost var before, used, first, done := Bits(), usedBlocks, align, 0;
      ClearRangeGrows(before, first, 0);
      for blocks := size / BLOCK_SIZE downto 0
        invariant align == first + done && done + blocks == size / BLOCK_SIZE
        invariant Bits() == ClearRange(before, first, done)
        invariant usedBlocks == Wrap(used - done)
      {
        ClearRangeGrows(before, first, done);
        Unset(align);
        align := align + 1;
        usedBlocks := Wrap(usedBlocks - 1);
        done := done + 1;
      }
      Set(0);
    }

    /** pmmngr_deinit_region */
    method DeinitRegion(base: nat, size: nat)
      requires base / BLOCK_SIZE + size / BLOCK_SIZE <= 32 * memoryMap.Length
      requires usedBlocks < WORD_SPAN
      modifies this`usedBlocks, memoryMap
      ensures View() == FrameMap.DeinitRegion(old(View()), base, size)
    {
      hide BitsOf, SetRange, ClearRange;
      var align := base / BLOCK_SIZE;
      ghost var before, used, first, done := Bits(), usedBlocks, align, 0;
      SetRangeGrows(before, first, 0);
      for blocks := size / BLOCK_SIZE downto 0
        invariant align == first + done && done + blocks == size / BLOCK_SIZE
        invariant Bits() == SetRange(before, first, done)
        invariant usedBlocks == Wrap(used + done)
      {
        SetRangeGrows(before, first, done);
        Set(align);
        align := align + 1;
        usedBlocks := Wrap(usedBlocks + 1);
        done := done + 1;
      }
    }

    /** The bits a request can set exist; with a counter out of range the guard lets any size through. */
    predicate RoomFor(blocks: nat)
      reads this
    {
      usedBlocks <= maxBlocks || 32 * (maxBlocks / 32) + blocks <= 32 * memoryMap.Length
    }

    /** pmmngr_alloc_blocks: the address of the first block, 0 on failure. */
    method AllocBlocks(blocks: nat) returns (address: nat)
      requires Valid(View()) && RoomFor(blocks)
      modifies this`usedBlocks, memoryMap
      ensures View() == FrameMap.AllocBlocks(old(View()), blocks).0
      ensures address == FrameMap.AllocBlocks(old(View()), blocks).1
    {
      if Wrap(maxBlocks - usedBlocks) <= blocks {
        return 0;
      }
      var startingBlock := FirstFreeBlocks(blocks);
      if startingBlock == -1 {
        return 0;
      }
      SearchIsFirst(Bits(), SearchWords(View()), blocks, 0);
      hide BitsOf, SetRange, Search;
      ghost var before := Bits();
      SetRangeGrows(before, startingBlock, 0);
      for i := 0 to blocks
        invariant Bits() == SetRange(before, startingBlock, i) && usedBlocks == old(usedBlocks)
      {
        SetRangeGrows(before, startingBlock, i);
        Set(startingBlock + i);
      }
      usedBlocks := Wrap(usedBlocks + blocks);
      return startingBlock * BLOCK_SIZE;
    }

    /** pmmngr_alloc_block */
    method AllocBlock() returns (address: nat)
      requires Valid(View())
      modifies this`usedBlocks, memoryMap
      ensures View() == FrameMap.AllocBlocks(old(View()), 1).0
      ensures address == FrameMap.AllocBlocks(old(View()), 1).1
    {
      address := AllocBlocks(1);
    }

    /** pmmngr_free_blocks */
    method FreeBlocks(address: nat, blocks: nat)
      requires address / BLOCK_SIZE + blocks <= 32 * memoryMap.Length
      modifies this`usedBlocks, memoryMap
      ensures View() == FrameMap.FreeBlocks(old(View()), address, blocks)
    {
      hide BitsOf, ClearRange;
      var startingBlock := address / BLOCK_SIZE;
      ghost var before := Bits();
      ClearRangeGrows(before, startingBlock, 0);
      for i := 0 to blocks
        invariant Bits() == ClearRange(before, startingBlock, i) && usedBlocks == old(usedBlocks)
      {
        ClearRangeGrows(before, startingBlock, i);
        Unset(startingBlock + i);
      }
      usedBlocks := Wrap(usedBlocks - blocks);
    }
  }
}
