/**
 The physical frame allocator as values: a bitmap with one bit per 4 KiB block (set means
 used) and the counter of used blocks. The class FrameAllocator is proved to do what these
 functions say; the properties of the allocator are proved here.
 */
module FrameMap {
  import opened Words

  const BLOCK_SIZE: nat := 4096

  /**
   `bits` covers the bitmap and the memory behind it, which the allocator can reach; `blocks`
   is the number of blocks of physical memory and `used` the 32-bit counter.
   */
  datatype Frames = Frames(bits: seq<bool>, blocks: nat, used: nat)

  /** The search looks at whole bitmap words only. */
  function SearchWords(f: Frames): nat {
    f.blocks / 32
  }

  /** The number of blocks the search covers. */
  function MapEnd(f: Frames): nat {
    32 * SearchWords(f)
  }

  predicate Valid(f: Frames) {
    && f.blocks <= 0x10_0000
    && f.used < WORD_SPAN
    && |f.bits| >= 2 * MapEnd(f) + 32
  }

  // ---- editing ranges of bits

  function SetRange(bits: seq<bool>, start: nat, n: nat): (r: seq<bool>)
    ensures |r| == |bits|
    ensures forall b :: 0 <= b < |r| ==> r[b] == (start <= b < start + n || bits[b])
  {
    seq(|bits|, b requires 0 <= b < |bits| => start <= b < start + n || bits[b])
  }

  function ClearRange(bits: seq<bool>, start: nat, n: nat): (r: seq<bool>)
    ensures |r| == |bits|
    ensures forall b :: 0 <= b < |r| ==> r[b] == (!(start <= b < start + n) && bits[b])
  {
    seq(|bits|, b requires 0 <= b < |bits| => !(start <= b < start + n) && bits[b])
  }

  // ---- the search

  /** The bit the search tests for block `p`: past the last word it stays in the last word. */
  function Probe(words: nat, p: nat): (b: nat)
    requires words > 0
    ensures b < 32 * words
    ensures p < 32 * words ==> b == p
  {
    if p / 32 < words then p else 32 * (words - 1) + p % 32
  }

  predicate ClampedRun(bits: seq<bool>, words: nat, s: nat, n: nat)
    requires 0 < words && 32 * words <= |bits|
  {
    forall p :: s <= p < s + n ==> !bits[Probe(words, p)]
  }

  function Search(bits: seq<bool>, words: nat, n: nat, s: nat): int
    requires 32 * words <= |bits| && s <= 32 * words
    decreases 32 * words - s
  {
    if s == 32 * words then -1
    else if ClampedRun(bits, words, s, n) then s
    else Search(bits, words, n, s + 1)
  }

  function FirstFit(f: Frames, n: nat): int
    requires Valid(f)
  {
    if n == 0 then -1 else Search(f.bits, SearchWords(f), n, 0)
  }

  /** A run of `n` free blocks inside the map. */
  predicate FreeRun(f: Frames, s: nat, n: nat)
    requires Valid(f)
  {
    s + n <= MapEnd(f) && forall b :: s <= b < s + n ==> !f.bits[b]
  }

  lemma {:induction false} SearchIsFirst(bits: seq<bool>, words: nat, n: nat, s: nat)
    requires 32 * words <= |bits| && s <= 32 * words
    ensures var r := Search(bits, words, n, s);
            && -1 <= r < 32 * words
            && (r >= 0 ==> s <= r && ClampedRun(bits, words, r, n))
            && (forall t :: s <= t < (if r >= 0 then r else 32 * words) ==> !ClampedRun(bits, words, t, n))
    decreases 32 * words - s
  {
    if s < 32 * words && !ClampedRun(bits, words, s, n) {
      SearchIsFirst(bits, words, n, s + 1);
    }
  }

  lemma InMapRun(f: Frames, s: nat, n: nat)
    requires Valid(f) && n > 0 && s + n <= MapEnd(f)
    ensures FreeRun(f, s, n) <==> ClampedRun(f.bits, SearchWords(f), s, n)
  {
    if ClampedRun(f.bits, SearchWords(f), s, n) {
      forall b | s <= b < s + n
        ensures !f.bits[b]
      {
        assert Probe(SearchWords(f), b) == b;
      }
    }
  }

  /**
   First fit. The answer lies inside the map exactly when the map holds a free run of the
   requested length; it is then the start of the earliest one. A single block never hangs off.
   */
  lemma FirstFitIsFirst(f: Frames, n: nat)
    requires Valid(f) && n > 0
    ensures var r := FirstFit(f, n);
            && -1 <= r < MapEnd(f)
            && (r >= 0 && r + n <= MapEnd(f) <==> exists s: nat :: FreeRun(f, s, n))
            && (r >= 0 && r + n <= MapEnd(f) ==> FreeRun(f, r, n) && forall s: nat :: s < r ==> !FreeRun(f, s, n))
            && (r == -1 ==> forall s: nat :: !FreeRun(f, s, n))
            && (n == 1 && r >= 0 ==> r + n <= MapEnd(f))
  {
    var r := FirstFit(f, n);
    SearchIsFirst(f.bits, SearchWords(f), n, 0);
    forall s: nat | s < (if r >= 0 then r else MapEnd(f))
      ensures !FreeRun(f, s, n)
    {
      if FreeRun(f, s, n) {
        InMapRun(f, s, n);
      }
    }
    if r >= 0 && r + n <= MapEnd(f) {
      InMapRun(f, r, n);
    }
  }

  /**
   The clamping matters: two free blocks of the last word that are not neighbours pass for a
   run of two that starts at the last block and hangs off the map.
   */
  lemma RunHangsOffTheMap()
    ensures var f := Frames(seq(160, b => b != 32 && b != 34 && b != 63), 64, 61);
            && Valid(f) && FirstFit(f, 2) == 63 && 63 + 2 > MapEnd(f)
            && forall s: nat :: !FreeRun(f, s, 2)
  {
    var f := Frames(seq(160, b => b != 32 && b != 34 && b != 63), 64, 61);
    SearchIsFirst(f.bits, 2, 2, 0);
    forall t: nat | t < 63
      ensures !ClampedRun(f.bits, 2, t, 2)
    {
      assert Probe(2, t) == t && Probe(2, t + 1) == t + 1;
      assert f.bits[t] || f.bits[t + 1];
    }
    assert Probe(2, 63) == 63 && Probe(2, 64) == 32;
    assert ClampedRun(f.bits, 2, 63, 2);
    FirstFitIsFirst(f, 2);
  }

  // ---- the operations

  function Init(bits: seq<bool>, size: nat): Frames {
    var blocks := size / BLOCK_SIZE;
    Frames(SetRange(bits, 0, blocks / 8 * 8), blocks, blocks)
  }

  function InitRegion(f: Frames, base: nat, size: nat): Frames {
    var cleared := ClearRange(f.bits, base / BLOCK_SIZE, size / BLOCK_SIZE);
    f.(bits := SetRange(cleared, 0, 1), used := Wrap(f.used - size / BLOCK_SIZE))
  }

  function DeinitRegion(f: Frames, base: nat, size: nat): Frames {
    f.(bits := SetRange(f.bits, base / BLOCK_SIZE, size / BLOCK_SIZE),
       used := Wrap(f.used + size / BLOCK_SIZE))
  }

  /** Result: the new state and the address of the first block, 0 on failure. */
  function AllocBlocks(f: Frames, n: nat): (Frames, nat)
    requires Valid(f)
  {
    if Wrap(f.blocks - f.used) <= n then (f, 0) else
    var start := FirstFit(f, n);
    if start == -1 then (f, 0) else
    SearchIsFirst(f.bits, SearchWords(f), n, 0);
    (f.(bits := SetRange(f.bits, start, n), used := Wrap(f.used + n)), start * BLOCK_SIZE)
  }

  function FreeBlocks(f: Frames, address: nat, n: nat): Frames {
    f.(bits := ClearRange(f.bits, address / BLOCK_SIZE, n), used := Wrap(f.used - n))
  }

  /** With block 0 used, an allocation that answers null leaves the allocator as it was. */
  lemma NullKeeps(f: Frames, n: nat)
    requires Valid(f) && f.bits[0] && AllocBlocks(f, n).1 == 0
    ensures AllocBlocks(f, n).0 == f
  {
    SearchIsFirst(f.bits, SearchWords(f), n, 0);
    if SearchWords(f) > 0 {
      assert Probe(SearchWords(f), 0) == 0;
    }
  }

  /** The map covers all blocks but those of an incomplete last word. */
  lemma MapCoversBlocks(f: Frames)
    ensures MapEnd(f) % 32 == 0 && MapEnd(f) <= f.blocks < MapEnd(f) + 32
  {
  }

  /** Power-on counts the whole blocks of memory and takes them all as used. */
  lemma InitCountsBlocks(bits: seq<bool>, size: nat)
    ensures var f := Init(bits, size);
            && f.blocks * 4096 <= size < (f.blocks + 1) * 4096 && f.used == f.blocks
            && |f.bits| == |bits|
            && forall b :: 0 <= b < |bits| ==> f.bits[b] == (8 * (b / 8) + 8 <= f.blocks || bits[b])
  {
  }

  // ---- accounting

  /** The number of set bits among the first `k`. */
  function Count(bits: seq<bool>, k: nat): (c: nat)
    requires k <= |bits|
    ensures c <= k
  {
    if k == 0 then 0 else Count(bits, k - 1) + (if bits[k - 1] then 1 else 0)
  }

  /** How much of the range [start, start + n) lies below `k`. */
  function Overlap(start: nat, n: nat, k: nat): nat {
    if k <= start then 0 else if k <= start + n then k - start else n
  }

  lemma {:induction false} CountOfSet(bits: seq<bool>, start: nat, n: nat, k: nat)
    requires k <= |bits|
    requires forall b :: start <= b < start + n && b < k ==> !bits[b]
    ensures Count(SetRange(bits, start, n), k) == Count(bits, k) + Overlap(start, n, k)
  {
    if k > 0 {
      CountOfSet(bits, start, n, k - 1);
    }
  }

  lemma {:induction false} CountOfClear(bits: seq<bool>, start: nat, n: nat, k: nat)
    requires k <= |bits|
    requires forall b :: start <= b < start + n && b < k ==> bits[b]
    ensures Count(ClearRange(bits, start, n), k) == Count(bits, k) - Overlap(start, n, k)
    ensures Overlap(start, n, k) <= Count(bits, k)
  {
    if k > 0 {
      CountOfClear(bits, start, n, k - 1);
    }
  }

  lemma {:induction false} CountAll(bits: seq<bool>, k: nat)
    requires k <= |bits| && forall b :: 0 <= b < k ==> bits[b]
    ensures Count(bits, k) == k
  {
    if k > 0 {
      CountAll(bits, k - 1);
    }
  }
}
