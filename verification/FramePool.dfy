/**
 Runs of the frame allocator: the boot sequence that hands regions over, and any later
 sequence of allocations and frees. Live extents are tracked beside the allocator state.
 */
module FramePool {
  import opened Words
  import opened FrameMap

  // ---- boot: regions are freed and reserved, the counter follows the bitmap

  datatype BootStep = FreeRegion(base: nat, size: nat) | Reserve(base: nat, size: nat)

  function First(step: BootStep): nat {
    step.base / BLOCK_SIZE
  }

  function Length(step: BootStep): nat {
    step.size / BLOCK_SIZE
  }

  /** How many of `blocks` bits power-on sets: those of whole bytes of the bitmap. */
  function Counted(blocks: nat): (k: nat)
    ensures k <= blocks && 32 * (blocks / 32) <= k
  {
    assert blocks / 32 == blocks / 8 / 4;
    8 * (blocks / 8)
  }

  /** The region lies under the bitmap; what is freed was reserved, what is reserved was free. */
  predicate BootLegal(f: Frames, step: BootStep) {
    && Counted(f.blocks) <= |f.bits| && First(step) + Length(step) <= |f.bits|
    && (forall b :: First(step) <= b < First(step) + Length(step) && b < Counted(f.blocks) ==> f.bits[b] == step.FreeRegion?)
  }

  function Boot(f: Frames, step: BootStep): Frames {
    match step
    case FreeRegion(base, size) => InitRegion(f, base, size)
    case Reserve(base, size) => DeinitRegion(f, base, size)
  }

  predicate CoversZero(step: BootStep) {
    step.FreeRegion? && First(step) == 0 && Length(step) > 0
  }

  predicate BootRunLegal(f: Frames, steps: seq<BootStep>)
    decreases |steps|
  {
    steps == [] || (BootLegal(f, steps[0]) && BootRunLegal(Boot(f, steps[0]), steps[1..]))
  }

  function BootRun(f: Frames, steps: seq<BootStep>): Frames
    decreases |steps|
  {
    if steps == [] then f else BootRun(Boot(f, steps[0]), steps[1..])
  }

  /** The blocks of a region past the last one whose bit power-on set. */
  function Past(blocks: nat, step: BootStep): nat {
    Length(step) - Overlap(First(step), Length(step), Counted(blocks))
  }

  /**
   How far a step moves the counter away from the bitmap: a freed region that covers block 0
   counts that block though it stays reserved, and blocks past the last counted one are counted
   without a bit.
   */
  function DriftOf(blocks: nat, step: BootStep): int {
    match step
    case FreeRegion(_, _) => Past(blocks, step) + (if CoversZero(step) then 1 else 0)
    case Reserve(_, _) => 0 - Past(blocks, step)
  }

  function Drift(blocks: nat, steps: seq<BootStep>): int {
    if steps == [] then 0 else DriftOf(blocks, steps[0]) + Drift(blocks, steps[1..])
  }

  /** The used blocks: the set bits, with the blocks past the counted ones taken as used. */
  function InUseBlocks(f: Frames): nat
    requires Counted(f.blocks) <= |f.bits|
  {
    Count(f.bits, Counted(f.blocks)) + (f.blocks - Counted(f.blocks))
  }

  /** The counter is the number of used blocks less `drift`, in 32 bits. */
  predicate Balanced(f: Frames, drift: int) {
    && 0 < Counted(f.blocks) <= |f.bits|
    && f.bits[0]
    && f.used == Wrap(InUseBlocks(f) - drift)
  }

  /** With a counter that follows the bitmap up to block 0. */
  predicate Accounted(f: Frames, zeroFreed: bool) {
    Valid(f) && Balanced(f, if zeroFreed then 1 else 0)
  }

  lemma CountOne(bits: seq<bool>, k: nat)
    requires 0 < k <= |bits| && bits[0]
    ensures Count(bits, k) >= 1
  {
    CountOfClear(bits, 0, 1, k);
  }

  lemma WrapShift(a: int, b: int)
    ensures Wrap(Wrap(a) + b) == Wrap(a + b)
  {
  }

  lemma ReserveBalances(f: Frames, step: BootStep, drift: int)
    requires Balanced(f, drift) && BootLegal(f, step) && step.Reserve?
    ensures Balanced(Boot(f, step), drift + DriftOf(f.blocks, step))
  {
    hide Counted, Wrap;
    CountOfSet(f.bits, First(step), Length(step), Counted(f.blocks));
    WrapShift(InUseBlocks(f) - drift, Length(step));
  }

  lemma FreeBalances(f: Frames, step: BootStep, drift: int)
    requires Balanced(f, drift) && BootLegal(f, step) && step.FreeRegion?
    ensures Balanced(Boot(f, step), drift + DriftOf(f.blocks, step))
  {
    hide Counted, Wrap;
    var n: int := Length(step);
    WrapShift(InUseBlocks(f) - drift, -n);
    var cleared := ClearRange(f.bits, First(step), Length(step));
    CountOfClear(f.bits, First(step), Length(step), Counted(f.blocks));
    if CoversZero(step) {
      CountOfSet(cleared, 0, 1, Counted(f.blocks));
    } else {
      assert SetRange(cleared, 0, 1) == cleared;
    }
  }

  lemma BootStepBalances(f: Frames, step: BootStep, drift: int)
    requires Balanced(f, drift) && BootLegal(f, step)
    ensures Balanced(Boot(f, step), drift + DriftOf(f.blocks, step))
  {
    hide Balanced, BootLegal, DriftOf, Boot;
    if step.Reserve? {
      ReserveBalances(f, step, drift);
    } else {
      FreeBalances(f, step, drift);
    }
  }

  /**
   Over every legal boot sequence block 0 stays reserved and the counter is the number of used
   blocks less the drift of the steps.
   */
  lemma {:induction false} BootRunBalances(f: Frames, steps: seq<BootStep>, drift: int)
    requires Balanced(f, drift) && BootRunLegal(f, steps)
    ensures Balanced(BootRun(f, steps), drift + Drift(f.blocks, steps))
    decreases |steps|
  {
    hide Balanced, BootLegal, DriftOf;
    if steps != [] {
      BootStepBalances(f, steps[0], drift);
      BootRunBalances(Boot(f, steps[0]), steps[1..], drift + DriftOf(f.blocks, steps[0]));
    }
  }

  /** Regions below the last counted block, at most one of them over block 0. */
  predicate WithinMap(blocks: nat, steps: seq<BootStep>, zeroFreed: bool)
    decreases |steps|
  {
    steps == [] || (
      && First(steps[0]) + Length(steps[0]) <= Counted(blocks)
      && (CoversZero(steps[0]) ==> !zeroFreed)
      && WithinMap(blocks, steps[1..], zeroFreed || CoversZero(steps[0])))
  }

  lemma {:induction false} DriftWithinMap(blocks: nat, steps: seq<BootStep>, zeroFreed: bool)
    requires WithinMap(blocks, steps, zeroFreed)
    ensures Drift(blocks, steps) == if !zeroFreed && exists step <- steps :: CoversZero(step) then 1 else 0
    decreases |steps|
  {
    hide Counted;
    if steps != [] {
      DriftWithinMap(blocks, steps[1..], zeroFreed || CoversZero(steps[0]));
      assert steps == [steps[0]] + steps[1..];
      if zeroFreed || CoversZero(steps[0]) {
        NoneCoversZero(blocks, steps[1..]);
      }
    }
  }

  lemma {:induction false} NoneCoversZero(blocks: nat, steps: seq<BootStep>)
    requires WithinMap(blocks, steps, true)
    ensures forall step <- steps :: !CoversZero(step)
    decreases |steps|
  {
    hide Counted, CoversZero;
    if steps != [] {
      NoneCoversZero(blocks, steps[1..]);
      assert steps == [steps[0]] + steps[1..];
    }
  }

  /** The counter is a number of blocks exactly when the drift leaves it one. */
  lemma CounterInRange(f: Frames, drift: int)
    requires Balanced(f, drift) && f.blocks <= 0x10_0000
    requires -0x8000_0000 <= drift <= 0x8000_0000
    ensures f.used <= f.blocks <==> 0 <= InUseBlocks(f) - drift <= f.blocks
  {
  }

  /**
   For regions within the map the counter is the number of used blocks, less one exactly when a
   freed region covered block 0.
   */
  lemma BootRunAccounts(f: Frames, steps: seq<BootStep>)
    requires Accounted(f, false) && BootRunLegal(f, steps) && WithinMap(f.blocks, steps, false)
    ensures Accounted(BootRun(f, steps), exists step <- steps :: CoversZero(step))
  {
    hide BootRunLegal, WithinMap, CoversZero, Counted;
    BootRunBalances(f, steps, 0);
    DriftWithinMap(f.blocks, steps, false);
    BootKeepsSize(f, steps);
    var after := BootRun(f, steps);
    CountOne(after.bits, Counted(after.blocks));
    CounterInRange(after, Drift(f.blocks, steps));
  }

  lemma {:induction false} BootKeepsSize(f: Frames, steps: seq<BootStep>)
    ensures BootRun(f, steps).blocks == f.blocks && |BootRun(f, steps).bits| == |f.bits|
    decreases |steps|
  {
    if steps != [] {
      BootKeepsSize(Boot(f, steps[0]), steps[1..]);
    }
  }

  lemma {:induction false} CountPastClear(bits: seq<bool>, j: nat, k: nat)
    requires j <= k <= |bits| && forall b :: j <= b < k ==> !bits[b]
    ensures Count(bits, k) == Count(bits, j)
    decreases k
  {
    if j < k {
      CountPastClear(bits, j, k - 1);
    }
  }

  /**
   The kernel takes the memory size as the last address, so a last region that ends on a block
   boundary is freed one block past the count. The counter then stands one below the set bits
   of all blocks, on top of any drift before.
   */
  lemma FreedOnePast(f: Frames, base: nat, end: nat, drift: int)
    requires end % BLOCK_SIZE == 0 && base % BLOCK_SIZE == 0 && 0 < base < end
    requires f.blocks == (end - 1) / BLOCK_SIZE && base / BLOCK_SIZE <= Counted(f.blocks)
    requires Balanced(f, drift) && BootLegal(f, FreeRegion(base, end - base))
    ensures var after := Boot(f, FreeRegion(base, end - base));
            && f.blocks < |after.bits|
            && after.used == Wrap(Count(after.bits, f.blocks) - 1 - drift)
  {
    var step := FreeRegion(base, end - base);
    OnePast(f.blocks, base, end);
    BootStepBalances(f, step, drift);
    var after := Boot(f, step);
    CountPastClear(after.bits, Counted(f.blocks), f.blocks);
    hide Counted, Wrap, InitRegion;
  }

  lemma OnePast(blocks: nat, base: nat, end: nat)
    requires end % BLOCK_SIZE == 0 && base % BLOCK_SIZE == 0 && 0 < base < end
    requires blocks == (end - 1) / BLOCK_SIZE && base / BLOCK_SIZE <= Counted(blocks)
    ensures base / BLOCK_SIZE + (end - base) / BLOCK_SIZE == blocks + 1
    ensures DriftOf(blocks, FreeRegion(base, end - base)) == blocks + 1 - Counted(blocks)
  {
    hide Counted;
  }

  /** Power-on balances the counter, whatever the bitmap held before. */
  lemma InitAccounts(bits: seq<bool>, size: nat)
    requires 8 <= size / BLOCK_SIZE <= 0x10_0000
    requires |bits| >= 2 * MapEnd(Init(bits, size)) + 32
    ensures Accounted(Init(bits, size), false)
  {
    CountAll(Init(bits, size).bits, Counted(size / BLOCK_SIZE));
  }

  /** The block of a byte. */
  function BlockOf(a: nat): nat {
    a / BLOCK_SIZE
  }

  /**
   Reserving rounds down: every byte of a region ends up reserved exactly when the region is
   empty or has no partial block at either end.
   */
  lemma ReserveCoversRegion(base: nat, size: nat)
    ensures var step := Reserve(base, size);
            (forall a: nat :: base <= a < base + size ==> First(step) <= BlockOf(a) < First(step) + Length(step))
            <==> size == 0 || (base % BLOCK_SIZE == 0 && size % BLOCK_SIZE == 0)
  {
    var step := Reserve(base, size);
    if size > 0 && (base % BLOCK_SIZE != 0 || size % BLOCK_SIZE != 0) {
      var last := base + size - 1;
      assert BlockOf(last) >= First(step) + Length(step);
    }
  }

  // ---- service: allocations and frees of live extents

  datatype Extent = Extent(start: nat, len: nat)

  datatype Pool = Pool(frames: Frames, live: set<Extent>)

  datatype Request = Alloc(n: nat) | Free(e: Extent)

  predicate Apart(d: Extent, e: Extent) {
    d.start + d.len <= e.start || e.start + e.len <= d.start
  }

  /** Live extents are marked used, inside the map, pairwise disjoint, and none holds block 0. */
  ghost predicate LiveInv(bits: seq<bool>, end: nat, live: set<Extent>)
    requires end <= |bits|
  {
    && (forall e <- live :: 0 < e.start && 0 < e.len && e.start + e.len <= end)
    && (forall e <- live, b: nat :: e.start <= b < e.start + e.len ==> bits[b])
    && (forall d <- live, e <- live :: d != e ==> Apart(d, e))
  }

  ghost predicate PoolInv(p: Pool, zeroFreed: bool) {
    && Accounted(p.frames, zeroFreed)
    && LiveInv(p.frames.bits, MapEnd(p.frames), p.live)
  }

  function Serve(p: Pool, q: Request): Pool
    requires Valid(p.frames)
  {
    match q
    case Alloc(n) =>
      var (after, address) := AllocBlocks(p.frames, n);
      Pool(after, if address == 0 then p.live else p.live + {Extent(address / BLOCK_SIZE, n)})
    case Free(e) =>
      Pool(FreeBlocks(p.frames, e.start * BLOCK_SIZE, e.len), p.live - {e})
  }

  /** The guard of an allocation: it goes on to the search. */
  predicate PassesGuard(f: Frames, n: nat) {
    Wrap(f.blocks - f.used) > n
  }

  /** Some start passes the search, which clamps to the last bitmap word. */
  predicate SearchSucceeds(f: Frames, n: nat)
    requires Valid(f)
  {
    exists s: nat :: s < MapEnd(f) && ClampedRun(f.bits, SearchWords(f), s, n)
  }

  /**
   What the caller must see to: frees are of live extents, and an allocation that gets past the
   guard and finds a run finds one that lies in the map.
   */
  ghost predicate Fits(p: Pool, q: Request)
    requires Valid(p.frames)
  {
    match q
    case Alloc(n) => n == 0 || !PassesGuard(p.frames, n) || !SearchSucceeds(p.frames, n) || exists s: nat :: FreeRun(p.frames, s, n)
    case Free(e) => e in p.live
  }

  /** An allocation succeeds exactly when it gets past the guard and the search, block 0 being used. */
  lemma AllocSucceeds(f: Frames, n: nat)
    requires Valid(f) && f.bits[0]
    ensures AllocBlocks(f, n).1 != 0 <==> n > 0 && PassesGuard(f, n) && SearchSucceeds(f, n)
  {
    SearchIsFirst(f.bits, SearchWords(f), n, 0);
    if SearchWords(f) > 0 {
      assert Probe(SearchWords(f), 0) == 0;
    }
  }

  /** The guard compares with the free blocks and the drift, exactly. */
  lemma GuardIsExact(f: Frames, n: nat, drift: int)
    requires Valid(f) && Balanced(f, drift) && 0 <= InUseBlocks(f) - drift <= f.blocks
    ensures PassesGuard(f, n) <==> Counted(f.blocks) - Count(f.bits, Counted(f.blocks)) + drift > n
  {
    hide Counted;
  }

  /** When the guard lets a request through to the search, that many bits really are free. */
  lemma GuardMeansFree(f: Frames, n: nat, zeroFreed: bool)
    requires Accounted(f, zeroFreed)
    ensures PassesGuard(f, n) <==> Counted(f.blocks) - Count(f.bits, Counted(f.blocks)) + (if zeroFreed then 1 else 0) > n
    ensures PassesGuard(f, n) ==> Counted(f.blocks) - Count(f.bits, Counted(f.blocks)) >= n
  {
    hide Counted;
    CountOne(f.bits, Counted(f.blocks));
    GuardIsExact(f, n, if zeroFreed then 1 else 0);
  }

  lemma AllocTakesFirstFit(p: Pool, n: nat, zeroFreed: bool)
    requires PoolInv(p, zeroFreed) && AllocBlocks(p.frames, n).1 != 0
    ensures var start := FirstFit(p.frames, n);
            && n > 0 && start >= 0
            && Serve(p, Alloc(n)).live == p.live + {Extent(start, n)}
            && Serve(p, Alloc(n)).frames.bits == SetRange(p.frames.bits, start, n)
  {
    hide Counted;
    FirstFitIsFirst(p.frames, n);
  }

  /** A null result means failure: block 0 is used, so address 0 is never a block handed out. */
  lemma NullMeansFailure(p: Pool, n: nat, zeroFreed: bool)
    requires PoolInv(p, zeroFreed) && AllocBlocks(p.frames, n).1 == 0
    ensures AllocBlocks(p.frames, n).0 == p.frames
    ensures Serve(p, Alloc(n)) == p
  {
    hide Counted;
    if n > 0 {
      SearchIsFirst(p.frames.bits, SearchWords(p.frames), n, 0);
      if SearchWords(p.frames) > 0 {
        assert Probe(SearchWords(p.frames), 0) == 0;
      }
    }
  }

  lemma FreeIsApart(p: Pool, start: nat, n: nat, zeroFreed: bool)
    requires PoolInv(p, zeroFreed) && n > 0 && FreeRun(p.frames, start, n)
    ensures start > 0 && forall e <- p.live :: Apart(e, Extent(start, n))
  {
    hide Counted;
    forall e <- p.live
      ensures Apart(e, Extent(start, n))
    {
      var b := if e.start <= start then start else e.start;
      if b < e.start + e.len {
        assert p.frames.bits[b];
      }
    }
  }

  lemma LiveGrows(bits: seq<bool>, end: nat, live: set<Extent>, e: Extent)
    requires end <= |bits| && LiveInv(bits, end, live)
    requires 0 < e.start && 0 < e.len && e.start + e.len <= end
    requires forall d <- live :: Apart(d, e)
    ensures LiveInv(SetRange(bits, e.start, e.len), end, live + {e})
  {
  }

  lemma TakingBalances(f: Frames, start: nat, n: nat, drift: int)
    requires Valid(f) && Balanced(f, drift) && FreeRun(f, start, n)
    ensures Balanced(f.(bits := SetRange(f.bits, start, n), used := Wrap(f.used + n)), drift)
  {
    hide Counted, Wrap;
    CountOfSet(f.bits, start, n, Counted(f.blocks));
    WrapShift(InUseBlocks(f) - drift, n);
  }

  lemma GivingBackBalances(f: Frames, e: Extent, drift: int)
    requires Valid(f) && Balanced(f, drift) && 0 < e.start && e.start + e.len <= MapEnd(f)
    requires forall b :: e.start <= b < e.start + e.len ==> f.bits[b]
    ensures Balanced(FreeBlocks(f, e.start * BLOCK_SIZE, e.len), drift)
  {
    hide Counted, Wrap;
    var n: int := e.len;
    CountOfClear(f.bits, e.start, e.len, Counted(f.blocks));
    WrapShift(InUseBlocks(f) - drift, -n);
  }

  lemma AllocKeeps(p: Pool, n: nat, zeroFreed: bool)
    requires PoolInv(p, zeroFreed)
    requires AllocBlocks(p.frames, n).1 != 0 && exists s: nat :: FreeRun(p.frames, s, n)
    ensures PoolInv(Serve(p, Alloc(n)), zeroFreed)
  {
    hide Balanced, LiveInv, FirstFit, Apart;
    AllocTakesFirstFit(p, n, zeroFreed);
    FirstFitIsFirst(p.frames, n);
    var start := FirstFit(p.frames, n);
    FreeIsApart(p, start, n, zeroFreed);
    TakingBalances(p.frames, start, n, if zeroFreed then 1 else 0);
    LiveGrows(p.frames.bits, MapEnd(p.frames), p.live, Extent(start, n));
  }

  lemma LiveShrinks(bits: seq<bool>, end: nat, live: set<Extent>, e: Extent)
    requires end <= |bits| && LiveInv(bits, end, live) && e in live
    ensures LiveInv(ClearRange(bits, e.start, e.len), end, live - {e})
  {
    forall d <- live - {e}, b: nat | d.start <= b < d.start + d.len
      ensures ClearRange(bits, e.start, e.len)[b]
    {
      assert Apart(d, e) || Apart(e, d);
    }
  }

  lemma FreeKeeps(p: Pool, e: Extent, zeroFreed: bool)
    requires PoolInv(p, zeroFreed) && e in p.live
    ensures PoolInv(Serve(p, Free(e)), zeroFreed)
  {
    hide Balanced;
    GivingBackBalances(p.frames, e, if zeroFreed then 1 else 0);
    LiveShrinks(p.frames.bits, MapEnd(p.frames), p.live, e);
  }

  /** Service keeps the pool in order exactly when the request fits. */
  lemma ServeKeeps(p: Pool, q: Request, zeroFreed: bool)
    requires PoolInv(p, zeroFreed)
    requires q.Free? ==> Fits(p, q)
    ensures PoolInv(Serve(p, q), zeroFreed) <==> Fits(p, q)
  {
    hide Counted;
    match q
    case Free(e) => FreeKeeps(p, e, zeroFreed);
    case Alloc(n) =>
      AllocSucceeds(p.frames, n);
      if AllocBlocks(p.frames, n).1 == 0 {
        NullMeansFailure(p, n, zeroFreed);
      } else if Fits(p, q) {
        AllocKeeps(p, n, zeroFreed);
      } else {
        AllocTakesFirstFit(p, n, zeroFreed);
        FirstFitIsFirst(p.frames, n);
        assert Extent(FirstFit(p.frames, n), n) in Serve(p, q).live;
      }
  }

  ghost predicate AllFit(p: Pool, qs: seq<Request>, zeroFreed: bool)
    requires PoolInv(p, zeroFreed)
    decreases |qs|
  {
    qs == [] || (
      && Fits(p, qs[0])
      && (ServeKeeps(p, qs[0], zeroFreed); AllFit(Serve(p, qs[0]), qs[1..], zeroFreed)))
  }

  ghost function ServeAll(p: Pool, qs: seq<Request>, zeroFreed: bool): Pool
    requires PoolInv(p, zeroFreed) && AllFit(p, qs, zeroFreed)
    decreases |qs|
  {
    if qs == [] then p else
    ServeKeeps(p, qs[0], zeroFreed);
    ServeAll(Serve(p, qs[0]), qs[1..], zeroFreed)
  }

  /** Over every run of fitting requests live extents stay disjoint, marked used and off block 0. */
  lemma {:induction false} ServiceIsSafe(p: Pool, qs: seq<Request>, zeroFreed: bool)
    requires PoolInv(p, zeroFreed) && AllFit(p, qs, zeroFreed)
    ensures PoolInv(ServeAll(p, qs, zeroFreed), zeroFreed)
    decreases |qs|
  {
    hide LiveInv, Balanced, Serve, Fits;
    if qs != [] {
      ServeKeeps(p, qs[0], zeroFreed);
      ServiceIsSafe(Serve(p, qs[0]), qs[1..], zeroFreed);
    }
  }

  lemma WrapBack(u: nat, n: nat)
    requires u < WORD_SPAN
    ensures Wrap(Wrap(u + n) - n) == u
  {
  }

  lemma SetThenClear(bits: seq<bool>, start: nat, n: nat)
    requires forall b :: start <= b < start + n && b < |bits| ==> !bits[b]
    ensures ClearRange(SetRange(bits, start, n), start, n) == bits
  {
  }

  /** Allocating and freeing again restores the allocator exactly. */
  lemma AllocThenFree(p: Pool, n: nat, zeroFreed: bool)
    requires PoolInv(p, zeroFreed) && Fits(p, Alloc(n)) && AllocBlocks(p.frames, n).1 != 0
    ensures var (after, address) := AllocBlocks(p.frames, n);
            FreeBlocks(after, address, n) == p.frames
  {
    AllocSucceeds(p.frames, n);
    AllocTakesFirstFit(p, n, zeroFreed);
    FirstFitIsFirst(p.frames, n);
    hide Counted, LiveInv, Balanced, Wrap, FirstFit, SetRange, ClearRange;
    WrapBack(p.frames.used, n);
    SetThenClear(p.frames.bits, FirstFit(p.frames, n), n);
  }
}
