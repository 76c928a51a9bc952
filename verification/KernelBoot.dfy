/**
 The memory managers in the order the kernel starts them: the frame allocator is told of the
 memory regions, paging is turned on, and the heap opens at address 0 on its first use.
 */
module KernelBoot {
  import opened Words
  import opened FrameMap
  import opened FramePool
  import opened BootRegions
  import opened PageEntry
  import opened Paging
  import PagingRuns
  import opened PagingOn
  import opened HeapList
  import opened HeapModel
  import opened HeapRuns
  import opened HeapReach
  import opened HeapPagingOn
  import PagingInit

  /** Power-on: what bitmap and memory hold, the memory size and the boot steps. */
  datatype Power = Power(bits: seq<bool>, size: nat, steps: seq<BootStep>, mem: seq<Table>, dir: nat)

  function Initial(p: Power): Frames {
    FrameMap.Init(p.bits, p.size)
  }

  /** At least eight blocks, a bitmap with room behind it, frames for every block of the map, legal boot steps. */
  predicate PoweredOn(p: Power) {
    && 8 <= p.size / BLOCK_SIZE <= 0x10_0000
    && |p.bits| >= 2 * MapEnd(Initial(p)) + 32
    && MapEnd(Initial(p)) <= |p.mem| <= 0x10_0000
    && BootRunLegal(Initial(p), p.steps)
  }

  /** The machine once the regions are freed and reserved; paging is still off. */
  function Booted(p: Power): Machine {
    Machine(BootRun(Initial(p), p.steps), p.mem, p.dir)
  }

  /** Every legal boot sequence leaves what vmmngr_init needs. */
  lemma BootIsReady(p: Power)
    requires PoweredOn(p)
    ensures PagingInit.Ready(Booted(p))
  {
    hide BootRun, BootRunLegal, FrameMap.Init, Count, Drift, Counted;
    InitAccounts(p.bits, p.size);
    BootRunBalances(Initial(p), p.steps, 0);
    BootKeepsSize(Initial(p), p.steps);
  }

  /** The heap before its first use, on the page tables of vmmngr_init. */
  function FirstHeap(m: Machine): Heap
    requires PagingInit.Ready(m)
  {
    Heap(PagingInit.Init(m).0, 0, [], 0, false)
  }

  lemma FirstHeapIsUntouched(m: Machine)
    requires PagingInit.Ready(m) && PagingInit.Answers(m.frames)
    ensures Started(FirstHeap(m)) && Untouched(FirstHeap(m))
  {
    hide PagingInit.Init, Inv, TopLeft;
    PagingInit.InitTranslates(m);
  }

  // ---- where vmmngr_init puts its structures

  /** The structures of vmmngr_init are the frames of its three allocations. */
  lemma InitStructures(m: Machine) returns (t1: nat, t2: nat)
    requires PagingInit.Ready(m) && PagingInit.Answers(m.frames)
    ensures var m' := PagingInit.Init(m).0;
            && Inv(m') && PagingInit.Taken(m.frames, t1, t2, m'.dir, m'.frames)
            && forall f: nat :: IsStructure(m', f) <==> f == t1 || f == t2 || f == m'.dir
  {
    hide PagingInit.Init, AllocBlocks, IsPresent, FrameNumber, PagingInit.UserTableEntry, ZeroTable,
         PagingInit.IdentityTable, PagingInit.KernelTable, PagingInit.Taken;
    PagingInit.InitTranslates(m);
    t1, t2 := PagingInit.InitParts(m);
    var m' := PagingInit.Init(m).0;
    PagingInit.InitEntries(m', t1, t2);
    PagingInit.UserTableReads(t1);
    PagingInit.UserTableReads(t2);
    ZeroEntry();
    assert DirEntry(m', 0) == PagingInit.UserTableEntry(PAGE_SIZE * t1) && DirEntry(m', 768) == PagingInit.UserTableEntry(PAGE_SIZE * t2);
  }

  /** Their frames were free, and every frame in use before is in use after. */
  lemma TakenWereFree(f: Frames, t1: nat, t2: nat, dir: nat, after: Frames)
    requires Valid(f) && PagingInit.Taken(f, t1, t2, dir, after)
    ensures Valid(after) && after.blocks == f.blocks && |after.bits| == |f.bits|
    ensures forall t :: t in {t1, t2, dir} ==> t < MapEnd(f) && !f.bits[t]
    ensures forall b :: 0 <= b < |f.bits| && f.bits[b] ==> after.bits[b]
  {
    var f1 := AllocBlocks(f, 1).0;
    PagingInit.AllocFrom(f, 1);
    PagingInit.AllocFrom(f1, 1);
    PagingInit.AllocFrom(AllocBlocks(f1, 1).0, 3);
    hide AllocBlocks;
  }

  /**
   The structures are reachable after vmmngr_init exactly when their frames lie in the first
   4 MiB, which alone map to themselves.
   */
  lemma InitReaches(m: Machine)
    requires PagingInit.Ready(m) && PagingInit.Answers(m.frames)
    ensures var m' := PagingInit.Init(m).0;
            && Inv(m')
            && (Reachable(m') <==> forall f: nat :: IsStructure(m', f) ==> f < ENTRIES)
            && (Reachable(m') ==> LowTables(m'))
  {
    hide PagingInit.Init, Walk, IsPresent;
    PagingInit.InitTranslates(m);
    FirstTable(m);
    var m' := PagingInit.Init(m).0;
    DirIsStructure(m');
    var t1, t2 := InitStructures(m);
    hide IsStructure, PagingInit.Taken;
    forall f: nat | IsStructure(m', f)
      ensures f < ENTRIES * ENTRIES && (Walk(m', f) == Maps(f) <==> f < ENTRIES)
    {
      StructureInMemory(m', f);
      assert Walk(m', f) == PagingInit.IntendedPage(f);
    }
  }

  lemma StructureInMemory(m: Machine, f: nat)
    requires Inv(m) && IsStructure(m, f)
    ensures f < ENTRIES * ENTRIES
  {
    hide IsPresent, FrameNumber;
  }

  lemma FitsLow(f: Frames, n: nat, s: nat)
    requires Valid(f) && n > 0 && FreeRun(f, s, n) && AllocBlocks(f, n).1 != 0
    ensures AllocBlocks(f, n).1 / BLOCK_SIZE <= s
  {
    FirstFitIsFirst(f, n);
  }

  /** A free run in the map and the guard make an allocation answer. */
  lemma RunAnswers(f: Frames, n: nat, s: nat)
    requires Valid(f) && f.bits[0] && n > 0 && FreeRun(f, s, n) && PassesGuard(f, n)
    ensures AllocBlocks(f, n).1 != 0 && AllocBlocks(f, n).1 / BLOCK_SIZE <= s
    ensures var after := AllocBlocks(f, n).0; Valid(after) && after.used == Wrap(f.used + n) && after.blocks == f.blocks
  {
    InMapRun(f, s, n);
    AllocSucceeds(f, n);
    FitsLow(f, n, s);
    PagingInit.AllocFrom(f, n);
  }

  /** The guard has as many blocks less to compare with as were taken. */
  lemma GuardAfter(f: Frames, g: Frames, n: nat, k: nat)
    requires Valid(f) && g.blocks == f.blocks && g.used == Wrap(f.used + n) && PassesGuard(f, n + k)
    ensures PassesGuard(g, k)
  {
  }

  /** Five free frames in a row, and the guard lets five through: vmmngr_init succeeds. */
  lemma FiveFramesAnswer(f: Frames, s: nat)
    requires Valid(f) && f.bits[0] && FreeRun(f, s, 5) && PassesGuard(f, 5)
    ensures PagingInit.Answers(f)
  {
    hide AllocBlocks, PassesGuard, SetRange;
    GuardBelow(f, 1, 5);
    RunAnswers(f, 1, s);
    PagingInit.AllocFrom(f, 1);
    var (f1, a1) := AllocBlocks(f, 1);
    GuardAfter(f, f1, 1, 4);
    GuardBelow(f1, 1, 4);
    RunAnswers(f1, 1, s + 1);
    PagingInit.AllocFrom(f1, 1);
    var (f2, a2) := AllocBlocks(f1, 1);
    GuardAfter(f1, f2, 1, 3);
    RunAnswers(f2, 3, s + 2);
    var (f3, a3) := AllocBlocks(f2, 3);
    assert PagingInit.Taken(f, a1 / BLOCK_SIZE, a2 / BLOCK_SIZE, a3 / BLOCK_SIZE, f3);
  }

  lemma GuardBelow(f: Frames, n: nat, k: nat)
    requires PassesGuard(f, k) && n <= k
    ensures PassesGuard(f, n)
  {
  }

  /** Five free frames in a row below 4 MiB are enough to put them there. */
  lemma InitLandsLow(m: Machine, s: nat)
    requires PagingInit.Ready(m) && PagingInit.Answers(m.frames)
    requires FreeRun(m.frames, s, 5) && s + 5 <= ENTRIES
    ensures Inv(PagingInit.Init(m).0) && Reachable(PagingInit.Init(m).0)
  {
    hide PagingInit.Init, AllocBlocks, IsStructure, Reachable, LowTables;
    InitReaches(m);
    var t1, t2 := InitStructures(m);
    var f1 := AllocBlocks(m.frames, 1).0;
    var f2 := AllocBlocks(f1, 1).0;
    PagingInit.AllocFrom(m.frames, 1);
    FitsLow(m.frames, 1, s);
    PagingInit.AllocFrom(f1, 1);
    FitsLow(f1, 1, s + 1);
    FitsLow(f2, 3, s + 2);
  }

  /** With the guard letting five through, they are enough for vmmngr_init to succeed as well. */
  lemma FiveFramesStart(m: Machine, s: nat)
    requires PagingInit.Ready(m) && FreeRun(m.frames, s, 5) && PassesGuard(m.frames, 5)
    ensures PagingInit.Init(m).1 && Inv(PagingInit.Init(m).0)
    ensures s + 5 <= ENTRIES ==> Reachable(PagingInit.Init(m).0)
  {
    hide PagingInit.Init, Reachable, PassesGuard, FreeRun;
    FiveFramesAnswer(m.frames, s);
    PagingInit.InitWalks(m);
    if s + 5 <= ENTRIES {
      InitLandsLow(m, s);
    }
  }

  /**
   With the kernel's reservation below 0x16000 and the next frame free, the first table is in
   frame 0x16: a heap of 23 pages hides it.
   */
  lemma FirstTableAfterReserved(m: Machine)
    requires PagingInit.Ready(m) && PagingInit.Answers(m.frames)
    requires 0x16 < MapEnd(m.frames) && !m.frames.bits[0x16] && forall b :: 0 <= b < 0x16 ==> m.frames.bits[b]
    ensures Inv(PagingInit.Init(m).0) && IsStructure(PagingInit.Init(m).0, 0x16)
    ensures forall pages: nat :: ClearOf(PagingInit.Init(m).0, pages) ==> pages <= 0x16
  {
    hide PagingInit.Init, IsStructure;
    var t1, t2 := InitStructures(m);
    PagingInit.AllocFrom(m.frames, 1);
    FitsLow(m.frames, 1, 0x16);
    hide AllocBlocks;
    assert m.frames.bits[0x16] == false && t1 <= 0x16;
  }

  // ---- when calls are granted

  /** Pages of the first 4 MiB have their table, so mapping them never fails. */
  lemma {:induction false} MapsInFirstTable(m: Machine, phys: nat, i: nat, n: nat)
    requires Inv(m) && phys < WORD_SPAN && i + n <= ENTRIES && IsPresent(DirEntry(m, 0))
    ensures AllMapped(m, phys, i * PAGE_SIZE, n)
    decreases n
  {
    hide Inv, IsPresent, MapPage, AddWritable, CanMap, DirEntry;
    if n > 0 {
      var virt := i * PAGE_SIZE;
      FirstTableStays(m, phys, virt);
      MapsInFirstTable(AddWritable(MapPage(m, phys, virt), virt), Wrap(phys + PAGE_SIZE), i + 1, n - 1);
    }
  }

  lemma FirstTableStays(m: Machine, phys: nat, virt: nat)
    requires Inv(m) && phys < WORD_SPAN && virt < ENTRIES * PAGE_SIZE && IsPresent(DirEntry(m, 0))
    ensures CanMap(m, virt) && Inv(MapPage(m, phys, virt))
    ensures var m' := AddWritable(MapPage(m, phys, virt), virt); Inv(m') && IsPresent(DirEntry(m', 0))
  {
    hide IsPresent, FrameNumber, MapEntry, AddWritable, SetWord;
    assert DirIndex(virt) == 0;
    SetPageKeeps(m, virt, MapEntry(PageEntryOf(m, virt), phys));
    AddWritableKeeps(MapPage(m, phys, virt), virt);
  }

  /**
   After vmmngr_init the first malloc is granted whenever the guard lets the least number of pages
   that holds the request through, a run of that many frames is in the map, the pages lie in the
   first 4 MiB and the rest of the last page has room for two headers.
   */
  lemma FirstMallocIsGranted(m: Machine, size: nat, pages: nat, s: nat)
    requires PagingInit.Ready(m) && PagingInit.Answers(m.frames)
    requires Inv(PagingInit.Init(m).0)
    requires 0 < size && HoldsLeast(pages, size) && pages <= ENTRIES && size + 24 <= pages * 4096
    requires PassesGuard(PagingInit.Init(m).0.frames, pages) && FreeRun(PagingInit.Init(m).0.frames, s, pages)
    ensures Started(FirstHeap(m)) && Granted(FirstHeap(m), Allocate(size))
  {
    hide PagingInit.Init, AllocBlocks, IsPresent, MapRange, AllMapped, ClearFrom, PagesHaveFrames, PassesGuard;
    LeastIsUnique(pages, PagesFor(size), size);
    FirstHeapIsUntouched(m);
    var h := FirstHeap(m);
    RunAnswers(h.machine.frames, pages, s);
    hide FreeRun, HoldsLeast;
    PagingRuns.GrabKeeps(h.machine, pages);
    RunAddress(h.machine.frames, pages);
    var (grabbed, phys) := Grabbed(h, size);
    FirstTable(m);
    MapsInFirstTable(grabbed, phys, 0, pages);
    hide Inv;
    assert InitObtains(h, size);
    InitKeeps(h, size);
  }

  /** That first malloc takes exactly those pages: it does not grow. */
  lemma FirstMallocPages(m: Machine, size: nat, pages: nat)
    requires PagingInit.Ready(m) && PagingInit.Answers(m.frames) && Started(FirstHeap(m)) && Granted(FirstHeap(m), Allocate(size))
    requires HoldsLeast(pages, size) && size + 24 <= pages * 4096
    ensures Started(Step(FirstHeap(m), Allocate(size))) && PagesOf(Step(FirstHeap(m), Allocate(size))) == pages
  {
    hide PagingInit.Init, HeapMapped, Sound, Live, GrowObtains, InitObtains, Slack, Malloc, NextBlock, Swallowed,
         MapRange, Place, SameWalks;
    LeastIsUnique(pages, PagesFor(size), size);
    var h := FirstHeap(m);
    StepKeeps(h, Allocate(size));
    OpenedIsInOrder(h, size);
    OpensInSpace(h, size);
    MallocIsTake(h, size);
    TakeKeeps(Opened(h, size), size);
  }

  lemma OpensInSpace(h: Heap, size: nat)
    requires Started(h) && Opens(h, size) && !h.inited
    ensures InSpace(h.base, PagesFor(size))
  {
  }

  /**
   It keeps the structures reachable exactly when its pages stay below all of their frames.
   Otherwise it maps heap pages over the tables it is writing.
   */
  lemma FirstMallocReaches(m: Machine, size: nat, pages: nat)
    requires PagingInit.Ready(m) && PagingInit.Answers(m.frames) && Started(FirstHeap(m)) && Granted(FirstHeap(m), Allocate(size))
    requires HoldsLeast(pages, size) && size + 24 <= pages * 4096 && Reachable(PagingInit.Init(m).0)
    ensures Started(Step(FirstHeap(m), Allocate(size)))
    ensures Reachable(Step(FirstHeap(m), Allocate(size)).machine) <==> ClearOf(PagingInit.Init(m).0, pages)
  {
    hide PagingInit.Init, Started, Granted, Step, Reachable, LowTables, ClearOf;
    InitReaches(m);
    var h := FirstHeap(m);
    StepKeeps(h, Allocate(size));
    StepExtends(h, Allocate(size));
    GrownReaches(h, Step(h, Allocate(size)));
    FirstMallocPages(m, size, pages);
  }

  lemma FirstTable(m: Machine)
    requires PagingInit.Ready(m) && PagingInit.Answers(m.frames)
    ensures Inv(PagingInit.Init(m).0) && IsPresent(DirEntry(PagingInit.Init(m).0, 0))
  {
    hide PagingInit.Init, IsPresent, PagingInit.UserTableEntry, ZeroTable;
    PagingInit.InitTranslates(m);
    var t1, t2 := PagingInit.InitParts(m);
    PagingInit.InitEntries(PagingInit.Init(m).0, t1, t2);
    PagingInit.UserTableReads(t1);
  }

  /** Paging comes up and every heap call is granted. */
  ghost predicate Serves(p: Power, ops: seq<HeapOp>)
    requires PoweredOn(p)
  {
    BootIsReady(p);
    PagingInit.Answers(Booted(p).frames) && (FirstHeapIsUntouched(Booted(p)); AllGranted(FirstHeap(Booted(p)), ops))
  }

  /** The heap after the calls. */
  ghost function HeapAfter(p: Power, ops: seq<HeapOp>): Heap
    requires PoweredOn(p) && Serves(p, ops)
  {
    BootIsReady(p);
    FirstHeapIsUntouched(Booted(p));
    Run(FirstHeap(Booted(p)), ops)
  }

  /** The heap the calls start from. */
  function Start(p: Power): Heap
    requires PoweredOn(p)
  {
    BootIsReady(p);
    FirstHeap(Booted(p))
  }

  lemma StartShape(p: Power)
    requires PoweredOn(p) && PagingInit.Ready(Booted(p)) && PagingInit.Answers(Booted(p).frames)
    ensures Inv(Start(p).machine) && Shape(Start(p).machine)
  {
    hide PagingInit.Init, PoweredOn, Booted;
    PagingInit.InitTranslates(Booted(p));
  }

  lemma ServesIs(p: Power, ops: seq<HeapOp>)
    requires PoweredOn(p) && Serves(p, ops)
    ensures Started(Start(p)) && AllGranted(Start(p), ops) && Start(p).base == 0 && PagesOf(Start(p)) == 0
    ensures HeapAfter(p, ops) == Run(Start(p), ops) && Started(HeapAfter(p, ops)) && Shape(Start(p).machine)
  {
    hide Started, PoweredOn, Booted, PagingInit.Init, PagingInit.Ready, AllGranted;
    BootIsReady(p);
    StartShape(p);
    FirstHeapIsUntouched(Booted(p));
    RunKeeps(Start(p), ops);
  }

  /** With paging on, every access of the calls to a table lands in that table. */
  ghost predicate ReachesTables(p: Power, ops: seq<HeapOp>)
    requires PoweredOn(p) && Serves(p, ops)
  {
    ServesIs(p, ops);
    RunsAlike(Start(p), ops)
  }

  /** The heap is still below every structure, and all of them were within reach at the start. */
  ghost predicate StaysBelow(p: Power, ops: seq<HeapOp>)
    requires PoweredOn(p) && Serves(p, ops)
  {
    ServesIs(p, ops);
    Reachable(Start(p).machine) && ClearOf(Start(p).machine, PagesOf(HeapAfter(p, ops)))
  }

  /**
   From power-on, over every granted run: the structures are reachable in the end exactly when
   they were at the start and the heap is still below the first of them; then every access on
   the way reached them.
   */
  lemma BootedReaches(p: Power, ops: seq<HeapOp>)
    requires PoweredOn(p) && Serves(p, ops)
    ensures Started(Start(p)) && Started(HeapAfter(p, ops))
    ensures Reachable(Start(p).machine) ==> (Reachable(HeapAfter(p, ops).machine) <==> StaysBelow(p, ops))
    ensures StaysBelow(p, ops) ==> ReachesTables(p, ops)
  {
    hide Started, PoweredOn, Serves, Booted, PagingInit.Init, AllGranted, Reachable, LowTables, ClearOf, HeapAfter;
    BootIsReady(p);
    ServesIs(p, ops);
    if Reachable(Start(p).machine) {
      StartIsLow(p, ops);
      RunReaches(Start(p), ops);
      if StaysBelow(p, ops) {
        RunOnAgrees(Start(p), ops);
      }
    }
  }

  lemma StartIsLow(p: Power, ops: seq<HeapOp>)
    requires PoweredOn(p) && Serves(p, ops) && Started(Start(p)) && Reachable(Start(p).machine)
    ensures LowTables(Start(p).machine)
  {
    hide PoweredOn, Booted, PagingInit.Init, PagingInit.Ready, AllGranted, Reachable, LowTables;
    BootIsReady(p);
    InitReaches(Booted(p));
  }

  /**
   A frame in use after boot never becomes a heap page or a table, whatever calls follow; in the
   first 4 MiB it is reachable at its own address exactly as long as the heap is below it.
   */
  lemma BootedFramesStay(p: Power, ops: seq<HeapOp>, f: nat)
    requires PoweredOn(p) && Serves(p, ops)
    requires |Booted(p).frames.bits| >= MapEnd(Booted(p).frames) && 0 < f < MapEnd(Booted(p).frames) && Booted(p).frames.bits[f]
    ensures var h := HeapAfter(p, ops);
            && Started(h) && OffHeap(h, f) && !IsStructure(h.machine, f)
            && (f < ENTRIES ==> (Walk(h.machine, f) == Maps(f) <==> PagesOf(h) <= f))
  {
    hide PoweredOn, Booted, PagingInit.Init, PagingInit.Taken, AllGranted, Walk, IsStructure, Run, HeapAfter, Serves;
    BootIsReady(p);
    ServesIs(p, ops);
    var m := Booted(p);
    BootedInit(p, ops);
    var t1, t2 := InitStructures(m);
    TakenWereFree(m.frames, t1, t2, PagingInit.Init(m).0.dir, PagingInit.Init(m).0.frames);
    PagingInit.InitTranslates(m);
    UsedFramesStay(Start(p), ops, f);
    if f < ENTRIES {
      assert Walk(Start(p).machine, f) == PagingInit.IntendedPage(f);
      OwnAddressStays(Start(p), ops, f);
    }
  }

  /**
   So every whole block of a region the boot sequence reserves, and does not free later, stays
   off the heap and off the tables: the bootloader's memory and the kernel image keep theirs.
   */
  lemma ReservedFramesStay(p: Power, ops: seq<HeapOp>, i: nat, f: nat)
    requires PoweredOn(p) && Serves(p, ops)
    requires i < |p.steps| && p.steps[i].Reserve? && Inside(p.steps[i], f) && RoundsWell(p.steps[i])
    requires forall j :: i < j < |p.steps| && p.steps[j].FreeRegion? ==> !Meets(p.steps[j], f)
    requires 0 < f && (f + 32) * 4096 <= p.size
    ensures var h := HeapAfter(p, ops);
            && Started(h) && OffHeap(h, f) && !IsStructure(h.machine, f)
            && (f < ENTRIES ==> (Walk(h.machine, f) == Maps(f) <==> PagesOf(h) <= f))
  {
    hide Serves, BootRun, Inside, Meets, RoundsWell, HeapAfter, BootRunLegal, Walk, IsStructure, OffHeap, Started,
         FrameMap.Init;
    InMap(p, f);
    BootKeepsSize(Initial(p), p.steps);
    ReservedIsUsed(Initial(p), p.steps, i, f);
    BootedFramesStay(p, ops, f);
  }

  lemma InMap(p: Power, f: nat)
    requires PoweredOn(p) && (f + 32) * 4096 <= p.size
    ensures f < MapEnd(Initial(p)) <= |Initial(p).bits|
    ensures MapEnd(Booted(p).frames) == MapEnd(Initial(p)) && |Booted(p).frames.bits| == |Initial(p).bits|
  {
    hide BootRun, BootRunLegal;
    BootKeepsSize(Initial(p), p.steps);
    MapCoversBlocks(Initial(p));
    InitCountsBlocks(p.bits, p.size);
  }

  lemma BootedInit(p: Power, ops: seq<HeapOp>)
    requires PoweredOn(p) && Serves(p, ops)
    ensures PagingInit.Ready(Booted(p)) && PagingInit.Answers(Booted(p).frames)
  {
    BootIsReady(p);
  }

  /** Byte `x` of the payload of block `i`, a block in use. */
  predicate InUse(h: Heap, i: nat, x: nat) {
    i < |h.nodes| && !h.nodes[i].free && x < h.nodes[i].size
  }

  /**
   From power-on, over every legal boot sequence and every run of granted heap calls: different
   payload bytes in use are different physical bytes, none of them in the page directory or a
   page table. The memory is that of the kernel with paging on as long as the heap stays below
   the structures.
   */
  lemma BootedBytesApart(p: Power, ops: seq<HeapOp>, i: nat, x: nat, j: nat, y: nat)
    requires PoweredOn(p) && Serves(p, ops)
    requires var h := HeapAfter(p, ops); h.inited && InUse(h, i, x) && InUse(h, j, y) && (i, x) != (j, y)
    ensures var h := HeapAfter(p, ops);
            && HeapInv(h) && PayloadByte(h, i, x) < WORD_SPAN && PayloadByte(h, j, y) < WORD_SPAN
            && Physical(h, PayloadByte(h, i, x)) != Physical(h, PayloadByte(h, j, y))
            && OutsideStructures(h, Physical(h, PayloadByte(h, i, x)))
    ensures StaysBelow(p, ops) ==> ReachesTables(p, ops)
  {
    hide HeapInv, Physical, OutsideStructures, PayloadByte, Untouched, Booted, PagingInit.Init, PagingInit.Ready,
         PoweredOn, AllGranted, Serves, Reachable, ClearOf;
    BootedReaches(p, ops);
    PayloadBytesApart(HeapAfter(p, ops), i, x, j, y);
  }

  // ---- the bitmap

  /** The kernel's reservation of its bitmap at 0x30000 does nothing below 128 MiB of memory. */
  lemma BitmapIsNotReserved(f: Frames)
    requires Valid(f) && f.blocks < 0x8000
    ensures DeinitRegion(f, 0x3_0000, f.blocks / 8) == f
  {
  }

  /** So the bitmap's own frame is handed out as soon as the blocks below it are in use. */
  lemma BitmapIsHandedOut(f: Frames)
    requires Valid(f) && 48 < MapEnd(f) && !f.bits[48] && (forall b :: 0 <= b < 48 ==> f.bits[b])
    requires PassesGuard(f, 1)
    ensures AllocBlocks(f, 1).1 == 0x3_0000
  {
    FirstFitIsFirst(f, 1);
    assert FreeRun(f, 48, 1);
    forall s: nat | s < 48
      ensures !FreeRun(f, s, 1)
    {
      assert f.bits[s];
    }
  }
}
