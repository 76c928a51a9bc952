/**
 The heap operations and their runs: initialization, allocation with growth, release. Runs with
 the heap at address 0 allow any order of releases; runs at a nonzero address are stack-like.
 */
module HeapRuns {
  import opened Words
  import opened FrameMap
  import opened Paging
  import opened PagingRuns
  import opened HeapList
  import opened HeapMerge
  import opened HeapModel

  // ---- the code

  lemma RunAddress(f: Frames, n: nat)
    requires Valid(f)
    ensures AllocBlocks(f, n).1 < WORD_SPAN
  {
    SearchIsFirst(f.bits, SearchWords(f), n, 0);
  }

  lemma MapRangeInv(m: Machine, phys: nat, virt: nat, n: nat)
    requires Inv(m) && phys < WORD_SPAN && virt < WORD_SPAN
    ensures Inv(MapRange(m, phys, virt, n))
    decreases n
  {
    if n > 0 {
      hide MapPage, AddWritable, Inv;
      MapPageInv(m, phys, virt);
      AddWritableKeeps(MapPage(m, phys, virt), virt);
      MapRangeInv(AddWritable(MapPage(m, phys, virt), virt), Wrap(phys + PAGE_SIZE), Wrap(virt + PAGE_SIZE), n - 1);
    }
  }

  /** The machine in which the mapping loop of malloc_init starts, and its first address. */
  function Grabbed(h: Heap, bytes: nat): (Machine, nat)
    requires Inv(h.machine)
  {
    var (frames, phys) := AllocBlocks(h.machine.frames, PagesFor(bytes));
    (h.machine.(frames := frames), phys)
  }

  /** malloc_init: the allocator's answer is used without a check. */
  function Init(h: Heap, bytes: nat): Heap
    requires Inv(h.machine) && h.base < WORD_SPAN
  {
    GrabKeeps(h.machine, PagesFor(bytes));
    RunAddress(h.machine.frames, PagesFor(bytes));
    var (m, phys) := Grabbed(h, bytes);
    var pages := PagesFor(bytes);
    Heap(MapRange(m, phys, h.base, pages), h.base, Fresh(h.base, pages), pages, true)
  }

  function End(h: Heap): nat {
    h.base + h.pages * PAGE_SIZE
  }

  /** malloc_next_block on a list whose head is not empty: the heap afterwards and the pointer. */
  function Take(h: Heap, size: nat): (Heap, nat)
    requires Inv(h.machine) && |h.nodes| > 0
  {
    var (m, got) := GrowPages(h.machine, Wrap(End(h)), PagesWanted(h.nodes, size));
    var node := h.nodes[Find(h.nodes, size, 0)];
    (h.(machine := m, nodes := Place(h.nodes, size, got), pages := h.pages + got), node.addr + HEADER)
  }

  /** malloc_next_block: an empty head block makes it initialize again. */
  function NextBlock(h: Heap, size: nat): (Heap, nat)
    requires Inv(h.machine) && h.base < WORD_SPAN && |h.nodes| > 0
  {
    if size == 0 then (h, 0)
    else if h.nodes[0].size == 0 then
      InitInv(h, size);
      Take(Init(h, size), size)
    else Take(h, size)
  }

  lemma InitInv(h: Heap, bytes: nat)
    requires Inv(h.machine) && h.base < WORD_SPAN
    ensures Inv(Init(h, bytes).machine)
  {
    hide Inv, MapRange, AllocBlocks;
    GrabKeeps(h.machine, PagesFor(bytes));
    RunAddress(h.machine.frames, PagesFor(bytes)) by { ShapeOfInv(h.machine); }
    var (m, phys) := Grabbed(h, bytes);
    MapRangeInv(m, phys, h.base, PagesFor(bytes));
  }

  lemma ShapeOfInv(m: Machine)
    requires Inv(m)
    ensures Valid(m.frames)
  {
  }

  /** The malloc system call: initialize on first use, take a block, run the merge pass. */
  function Malloc(h: Heap, size: nat): (Heap, nat)
    requires Inv(h.machine) && h.base < WORD_SPAN && (h.inited ==> |h.nodes| > 0)
  {
    InitInv(h, size);
    var h0 := if h.inited then h else Init(h, size);
    var (h1, p) := NextBlock(h0, size);
    (h1.(nodes := MergeFrom(h.base, h1.nodes)), p)
  }

  /** malloc_free */
  function Free(h: Heap, ptr: nat): Heap
    requires |h.nodes| > 0
  {
    h.(nodes := Release(h.base, h.nodes, ptr))
  }

  // ---- what a heap in order is

  ghost predicate HeapInv(h: Heap) {
    && h.inited && h.base < WORD_SPAN
    && HeapMapped(h.machine, h.base, h.pages)
    && Sound(h.nodes, h.base, End(h))
  }

  /** Before first use: paging is in order and the pages of the heap carry no leftover bit 31. */
  ghost predicate Untouched(h: Heap) {
    && !h.inited && h.base < WORD_SPAN && InSpace(h.base, 0)
    && Inv(h.machine) && ClearFrom(h.machine, PageNumber(h.base, 0))
  }

  ghost predicate Started(h: Heap) {
    if h.inited then HeapInv(h) else Untouched(h)
  }

  /** The run of frames of malloc_init lies in the map and every page gets its table. */
  ghost predicate InitObtains(h: Heap, bytes: nat)
    requires Untouched(h)
  {
    GrabKeeps(h.machine, PagesFor(bytes));
    RunAddress(h.machine.frames, PagesFor(bytes));
    && InSpace(h.base, PagesFor(bytes))
    && Grabbed(h, bytes).1 != 0
    && (exists s: nat :: FreeRun(h.machine.frames, s, PagesFor(bytes)))
    && AllMapped(Grabbed(h, bytes).0, Grabbed(h, bytes).1, h.base, PagesFor(bytes))
  }

  /** Every page growth wants is obtained, and the request stays inside the address space. */
  ghost predicate GrowObtains(h: Heap, size: nat)
    requires HeapInv(h)
  {
    && Addressable(End(h), size)
    && (PagesWanted(h.nodes, size) > 0 ==> AllGrown(h.machine, End(h), PagesWanted(h.nodes, size)))
  }

  /** malloc_init sets up a heap in order. */
  lemma InitKeeps(h: Heap, bytes: nat)
    requires Untouched(h) && bytes > 0 && InitObtains(h, bytes)
    ensures HeapInv(Init(h, bytes))
    ensures Live(Init(h, bytes).nodes) == {}
    ensures Init(h, bytes).base == h.base
  {
    hide MapRange, AllMapped, PagesHaveFrames, ClearFrom, AllocBlocks, FreeRun, DirEntry, Reserved, Valid, Sound,
         RunReady, OnRun;
    var n := PagesFor(bytes);
    HeapStarts(h.machine, h.base);
    GrabRun(h.machine, h.base, n);
    GrabCarries(h.machine, n, h.base, 0);
    var (m, phys) := Grabbed(h, bytes);
    HeapStarts(m, h.base);
    MapRangeHeap(m, h.base, 0, phys / PAGE_SIZE, n);
    FreshIsSound(h.base, bytes);
  }

  /** malloc_init takes the least number of pages that holds the request, as one free block. */
  lemma InitTakesLeast(h: Heap, bytes: nat)
    requires Inv(h.machine) && h.base < WORD_SPAN
    ensures var h' := Init(h, bytes);
            && HoldsLeast(h'.pages, bytes) && h'.base == h.base && h'.inited
            && |h'.nodes| == 1 && h'.nodes[0].addr == h.base && h'.nodes[0].free
            && (0 < h'.pages <= 0x10_0000 ==> h'.nodes[0].size + 12 == h'.pages * 4096)
  {
    hide MapRange, AllocBlocks, Inv;
  }

  /**
   Allocation on a heap in order when every wanted page is obtained: the heap stays in order
   exactly when there is slack, the blocks in use gain exactly the new one, at an address no
   block in use had, and no byte of the heap moves to another frame.
   */
  lemma TakeKeeps(h: Heap, size: nat)
    requires HeapInv(h) && size > 0 && GrowObtains(h, size)
    ensures var (h', p) := NextBlock(h, size);
            && (HeapInv(h') <==> Slack(h.nodes, size))
            && h'.inited && h'.base == h.base && h'.pages == h.pages + PagesWanted(h.nodes, size)
            && h'.nodes == Place(h.nodes, size, PagesWanted(h.nodes, size))
            && p == h.nodes[Find(h.nodes, size, 0)].addr + HEADER
            && Live(h'.nodes) == Live(h.nodes) + {(p, size)}
            && (forall b <- Live(h.nodes) :: b.0 != p)
            && HeapMapped(h'.machine, h.base, h'.pages)
            && SameWalks(h.machine, h'.machine, h.base, h.pages)
  {
    hide GrowPages, AllGrown, HeapMapped, Place, PagesWanted, Live, Slack, Find, SameWalks;
    PlaceIsSound(h.nodes, h.base, End(h), size);
    FindIsFree(h.nodes, h.base, End(h), size);
    TakeGrows(h, size);
  }

  /** A malloc call grows the heap only when no free block is large enough, and then by the least number of pages. */
  lemma GrowsLeast(h: Heap, size: nat)
    requires HeapInv(h) && size > 0 && GrowObtains(h, size)
    ensures var pages := Malloc(h, size).0.pages;
            && |h.nodes| > 0 && pages >= h.pages
            && if Serviceable(h.nodes, size) then pages == h.pages
               else LeastGrowth(h.nodes[|h.nodes| - 1].size, size, pages - h.pages)
  {
    hide HeapMapped, GrowObtains, NextBlock, Live, Slack, Find, Place, Merge, PagesWanted, Serviceable, LeastGrowth;
    TakeKeeps(h, size);
    WantedIsLeast(h.nodes, size);
  }

  /** A request for nothing gets null and takes nothing; its call still runs the merge pass. */
  lemma ZeroRequest(h: Heap)
    requires HeapInv(h)
    ensures NextBlock(h, 0) == (h, 0)
    ensures Malloc(h, 0) == (h.(nodes := MergeFrom(h.base, h.nodes)), 0)
  {
    hide HeapMapped, Sound, Merge;
  }

  /** Set up for any number of pages, the first block is not empty. */
  lemma FreshNotEmpty(base: nat, pages: nat)
    ensures Fresh(base, pages)[0].size != 0
  {
    var q, r := pages / 0x10_0000, pages % 0x10_0000;
    assert pages * PAGE_SIZE - HEADER == q * WORD_SPAN + (r * PAGE_SIZE - HEADER);
    assert Wrap(pages * PAGE_SIZE - HEADER) == Wrap(r * PAGE_SIZE - HEADER);
  }

  /**
   A heap whose first block is empty is set up anew: malloc does what the very first call would
   do, whatever blocks were in use.
   */
  lemma EmptyHeadStartsOver(h: Heap, size: nat)
    requires Inv(h.machine) && h.base < WORD_SPAN && h.inited && |h.nodes| > 0
    requires h.nodes[0].size == 0 && size > 0
    ensures Malloc(h, size) == Malloc(Heap(h.machine, h.base, [], 0, false), size)
  {
    hide MapRange, AllocBlocks, Inv, Take, Merge, PagesFor, Fresh;
    InitInv(h, size);
    FreshNotEmpty(h.base, PagesFor(size));
  }

  /** The pages of an allocation. */
  lemma TakeGrows(h: Heap, size: nat)
    requires HeapInv(h) && size > 0 && GrowObtains(h, size)
    ensures var n := PagesWanted(h.nodes, size); 
            && Inv(h.machine)
            && var (m, got) := GrowPages(h.machine, Wrap(End(h)), n);
               got == n && HeapMapped(m, h.base, h.pages + n) && SameWalks(h.machine, m, h.base, h.pages)
  {
    hide AllGrown, GrowPages, PagesHaveFrames, ClearFrom, Sound, SameWalks, DirEntry, Reserved, Valid, PagesWanted;
    WantedFit(h, size);
    var n := PagesWanted(h.nodes, size);
    if n > 0 {
      GrowHeap(h.machine, h.base, h.pages, n);
    } else {
      GrowthEnds(h.machine, Wrap(End(h)));
      SameWalksSelf(h.machine, h.base, h.pages);
    }
  }

  lemma SameWalksSelf(m: Machine, base: nat, pages: nat)
    requires Shape(m) && InSpace(base, pages)
    ensures SameWalks(m, m, base, pages)
  {
  }

  lemma WantedFit(h: Heap, size: nat)
    requires HeapInv(h) && Addressable(End(h), size)
    ensures |h.nodes| > 0 && InSpace(h.base, h.pages + PagesWanted(h.nodes, size)) && End(h) < WORD_SPAN
  {
    var last := h.nodes[Find(h.nodes, size, 0)];
    if last.size < size {
      PageCountIsLeast(last.size, size, 1);
    }
  }

  // ---- runs

  datatype HeapOp = Allocate(size: nat) | Deallocate(ptr: nat)

  /** The heap the list operations of a malloc call start from. */
  function Opened(h: Heap, size: nat): Heap
    requires Inv(h.machine) && h.base < WORD_SPAN
  {
    if h.inited then h else Init(h, size)
  }

  /** A nonzero request, with the run of frames of malloc_init obtained on first use. */
  ghost predicate Opens(h: Heap, size: nat)
    requires Started(h)
  {
    size > 0 && (!h.inited ==> InitObtains(h, size))
  }

  lemma OpenedIsInOrder(h: Heap, size: nat)
    requires Started(h) && Opens(h, size)
    ensures HeapInv(Opened(h, size)) && Live(Opened(h, size).nodes) == LiveOf(h)
    ensures Opened(h, size).base == h.base
  {
    if !h.inited {
      InitKeeps(h, size);
    }
  }

  /**
   What a run asks of each call: nonzero requests, all frames obtained, and slack in the chosen
   block. Frees are unrestricted once the heap is initialized.
   */
  ghost predicate Granted(h: Heap, op: HeapOp)
    requires Started(h)
  {
    match op
    case Deallocate(_) => h.inited
    case Allocate(size) =>
      Opens(h, size) && (
        OpenedIsInOrder(h, size);
        GrowObtains(Opened(h, size), size) && Slack(Opened(h, size).nodes, size))
  }

  function Step(h: Heap, op: HeapOp): Heap
    requires Inv(h.machine) && h.base < WORD_SPAN && (h.inited ==> |h.nodes| > 0)
    requires op.Deallocate? ==> h.inited
  {
    match op
    case Allocate(size) => Malloc(h, size).0
    case Deallocate(ptr) => Free(h, ptr)
  }

  ghost function LiveOf(h: Heap): set<(nat, nat)> {
    if h.inited then Live(h.nodes) else {}
  }

  /** An allocation adds its own block, a release removes the block at its pointer. */
  ghost function LiveStep(h: Heap, live: set<(nat, nat)>, op: HeapOp): set<(nat, nat)>
    requires Started(h)
  {
    match op
    case Allocate(size) => live + {(Malloc(h, size).1, size)}
    case Deallocate(ptr) => set b <- live | b.0 != ptr
  }

  /** The blocks in use that the merge pass of a call swallows; none from a list head at 0. */
  ghost function Swallowed(h: Heap, op: HeapOp): set<(nat, nat)>
    requires Started(h) && Granted(h, op)
  {
    match op
    case Allocate(size) => OpenedIsInOrder(h, size); Lost(h.base, NextBlock(Opened(h, size), size).0.nodes)
    case Deallocate(ptr) => if FindFreed(h.nodes, ptr, 0) == |h.nodes| - 1 then {} else Lost(h.base, Marked(h.nodes, ptr))
  }

  lemma MallocIsTake(h: Heap, size: nat)
    requires Started(h)
    ensures var h0 := Opened(h, size);
            && Inv(h0.machine) && |h0.nodes| > 0
            && Malloc(h, size).1 == NextBlock(h0, size).1
            && Malloc(h, size).0 == NextBlock(h0, size).0.(nodes := MergeFrom(h.base, NextBlock(h0, size).0.nodes))
  {
    hide NextBlock, MergeFrom, MapRange;
    InitInv(h, size);
  }

  /** A granted allocation: a new block, at an address no block in use has. */
  lemma AllocateKeeps(h: Heap, size: nat)
    requires Started(h) && Granted(h, Allocate(size))
    ensures var (h', p) := Malloc(h, size);
            && HeapInv(h') && h'.base == h.base
            && Live(h'.nodes) == LiveOf(h) + {(p, size)} - Swallowed(h, Allocate(size))
            && p >= HEADER && forall b <- LiveOf(h) :: b.0 != p
  {
    hide PagesHaveFrames, ClearFrom, Sound, DirEntry, Reserved, Valid, Live, Slack, GrowObtains, InitObtains, Init,
         NextBlock, Find, Malloc, Place, PagesWanted, LiveOf, SameWalks, Merge, Absorbed;
    OpenedIsInOrder(h, size);
    MallocIsTake(h, size);
    TakeKeeps(Opened(h, size), size);
    var taken := NextBlock(Opened(h, size), size).0;
    MergeFromSound(h.base, taken.nodes, h.base, End(taken));
    if h.base != 0 {
      SoundTiles(taken.nodes, h.base, End(taken));
      MergeLoses(taken.nodes, h.base, End(taken));
    }
  }

  lemma SoundTiles(nodes: seq<Node>, base: nat, end: nat)
    requires Sound(nodes, base, end)
    ensures Tiled(nodes, base, end)
  {
  }

  /** A release, of any pointer. */
  lemma FreeKeeps(h: Heap, ptr: nat)
    requires HeapInv(h)
    ensures HeapInv(Free(h, ptr)) && Free(h, ptr).base == h.base && Free(h, ptr).machine == h.machine
    ensures Live(Free(h, ptr).nodes) == LiveStep(h, LiveOf(h), Deallocate(ptr)) - Swallowed(h, Deallocate(ptr))
  {
    hide HeapMapped, Live, Release, Marked, Lost;
    ReleaseSound(h.base, h.nodes, h.base, End(h), ptr);
    ReleaseLoses(h.base, h.nodes, h.base, End(h), ptr);
  }

  /**
   One granted call, at any address of the heap and on any list a run leads to: the heap stays
   in order, and the blocks in use change as the call says, less what its merge pass swallows.
   */
  lemma StepKeeps(h: Heap, op: HeapOp)
    requires Started(h) && Granted(h, op)
    ensures Started(Step(h, op)) && Step(h, op).inited && Step(h, op).base == h.base
    ensures LiveOf(Step(h, op)) == LiveStep(h, LiveOf(h), op) - Swallowed(h, op)
  {
    hide HeapMapped, Sound, Live, Malloc, Free, Swallowed, Granted;
    match op
    case Allocate(size) => AllocateKeeps(h, size);
    case Deallocate(ptr) => GrantedFree(h, ptr); FreeKeeps(h, ptr);
  }

  /** What a step may assume of the heap. */
  lemma StepReady(h: Heap, op: HeapOp)
    requires Started(h) && Granted(h, op)
    ensures Inv(h.machine) && h.base < WORD_SPAN && (h.inited ==> |h.nodes| > 0)
    ensures op.Deallocate? ==> h.inited
  {
  }

  lemma GrantedFree(h: Heap, ptr: nat)
    requires Started(h) && Granted(h, Deallocate(ptr))
    ensures HeapInv(h)
  {
  }

  lemma NothingSwallowedAtZero(h: Heap, op: HeapOp)
    requires Started(h) && h.base == 0 && Granted(h, op)
    ensures Swallowed(h, op) == {}
  {
    hide Granted, Started, NextBlock, Marked, FindFreed;
  }

  ghost predicate AllGranted(h: Heap, ops: seq<HeapOp>)
    requires Started(h)
    decreases |ops|
  {
    ops == [] || (Granted(h, ops[0]) && (StepKeeps(h, ops[0]); AllGranted(Step(h, ops[0]), ops[1..])))
  }

  ghost function Run(h: Heap, ops: seq<HeapOp>): Heap
    requires Started(h) && AllGranted(h, ops)
    decreases |ops|
  {
    if ops == [] then h else
    StepKeeps(h, ops[0]);
    Run(Step(h, ops[0]), ops[1..])
  }

  /** What the calls themselves make of the blocks in use. */
  ghost function LiveRun(h: Heap, live: set<(nat, nat)>, ops: seq<HeapOp>): set<(nat, nat)>
    requires Started(h) && AllGranted(h, ops)
    decreases |ops|
  {
    if ops == [] then live else
    StepKeeps(h, ops[0]);
    LiveRun(Step(h, ops[0]), LiveStep(h, live, ops[0]), ops[1..])
  }

  /** The same with what the merge passes swallow on the way. */
  ghost function SurvivingRun(h: Heap, live: set<(nat, nat)>, ops: seq<HeapOp>): set<(nat, nat)>
    requires Started(h) && AllGranted(h, ops)
    decreases |ops|
  {
    if ops == [] then live else
    StepKeeps(h, ops[0]);
    SurvivingRun(Step(h, ops[0]), LiveStep(h, live, ops[0]) - Swallowed(h, ops[0]), ops[1..])
  }

  /**
   Over every run of granted calls in any order, at any address of the heap: the list tiles
   exactly the pages of the heap with its last block free, every heap page is on a frame of its
   own, and the blocks in use are those the calls added, did not remove, and no merge pass
   swallowed.
   */
  lemma {:induction false} RunKeeps(h: Heap, ops: seq<HeapOp>)
    requires Started(h) && AllGranted(h, ops)
    ensures Started(Run(h, ops)) && Run(h, ops).base == h.base
    ensures h.inited || ops != [] ==> Run(h, ops).inited
    ensures LiveOf(Run(h, ops)) == SurvivingRun(h, LiveOf(h), ops)
    decreases |ops|
  {
    hide Started, Granted, Step, LiveStep, LiveOf, Swallowed;
    if ops != [] {
      StepReady(h, ops[0]);
      StepKeeps(h, ops[0]);
      RunKeeps(Step(h, ops[0]), ops[1..]);
    }
  }

  /** With the heap at address 0 the blocks in use are those the calls added and did not remove. */
  lemma {:induction false} RunAtZero(h: Heap, ops: seq<HeapOp>)
    requires Started(h) && h.base == 0 && AllGranted(h, ops)
    ensures Started(Run(h, ops)) && Run(h, ops).base == 0
    ensures LiveOf(Run(h, ops)) == LiveRun(h, LiveOf(h), ops)
    decreases |ops|
  {
    hide Started, Granted, Step, LiveStep, LiveOf, Swallowed;
    if ops != [] {
      StepReady(h, ops[0]);
      StepKeeps(h, ops[0]);
      NothingSwallowedAtZero(h, ops[0]);
      var live := LiveStep(h, LiveOf(h), ops[0]);
      assert live - {} == live;
      RunAtZero(Step(h, ops[0]), ops[1..]);
    }
  }

  // ---- bytes

  /** The physical address behind byte `a`. */
  ghost function Physical(h: Heap, a: nat): Translation
    requires HeapInv(h) && a < WORD_SPAN
  {
    PhysicalOf(h.machine, a)
  }

  /** A byte outside the directory and every table. */
  ghost predicate OutsideStructures(h: Heap, t: Translation)
    requires HeapInv(h)
  {
    t.Maps? && !IsStructure(h.machine, t.frame / PAGE_SIZE)
  }

  /** Different bytes of the heap are mapped to different physical bytes outside every paging structure. */
  lemma HeapBytesApart(h: Heap, a: nat, b: nat)
    requires HeapInv(h) && h.base <= a < End(h) && h.base <= b < End(h) && a != b
    ensures a < WORD_SPAN && b < WORD_SPAN && Physical(h, a) != Physical(h, b)
    ensures OutsideStructures(h, Physical(h, a)) && OutsideStructures(h, Physical(h, b))
  {
    hide Walk, IsStructure;
    var i, j := a / PAGE_SIZE - h.base / PAGE_SIZE, b / PAGE_SIZE - h.base / PAGE_SIZE;
    assert PageNumber(h.base, i) == a / PAGE_SIZE && PageNumber(h.base, j) == b / PAGE_SIZE;
    assert PageHasFrame(h.machine, PageNumber(h.base, i)) && PageHasFrame(h.machine, PageNumber(h.base, j));
  }

  /** Byte `x` of the payload of block `i`. */
  function PayloadByte(h: Heap, i: nat, x: nat): nat
    requires i < |h.nodes|
  {
    h.nodes[i].addr + HEADER + x
  }

  lemma PayloadInHeap(h: Heap, i: nat, x: nat)
    requires HeapInv(h) && i < |h.nodes| && x < h.nodes[i].size
    ensures h.base <= PayloadByte(h, i, x) < End(h) <= WORD_SPAN
  {
    hide HeapMapped;
    TiledBounds(h.nodes, h.base, End(h), i);
  }

  /** Bytes of payloads, of one block or of two, never share a physical byte. */
  lemma PayloadBytesApart(h: Heap, i: nat, x: nat, j: nat, y: nat)
    requires HeapInv(h) && i < |h.nodes| && j < |h.nodes| && (i, x) != (j, y)
    requires x < h.nodes[i].size && y < h.nodes[j].size
    ensures PayloadByte(h, i, x) < WORD_SPAN && PayloadByte(h, j, y) < WORD_SPAN
    ensures Physical(h, PayloadByte(h, i, x)) != Physical(h, PayloadByte(h, j, y))
    ensures OutsideStructures(h, Physical(h, PayloadByte(h, i, x)))
  {
    hide HeapMapped, Physical, OutsideStructures;
    BlocksDisjoint(h.nodes, h.base, End(h));
    PayloadInHeap(h, i, x);
    PayloadInHeap(h, j, y);
    HeapBytesApart(h, PayloadByte(h, i, x), PayloadByte(h, j, y));
  }
}
