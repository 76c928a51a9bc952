/**
 The heap with paging on: its mapping loops reach the page tables through the walk. As long as
 the heap, which grows up from address 0, stays clear of the tables, every call does in memory
 what it does on physical addresses.
 */
module HeapPagingOn {
  import opened Words
  import opened FrameMap
  import opened PageEntry
  import opened Paging
  import opened PagingRuns
  import opened PagingOn
  import opened HeapList
  import opened HeapModel
  import opened HeapFrames
  import opened HeapRuns
  import opened HeapReach

  // ---- the loops

  /** The mapping loop of malloc_init. */
  function MapRangeOn(m: Machine, phys: nat, virt: nat, n: nat): (r: Outcome)
    requires Shape(m) && phys < WORD_SPAN && virt < WORD_SPAN
    ensures r.Done? ==> Shape(r.m)
    decreases n
  {
    if n == 0 then Done(m) else
    var mapped := MapPageOn(m, phys, virt);
    if mapped.PageFault? then PageFault else
    var marked := WritableOn(mapped.m, virt);
    if marked.PageFault? then PageFault else
    MapRangeOn(marked.m, Wrap(phys + PAGE_SIZE), Wrap(virt + PAGE_SIZE), n - 1)
  }

  /** The growth loop of malloc_next_block. */
  function GrowPagesOn(m: Machine, virt: nat, n: nat): (r: Outcome)
    requires Shape(m) && virt < WORD_SPAN
    ensures r.Done? ==> Shape(r.m)
    decreases n
  {
    if n == 0 then Done(m) else
    GrabGrows(m.frames, 1);
    AddressInRange(m.frames);
    var (frames, _, address) := AllocPage(m.frames, 0);
    var mapped := if address == 0 then Done(m.(frames := frames)) else MapPageOn(m.(frames := frames), address, virt);
    if mapped.PageFault? then PageFault else GrowPagesOn(mapped.m, Wrap(virt + PAGE_SIZE), n - 1)
  }

  lemma WritableOnAgrees(m: Machine, virt: nat)
    requires Inv(m) && Reachable(m) && virt < WORD_SPAN && IsPresent(DirEntry(m, DirIndex(virt)))
    ensures WritableOn(m, virt) == Done(AddWritable(m, virt))
  {
    hide Walk, IsPresent, FrameNumber, FrameAt, Reachable, AddAttrib;
    StructureFrames(m, DirIndex(virt));
  }

  lemma FirstTableOf(m: Machine, page: nat)
    requires Shape(m) && LowTables(m) && page < ENTRIES
    ensures page * PAGE_SIZE < WORD_SPAN && IsPresent(DirEntry(m, DirIndex(page * PAGE_SIZE)))
  {
    assert DirIndex(page * PAGE_SIZE) == 0;
  }

  /** Clear of the structures, the heap ends below the directory. */
  lemma ClearIsLow(m: Machine, pages: nat)
    requires Shape(m) && LowTables(m) && ClearOf(m, pages)
    ensures pages <= ENTRIES && pages < ENTRIES + 1 && pages <= m.dir
  {
    DirIsStructure(m);
  }

  lemma ClearCarries(m: Machine, m': Machine, pages: nat)
    requires Shape(m) && Shape(m') && ClearOf(m, pages)
    requires forall f: nat :: IsStructure(m', f) <==> IsStructure(m, f)
    ensures ClearOf(m', pages)
  {
    hide IsStructure;
  }

  lemma {:induction false} MapRangeOnAgrees(m: Machine, phys: nat, i: nat, n: nat)
    requires Inv(m) && phys < WORD_SPAN && i <= n && InSpace(0, n) && i * PAGE_SIZE < WORD_SPAN
    requires AllMapped(m, phys, i * PAGE_SIZE, n - i)
    requires LowTables(m) && Reachable(m) && ClearOf(m, n)
    ensures MapRangeOn(m, phys, i * PAGE_SIZE, n - i) == Done(MapRange(m, phys, i * PAGE_SIZE, n - i))
    decreases n - i
  {
    hide MapPage, AddWritable, CanMap, Inv, Extends, MapPageOn, WritableOn, LowTables, Reachable, ClearOf, IsStructure;
    if i < n {
      var virt := i * PAGE_SIZE;
      HeapFrames.ShapeOfInv(m);
      ClearIsLow(m, n);
      FirstTableOf(m, i);
      MapPageOnAgrees(m, phys, virt);
      MapExtends(m, phys, 0, i);
      var m1 := MapPage(m, phys, virt);
      HeapFrames.ShapeOfInv(m1);
      ClearBelow(m, i + 1, n);
      GrowthReaches(m, m1, i, 1);
      FirstTableOf(m1, i);
      WritableOnAgrees(m1, virt);
      WritableExtends(m1, virt, 0, i + 1);
      ClearCarries(m, m1, n);
      ClearBelow(m1, i + 1, n);
      var m2 := AddWritable(m1, virt);
      HeapFrames.ShapeOfInv(m2);
      GrowthReaches(m1, m2, i + 1, 0);
      ClearCarries(m1, m2, n);
      assert Wrap(virt + PAGE_SIZE) == (i + 1) * PAGE_SIZE;
      MapRangeOnAgrees(m2, Wrap(phys + PAGE_SIZE), i + 1, n);
    }
  }

  lemma ClearBelow(m: Machine, a: nat, b: nat)
    requires Shape(m) && ClearOf(m, b) && a <= b
    ensures ClearOf(m, a)
  {
    hide IsStructure;
  }

  lemma GrowOneUnfolds(m: Machine, virt: nat)
    requires Inv(m) && virt < WORD_SPAN && Grows(m, virt)
    ensures var taken := m.(frames := AllocBlocks(m.frames, 1).0); var address := AllocBlocks(m.frames, 1).1;
            && Inv(taken) && CanMap(taken, virt) && 0 < address < WORD_SPAN
            && AllocPage(m.frames, 0).0 == taken.frames && AllocPage(m.frames, 0).2 == address
            && GrowOne(m, virt).0 == MapPage(taken, address, virt)
  {
    hide AllocBlocks, MapPage, CanMap, SetFrame, AddAttrib;
    GrabKeeps(m, 1);
    AddressInRange(m.frames);
  }

  lemma {:induction false} GrowPagesOnAgrees(m: Machine, pages: nat, n: nat)
    requires HeapMapped(m, 0, pages) && InSpace(0, pages + n)
    requires n > 0 && AllGrown(m, pages * PAGE_SIZE, n)
    requires LowTables(m) && Reachable(m) && ClearOf(m, pages + n)
    ensures GrowPagesOn(m, pages * PAGE_SIZE, n) == Done(GrowPages(m, pages * PAGE_SIZE, n).0)
    decreases n
  {
    hide GrowOne, Grows, GrowPages, AllGrown, PagesHaveFrames, ClearFrom, Extends, OnFreshFrames, DirEntry,
         Reserved, Valid, MapPage, MapPageOn, LowTables, Reachable, ClearOf, AllocBlocks, AllocPage, IsStructure,
         Walk;
    var virt := pages * PAGE_SIZE;
    GrowthUnfolds(m, virt, n);
    GrowOneExtends(m, 0, pages);
    GrowOneHeap(m, 0, pages);
    GrowOneUnfolds(m, virt);
    var m1 := GrowOne(m, virt).0;
    var taken := m.(frames := AllocBlocks(m.frames, 1).0);
    ClearBelow(m, pages + 1, pages + n);
    TakenReaches(m, pages);
    MapPageOnAgrees(taken, AllocBlocks(m.frames, 1).1, virt);
    GrowthReaches(m, m1, pages, 1);
    if n > 1 {
      ClearCarries(m, m1, pages + n);
      assert Wrap(virt + PAGE_SIZE) == (pages + 1) * PAGE_SIZE;
      GrowPagesOnAgrees(m1, pages + 1, n - 1);
    } else {
      GrowthEnds(m1, Wrap(virt + PAGE_SIZE));
    }
    GrowPagesOnUnfolds(m, virt, n);
  }

  /** Taking a frame leaves everything reachable, and the next heap page has its table. */
  lemma TakenReaches(m: Machine, pages: nat)
    requires Inv(m) && InSpace(0, pages + 1) && LowTables(m) && Reachable(m) && ClearOf(m, pages + 1)
    ensures var taken := m.(frames := AllocBlocks(m.frames, 1).0);
            && Inv(taken) && Reachable(taken) && pages * PAGE_SIZE < WORD_SPAN
            && IsPresent(DirEntry(taken, DirIndex(pages * PAGE_SIZE)))
  {
    hide LowTables, Reachable, ClearOf, AllocBlocks, IsStructure, Walk, Extends;
    var taken := m.(frames := AllocBlocks(m.frames, 1).0);
    GrabExtends(m, 1, 0, pages);
    ClearBelow(m, pages, pages + 1);
    ClearIsLow(m, pages + 1);
    GrowthReaches(m, taken, pages, 0);
    FirstTableOf(taken, pages);
  }

  lemma GrowPagesOnUnfolds(m: Machine, virt: nat, n: nat)
    requires Inv(m) && virt < WORD_SPAN && n > 0 && Grows(m, virt)
    requires var taken := m.(frames := AllocBlocks(m.frames, 1).0); var address := AllocBlocks(m.frames, 1).1;
             && Shape(taken) && address < WORD_SPAN
             && MapPageOn(taken, address, virt) == Done(GrowOne(m, virt).0)
    ensures Shape(GrowOne(m, virt).0)
    ensures GrowPagesOn(m, virt, n) == GrowPagesOn(GrowOne(m, virt).0, Wrap(virt + PAGE_SIZE), n - 1)
  {
    hide AllocBlocks, MapPageOn, GrowOne, CanMap, AllocPage;
    GrowOneUnfolds(m, virt);
  }

  // ---- calls and runs

  /** What a granted call does to memory with paging on. */
  ghost function CallOn(h: Heap, op: HeapOp): Outcome
    requires Started(h) && Granted(h, op)
  {
    match op
    case Deallocate(_) => Done(h.machine)
    case Allocate(size) =>
      OpenedIsInOrder(h, size);
      CallReady(h, size);
      var start := if h.inited then Done(h.machine) else MapRangeOn(Grabbed(h, size).0, Grabbed(h, size).1, h.base, PagesFor(size));
      if start.PageFault? then PageFault
      else GrowPagesOn(start.m, Wrap(End(Opened(h, size))), PagesWanted(Opened(h, size).nodes, size))
  }

  lemma CallReady(h: Heap, size: nat)
    requires Started(h) && Opens(h, size)
    ensures Inv(h.machine) && Shape(h.machine) && h.base < WORD_SPAN
    ensures !h.inited ==> Shape(Grabbed(h, size).0) && Grabbed(h, size).1 < WORD_SPAN
    ensures Inv(Opened(h, size).machine) && |Opened(h, size).nodes| > 0 && HeapInv(Opened(h, size))
  {
    hide AllocBlocks, Sound, PagesHaveFrames, ClearFrom, MapRange, AllMapped;
    OpenedIsInOrder(h, size);
    InvOfHeap(Opened(h, size));
    GrabKeeps(h.machine, PagesFor(size));
    RunAddress(h.machine.frames, PagesFor(size));
  }

  /** Initialization reaches the tables as long as its pages stay clear of them. */
  lemma InitOnAgrees(h: Heap, bytes: nat)
    requires Untouched(h) && h.base == 0 && bytes > 0 && InitObtains(h, bytes)
    requires LowTables(h.machine) && Reachable(h.machine) && ClearOf(h.machine, PagesFor(bytes))
    ensures Shape(Grabbed(h, bytes).0) && Grabbed(h, bytes).1 < WORD_SPAN
    ensures MapRangeOn(Grabbed(h, bytes).0, Grabbed(h, bytes).1, 0, PagesFor(bytes)) == Done(HeapRuns.Init(h, bytes).machine)
  {
    hide AllocBlocks, MapRange, AllMapped, LowTables, Reachable, ClearOf, IsStructure, Extends, ClearFrom, FreeRun,
         MapRangeOn;
    var n := PagesFor(bytes);
    GrabExtends(h.machine, n, 0, 0);
    RunAddress(h.machine.frames, n);
    var (grabbed, phys) := Grabbed(h, bytes);
    ClearBelow(h.machine, 0, n);
    GrowthReaches(h.machine, grabbed, 0, 0);
    ClearCarries(h.machine, grabbed, n);
    MapRangeOnAgrees(grabbed, phys, 0, n);
  }

  /** Growth reaches the tables as long as its pages stay clear of them. */
  lemma TakeOnAgrees(h: Heap, size: nat)
    requires HeapInv(h) && h.base == 0 && size > 0 && GrowObtains(h, size) && Slack(h.nodes, size)
    requires LowTables(h.machine) && Reachable(h.machine) && ClearOf(h.machine, NextBlock(h, size).0.pages)
    ensures Inv(h.machine) && |h.nodes| > 0
    ensures GrowPagesOn(h.machine, Wrap(End(h)), PagesWanted(h.nodes, size)) == Done(NextBlock(h, size).0.machine)
  {
    hide GrowPages, AllGrown, HeapMapped, Place, PagesWanted, Live, Slack, Find, SameWalks, Sound, LowTables,
         Reachable, ClearOf, NextBlock;
    InvOfHeap(h);
    TakeKeeps(h, size);
    WantedFit(h, size);
    MachineOfTake(h, size);
    var n := PagesWanted(h.nodes, size);
    if n > 0 {
      GrowPagesOnAgrees(h.machine, h.pages, n);
    } else {
      GrowthEnds(h.machine, Wrap(End(h)));
    }
  }

  lemma CallOnAgrees(h: Heap, op: HeapOp)
    requires Started(h) && h.base == 0 && Granted(h, op)
    requires LowTables(h.machine) && Reachable(h.machine) && Started(Step(h, op)) && ClearOf(h.machine, PagesOf(Step(h, op)))
    ensures CallOn(h, op) == Done(Step(h, op).machine)
  {
    if op.Allocate? {
      AllocateOnAgrees(h, op.size);
    }
  }

  lemma AllocateOnAgrees(h: Heap, size: nat)
    requires Started(h) && h.base == 0 && Granted(h, Allocate(size))
    requires Inv(h.machine) && Started(Malloc(h, size).0)
    requires LowTables(h.machine) && Reachable(h.machine) && ClearOf(h.machine, PagesOf(Malloc(h, size).0))
    ensures CallOn(h, Allocate(size)) == Done(Malloc(h, size).0.machine)
  {
    hide HeapMapped, Sound, GrowObtains, Slack, NextBlock, Malloc, InitObtains, LowTables, Reachable, ClearOf,
         GrowPagesOn, MapRangeOn, Extends, OnFreshFrames, IsStructure, MapRange;
    CallReady(h, size);
    OpenedIsInOrder(h, size);
    MallocIsTake(h, size);
    var h0 := Opened(h, size);
    TakeExtends(h0, size);
    var pages := PagesOf(Malloc(h, size).0);
    ClearBelow(h.machine, h0.pages, pages);
    if !h.inited {
      InitOnAgrees(h, size);
      InitExtends(h, size);
      GrowthReaches(h.machine, h0.machine, 0, h0.pages);
      ClearCarries(h.machine, h0.machine, pages);
    }
    TakeOnAgrees(h0, size);
  }

  /** Every call of the run does with paging on what it does on physical addresses. */
  ghost predicate RunsAlike(h: Heap, ops: seq<HeapOp>)
    requires Started(h) && AllGranted(h, ops)
    decreases |ops|
  {
    ops == [] || (
      && CallOn(h, ops[0]) == Done(Step(h, ops[0]).machine)
      && (StepKeeps(h, ops[0]); RunsAlike(Step(h, ops[0]), ops[1..])))
  }

  /**
   With the structures reachable at the start, every run of granted calls that ends clear of
   them reaches them at every access on the way.
   */
  lemma {:induction false} RunOnAgrees(h: Heap, ops: seq<HeapOp>)
    requires Started(h) && h.base == 0 && AllGranted(h, ops)
    requires LowTables(h.machine) && Reachable(h.machine)
    requires Started(HeapRuns.Run(h, ops)) && ClearOf(h.machine, PagesOf(HeapRuns.Run(h, ops)))
    ensures RunsAlike(h, ops)
    decreases |ops|
  {
    hide Started, Granted, Step, Grown, LowTables, Reachable, ClearOf, CallOn;
    if ops != [] {
      StepReady(h, ops[0]);
      StepKeeps(h, ops[0]);
      StepExtends(h, ops[0]);
      var h1 := Step(h, ops[0]);
      RunExtends(h1, ops[1..]);
      StepClear(h, h1, HeapRuns.Run(h, ops));
      CallOnAgrees(h, ops[0]);
      RunOnAgrees(h1, ops[1..]);
    }
  }

  lemma StepClear(h: Heap, h1: Heap, h2: Heap)
    requires Started(h) && Started(h1) && Started(h2) && h.base == 0 && Grown(h, h1) && Grown(h1, h2)
    requires LowTables(h.machine) && Reachable(h.machine) && ClearOf(h.machine, PagesOf(h2))
    ensures ClearOf(h.machine, PagesOf(h1)) && LowTables(h1.machine) && Reachable(h1.machine) && ClearOf(h1.machine, PagesOf(h2))
  {
    hide LowTables, Reachable, ClearOf, Sound, PagesHaveFrames, ClearFrom, Extends, OnFreshFrames, IsStructure;
    ClearBelow(h.machine, PagesOf(h1), PagesOf(h2));
    GrowthReaches(h.machine, h1.machine, PagesOf(h), PagesOf(h1) - PagesOf(h));
    ClearCarries(h.machine, h1.machine, PagesOf(h2));
  }

  lemma StartedShape(h: Heap)
    requires Started(h)
    ensures Shape(h.machine)
  {
  }

  /**
   The runs of RunAtZero with paging on: the blocks in use are those the calls added and did not
   remove; the structures are within reach at the end exactly when the heap is still below the
   first of them, and then they were at every access.
   */
  lemma RunAtZeroOn(h: Heap, ops: seq<HeapOp>)
    requires Started(h) && h.base == 0 && AllGranted(h, ops)
    requires LowTables(h.machine) && Reachable(h.machine)
    ensures var h' := HeapRuns.Run(h, ops);
            && Started(h') && LiveOf(h') == LiveRun(h, LiveOf(h), ops)
            && (Reachable(h'.machine) <==> ClearOf(h.machine, PagesOf(h')))
            && (Reachable(h'.machine) ==> RunsAlike(h, ops))
  {
    hide Started, AllGranted, LowTables, Reachable, ClearOf, LiveOf, LiveRun, RunsAlike;
    StartedShape(h);
    RunAtZero(h, ops);
    RunReaches(h, ops);
    if ClearOf(h.machine, PagesOf(HeapRuns.Run(h, ops))) {
      RunOnAgrees(h, ops);
    }
  }
}
