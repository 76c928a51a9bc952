/**
 Which frames the kernel can still reach at their own addresses. With paging on it reads and
 writes its tables at their physical addresses, which works as long as those pages map to
 themselves; the heap, which starts at address 0, maps its pages over them one by one.
 */
module HeapReach {
  import opened Words
  import opened FrameMap
  import opened PageEntry
  import opened Paging
  import opened PagingOn
  import opened HeapList
  import opened HeapModel
  import opened HeapFrames
  import opened HeapRuns

  /** The pages of the heap so far. */
  function PagesOf(h: Heap): nat {
    if h.inited then h.pages else 0
  }

  ghost predicate Grown(h: Heap, h': Heap)
    requires Started(h) && Started(h')
  {
    && h'.base == h.base && PagesOf(h) <= PagesOf(h') && InSpace(h.base, PagesOf(h'))
    && var n := PagesOf(h') - PagesOf(h);
       Extends(h.machine, h'.machine, h.base, PagesOf(h), n) && OnFreshFrames(h.machine, h'.machine, h.base, PagesOf(h), n)
  }

  /**
   malloc_init goes on when it gets no frames: it then lays the heap over the frames from 0 on,
   none of which it took.
   */
  lemma InitWithoutFrames(h: Heap, bytes: nat)
    requires Untouched(h) && bytes > 0 && InSpace(h.base, PagesFor(bytes))
    requires AllocBlocks(h.machine.frames, PagesFor(bytes)).1 == 0
    requires AllMapped(h.machine, 0, h.base, PagesFor(bytes))
    ensures var h' := HeapRuns.Init(h, bytes);
            && Inv(h'.machine) && HoldsLeast(h'.pages, bytes)
            && InARow(h'.machine, PageNumber(h.base, 0), 0, h'.pages)
  {
    hide MapRange, AllMapped, AllocBlocks, TopLeft, Walk;
    NullKeeps(h.machine.frames, PagesFor(bytes));
    assert h.machine.(frames := h.machine.frames) == h.machine;
    PageOf(h.base, 0);
    MapRangeWalks(h.machine, 0, PageNumber(h.base, 0), PagesFor(bytes));
  }

  // ---- one call

  /** The frames of malloc_init were free, and nothing but its pages changes. */
  lemma InitExtends(h: Heap, bytes: nat)
    requires Untouched(h) && bytes > 0 && InitObtains(h, bytes)
    ensures HeapInv(HeapRuns.Init(h, bytes)) && Grown(h, HeapRuns.Init(h, bytes))
  {
    hide MapRange, AllMapped, PagesHaveFrames, ClearFrom, AllocBlocks, FreeRun, DirEntry, Reserved, Valid, Sound,
         RunReady, OnRun, Extends, OnFreshFrames;
    var n := PagesFor(bytes);
    InitKeeps(h, bytes);
    HeapStarts(h.machine, h.base);
    GrabRun(h.machine, h.base, n);
    GrabExtends(h.machine, n, h.base, 0);
    GrabCarries(h.machine, n, h.base, 0);
    var (m, phys) := Grabbed(h, bytes);
    HeapStarts(m, h.base);
    MapRangeHeap(m, h.base, 0, phys / PAGE_SIZE, n);
    MapRangeExtends(m, phys, h.base, 0, n);
    ExtendsJoin(h.machine, m, HeapRuns.Init(h, bytes).machine, h.base, 0, 0, n);
    RunIsFresh(h.machine, HeapRuns.Init(h, bytes).machine, h.base, n, phys);
  }

  lemma RunIsFresh(m: Machine, m': Machine, base: nat, n: nat, phys: nat)
    requires Shape(m) && Shape(m') && InSpace(base, n) && n > 0
    requires phys == AllocBlocks(m.frames, n).1 && phys != 0 && exists s: nat :: FreeRun(m.frames, s, n)
    requires OnRun(m', base, n, phys / PAGE_SIZE)
    ensures OnFreshFrames(m, m', base, 0, n)
  {
    hide Walk;
    FirstFitIsFirst(m.frames, n);
  }

  lemma TakeExtends(h: Heap, size: nat)
    requires HeapInv(h) && size > 0 && GrowObtains(h, size) && Slack(h.nodes, size)
    ensures HeapInv(NextBlock(h, size).0) && Grown(h, NextBlock(h, size).0)
  {
    hide GrowPages, AllGrown, HeapMapped, Place, PagesWanted, Live, Slack, Find, SameWalks, Extends, OnFreshFrames,
         Sound;
    InvOfHeap(h);
    TakeKeeps(h, size);
    WantedFit(h, size);
    var n := PagesWanted(h.nodes, size);
    MachineOfTake(h, size);
    if n > 0 {
      GrowthExtends(h.machine, h.base, h.pages, n);
    } else {
      GrowthEnds(h.machine, Wrap(End(h))) by { InvOfHeap(h); }
      ExtendsSelf(h.machine, h.base, h.pages) by { InvOfHeap(h); }
    }
  }

  lemma InvOfHeap(h: Heap)
    requires HeapInv(h)
    ensures Inv(h.machine) && Shape(h.machine) && InSpace(h.base, h.pages) && |h.nodes| > 0 && h.nodes[0].size > 0
  {
  }

  lemma MachineOfTake(h: Heap, size: nat)
    requires HeapInv(h) && size > 0 && Inv(h.machine) && |h.nodes| > 0
    ensures NextBlock(h, size).0.machine == GrowPages(h.machine, Wrap(End(h)), PagesWanted(h.nodes, size)).0
  {
    hide GrowPages, Inv, PagesWanted;
  }

  lemma GrownJoin(h0: Heap, h1: Heap, h2: Heap)
    requires Started(h0) && Started(h1) && Started(h2) && Grown(h0, h1) && Grown(h1, h2)
    ensures Grown(h0, h2)
  {
    hide Extends, OnFreshFrames, Sound, PagesHaveFrames, ClearFrom;
    var a, b := PagesOf(h1) - PagesOf(h0), PagesOf(h2) - PagesOf(h1);
    ExtendsJoin(h0.machine, h1.machine, h2.machine, h0.base, PagesOf(h0), a, b);
    FreshJoin(h0.machine, h1.machine, h2.machine, h0.base, PagesOf(h0), a, b);
  }

  lemma GrownSelf(h: Heap, h': Heap)
    requires Started(h) && Started(h') && h'.machine == h.machine && h'.base == h.base && PagesOf(h') == PagesOf(h)
    ensures Grown(h, h')
  {
    hide Extends, OnFreshFrames, Sound, PagesHaveFrames, ClearFrom;
    ExtendsSelf(h.machine, h.base, PagesOf(h));
  }

  lemma MallocExtends(h: Heap, size: nat)
    requires Started(h) && Granted(h, Allocate(size))
    ensures Started(Malloc(h, size).0) && Grown(h, Malloc(h, size).0)
  {
    hide HeapMapped, Sound, GrowObtains, Slack, HeapRuns.Init, NextBlock, Grown, Malloc, InitObtains, Merge;
    OpenedIsInOrder(h, size);
    AllocateKeeps(h, size);
    MallocIsTake(h, size);
    var h0 := Opened(h, size);
    if h.inited {
      GrownSelf(h, h0);
    } else {
      InitExtends(h, size);
    }
    TakeExtends(h0, size);
    var h1 := NextBlock(h0, size).0;
    GrownSelf(h1, Malloc(h, size).0);
    GrownJoin(h, h0, h1);
    GrownJoin(h, h1, Malloc(h, size).0);
  }

  lemma StepExtends(h: Heap, op: HeapOp)
    requires Started(h) && Granted(h, op)
    ensures Started(Step(h, op)) && Grown(h, Step(h, op))
  {
    hide HeapMapped, Sound, Malloc, Grown, Release;
    StepKeeps(h, op);
    match op
    case Allocate(size) => MallocExtends(h, size);
    case Deallocate(ptr) => GrownSelf(h, Free(h, ptr));
  }

  /**
   Over every run of granted calls: pages are only added, every walk outside the heap stays, and
   no frame used before becomes a page of the heap or a table.
   */
  lemma {:induction false} RunExtends(h: Heap, ops: seq<HeapOp>)
    requires Started(h) && AllGranted(h, ops)
    ensures Started(HeapRuns.Run(h, ops)) && Grown(h, HeapRuns.Run(h, ops))
    decreases |ops|
  {
    hide Started, Granted, Step, Grown;
    if ops == [] {
      GrownSelf(h, h);
    } else {
      StepReady(h, ops[0]);
      StepKeeps(h, ops[0]);
      StepExtends(h, ops[0]);
      var h1 := Step(h, ops[0]);
      RunExtends(h1, ops[1..]);
      GrownJoin(h, h1, HeapRuns.Run(h, ops));
    }
  }

  // ---- frames in use before the run

  /** No page of the heap is on frame `f`. */
  ghost predicate OffHeap(h: Heap, f: nat)
    requires Started(h)
  {
    Unmapped(h.machine, h.base, PagesOf(h), f)
  }

  /**
   A frame in use at the start that is no heap page (the kernel image, the bitmap, low memory)
   is never given to the heap, and becomes a table only if it was one.
   */
  lemma UsedFramesStay(h: Heap, ops: seq<HeapOp>, f: nat)
    requires Started(h) && AllGranted(h, ops) && Reserved(h.machine, f) && OffHeap(h, f)
    ensures var h' := HeapRuns.Run(h, ops);
            && Started(h') && Reserved(h'.machine, f) && OffHeap(h', f)
            && (!IsStructure(h.machine, f) ==> !IsStructure(h'.machine, f))
  {
    hide Walk, IsStructure, Sound, PagesHaveFrames, ClearFrom, AllGranted;
    RunExtends(h, ops);
    var h' := HeapRuns.Run(h, ops);
    assert !IsStructure(h.machine, f) ==> Backing(h.machine, f);
    forall k | 0 <= k < PagesOf(h')
      ensures Walk(h'.machine, PageNumber(h.base, k)) != Maps(f)
    {
      if k < PagesOf(h) {
        assert !Added(h.base, PagesOf(h), PagesOf(h') - PagesOf(h), PageNumber(h.base, k));
      }
    }
  }

  /**
   With the heap at address 0, such a frame stays reachable at its own address exactly as long
   as the heap does not extend over it.
   */
  lemma OwnAddressStays(h: Heap, ops: seq<HeapOp>, f: nat)
    requires Started(h) && h.base == 0 && AllGranted(h, ops) && Reserved(h.machine, f) && OffHeap(h, f)
    requires f < ENTRIES * ENTRIES && Walk(h.machine, f) == Maps(f)
    ensures var h' := HeapRuns.Run(h, ops);
            Started(h') && (Walk(h'.machine, f) == Maps(f) <==> PagesOf(h') <= f)
  {
    hide Started, AllGranted, Grown, OffHeap, Reserved, Walk;
    UsedFramesStay(h, ops, f);
    RunExtends(h, ops);
    GrownKeepsAddress(h, HeapRuns.Run(h, ops), f);
  }

  lemma GrownKeepsAddress(h: Heap, h': Heap, f: nat)
    requires Started(h) && Started(h') && h.base == 0 && Grown(h, h') && OffHeap(h', f)
    requires f < ENTRIES * ENTRIES && Walk(h.machine, f) == Maps(f)
    ensures Walk(h'.machine, f) == Maps(f) <==> PagesOf(h') <= f
  {
    hide Walk, Sound, PagesHaveFrames, ClearFrom, Extends, OnFreshFrames, Reserved;
    assert PageNumber(0, f) == f;
    if PagesOf(h') <= f {
      OutsideKept(h.machine, h'.machine, PagesOf(h), PagesOf(h') - PagesOf(h), f);
    }
  }

  lemma OutsideKept(m: Machine, m': Machine, pages: nat, n: nat, q: nat)
    requires Shape(m) && Shape(m') && InSpace(0, pages + n) && Extends(m, m', 0, pages, n)
    requires q < ENTRIES * ENTRIES && pages + n <= q
    ensures Walk(m', q) == Walk(m, q)
  {
    hide Walk, FramesKept;
  }

  // ---- the paging structures

  /** The directory lies in the first 4 MiB, and these have their table. */
  predicate LowTables(m: Machine)
    requires Shape(m)
  {
    m.dir < ENTRIES && IsPresent(DirEntry(m, 0))
  }

  /** The first `pages` pages hold no structure's frame. */
  ghost predicate ClearOf(m: Machine, pages: nat)
    requires Shape(m)
  {
    forall f: nat :: IsStructure(m, f) ==> pages <= f
  }

  /** Growth inside the first 4 MiB adds no table. */
  lemma NoNewTables(m: Machine, m': Machine, pages: nat, n: nat)
    requires Shape(m) && Shape(m') && InSpace(0, pages + n) && Extends(m, m', 0, pages, n)
    requires LowTables(m) && pages + n <= ENTRIES
    ensures LowTables(m') && forall f: nat :: IsStructure(m', f) <==> IsStructure(m, f)
  {
    hide Walk, IsPresent, FrameNumber, FramesKept;
    forall i | 0 <= i < ENTRIES
      ensures m'.mem[m'.dir][i] == m.mem[m.dir][i]
    {
      assert DirEntry(m', i) == DirEntry(m, i);
    }
    SameStructures(m, m');
  }

  /** Growth that stays clear of the structures keeps them where they are and reachable. */
  lemma GrowthReaches(m: Machine, m': Machine, pages: nat, n: nat)
    requires Shape(m) && Shape(m') && InSpace(0, pages + n) && Extends(m, m', 0, pages, n)
    requires LowTables(m) && Reachable(m) && ClearOf(m, pages + n)
    ensures LowTables(m') && Reachable(m') && forall f: nat :: IsStructure(m', f) <==> IsStructure(m, f)
  {
    hide Walk, IsPresent, DirEntry, IsStructure, FramesKept;
    assert IsStructure(m, m.dir) by { DirIsStructure(m); }
    NoNewTables(m, m', pages, n);
    forall f: nat | IsStructure(m', f)
      ensures f < ENTRIES * ENTRIES && Walk(m', f) == Maps(f)
    {
      OutsideKept(m, m', pages, n, f);
    }
  }

  lemma DirIsStructure(m: Machine)
    requires Shape(m)
    ensures IsStructure(m, m.dir)
  {
  }

  /** Structures never go away. */
  lemma StructuresStay(m: Machine, m': Machine, base: nat, pages: nat, n: nat, f: nat)
    requires Shape(m) && Shape(m') && InSpace(base, pages + n) && Extends(m, m', base, pages, n)
    requires IsStructure(m, f)
    ensures IsStructure(m', f)
  {
    hide Walk, IsPresent, FrameNumber, FramesKept;
    if f != m.dir {
      var i :| 0 <= i < ENTRIES && IsPresent(DirEntry(m, i)) && FrameNumber(DirEntry(m, i)) == f;
      assert DirEntry(m', i) == DirEntry(m, i);
    }
  }

  /** A heap page over a structure's frame hides that structure. */
  lemma HeapHidesStructure(h: Heap, f: nat)
    requires HeapInv(h) && h.base == 0 && f < h.pages && IsStructure(h.machine, f)
    ensures Walk(h.machine, f) != Maps(f)
  {
    hide Walk, IsStructure;
    assert PageNumber(0, f) == f;
    assert PageHasFrame(h.machine, PageNumber(0, f));
  }

  /**
   With the heap at address 0 and the structures reachable at the start, over every run of
   granted calls they are reachable at the end exactly when the heap has not reached the first
   of their frames.
   */
  lemma RunReaches(h: Heap, ops: seq<HeapOp>)
    requires Started(h) && h.base == 0 && AllGranted(h, ops)
    requires LowTables(h.machine) && Reachable(h.machine)
    ensures var h' := HeapRuns.Run(h, ops);
            Started(h') && (Reachable(h'.machine) <==> ClearOf(h.machine, PagesOf(h')))
  {
    hide Started, AllGranted, Grown, Reachable, LowTables, ClearOf;
    RunExtends(h, ops);
    GrownReaches(h, HeapRuns.Run(h, ops));
  }

  lemma GrownReaches(h: Heap, h': Heap)
    requires Started(h) && Started(h') && h.base == 0 && Grown(h, h')
    requires LowTables(h.machine) && Reachable(h.machine)
    ensures Reachable(h'.machine) <==> ClearOf(h.machine, PagesOf(h'))
  {
    hide Walk, IsStructure, Sound, PagesHaveFrames, ClearFrom, Extends, LowTables, OnFreshFrames, Reserved,
         DirEntry, Valid;
    var n := PagesOf(h') - PagesOf(h);
    if ClearOf(h.machine, PagesOf(h')) {
      GrowthReaches(h.machine, h'.machine, PagesOf(h), n);
    } else {
      var f: nat :| IsStructure(h.machine, f) && f < PagesOf(h');
      StructuresStay(h.machine, h'.machine, 0, PagesOf(h), n, f);
      HeapHidesStructure(h', f);
    }
  }
}
