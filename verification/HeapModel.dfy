/**
 The heap on top of the page tables and the frame allocator. Growing the heap takes frames one
 by one and maps them; this module proves that the pages of the heap stay on frames of their
 own, apart from each other and from every paging structure.
 */
module HeapModel {
  import opened Words
  import opened FrameMap
  import opened PageEntry
  import opened Paging
  import opened PagingRuns
  import opened HeapList

  /** `pages` is the code's page counter; `base` the list head. */
  datatype Heap = Heap(machine: Machine, base: nat, nodes: seq<Node>, pages: nat, inited: bool)

  // ---- the code

  /** Setting the writable bit through vmmngr_get_page; a null result is left alone. */
  function AddWritable(m: Machine, virt: nat): Machine
    requires Inv(m) && virt < WORD_SPAN
  {
    var table := FrameNumber(DirEntry(m, DirIndex(virt)));
    if table == 0 then m else
    ZeroEntry();
    SetWord(m, table, TableIndex(virt), AddAttrib(PageEntryOf(m, virt), 2))
  }

  /** The mapping loop of malloc_init. */
  function MapRange(m: Machine, phys: nat, virt: nat, n: nat): Machine
    requires Inv(m) && phys < WORD_SPAN && virt < WORD_SPAN
    decreases n
  {
    if n == 0 then m else
    MapPageInv(m, phys, virt);
    AddWritableKeeps(MapPage(m, phys, virt), virt);
    MapRange(AddWritable(MapPage(m, phys, virt), virt), Wrap(phys + PAGE_SIZE), Wrap(virt + PAGE_SIZE), n - 1)
  }

  /** No page of the loop lacks a table. */
  predicate AllMapped(m: Machine, phys: nat, virt: nat, n: nat)
    requires Inv(m) && phys < WORD_SPAN && virt < WORD_SPAN
    decreases n
  {
    n == 0 || (
      CanMap(m, virt) && (
        MapPageInv(m, phys, virt);
        AddWritableKeeps(MapPage(m, phys, virt), virt);
        AllMapped(AddWritable(MapPage(m, phys, virt), virt), Wrap(phys + PAGE_SIZE), Wrap(virt + PAGE_SIZE), n - 1)))
  }

  /** One round of the growth loop: a frame, if there is one, mapped at `virt`. */
  function GrowOne(m: Machine, virt: nat): (Machine, nat)
    requires Inv(m) && virt < WORD_SPAN
  {
    var (frames, _, address) := AllocPage(m.frames, 0);
    GrabKeeps(m, 1);
    AddressInRange(m.frames);
    var after := m.(frames := frames);
    if address == 0 then (after, 0) else (MapPage(after, address, virt), 1)
  }

  lemma AddressInRange(f: Frames)
    requires Valid(f)
    ensures AllocBlocks(f, 1).1 < WORD_SPAN
  {
    if AllocBlocks(f, 1).1 != 0 {
      AllocOne(f);
    }
  }

  /** The growth loop: the machine afterwards and how many pages were obtained. */
  function GrowPages(m: Machine, virt: nat, n: nat): (Machine, nat)
    requires Inv(m) && virt < WORD_SPAN
    decreases n
  {
    if n == 0 then (m, 0) else
    GrowOneInv(m, virt);
    var (after, got) := GrowOne(m, virt);
    var (last, more) := GrowPages(after, Wrap(virt + PAGE_SIZE), n - 1);
    (last, got + more)
  }

  /** Every round obtains a frame and finds or gets a table. */
  predicate AllGrown(m: Machine, virt: nat, n: nat)
    requires Inv(m) && virt < WORD_SPAN
    decreases n
  {
    n == 0 || (
      Grows(m, virt) && (
        GrowOneInv(m, virt);
        AllGrown(GrowOne(m, virt).0, Wrap(virt + PAGE_SIZE), n - 1)))
  }

  predicate Grows(m: Machine, virt: nat)
    requires Inv(m) && virt < WORD_SPAN
  {
    GrabKeeps(m, 1);
    AllocBlocks(m.frames, 1).1 != 0 && CanMap(m.(frames := AllocBlocks(m.frames, 1).0), virt)
  }

  lemma GrowOneInv(m: Machine, virt: nat)
    requires Inv(m) && virt < WORD_SPAN
    ensures Inv(GrowOne(m, virt).0)
  {
    GrabKeeps(m, 1);
    AddressInRange(m.frames);
    var (frames, _, address) := AllocPage(m.frames, 0);
    if address != 0 {
      MapPageInv(m.(frames := frames), address, virt);
    }
  }

  lemma WritableReads(e: bv32)
    ensures IsPresent(AddAttrib(e, 2)) == IsPresent(e)
    ensures FrameNumber(AddAttrib(e, 2)) == FrameNumber(e)
    ensures TopBit(AddAttrib(e, 2)) == TopBit(e)
  {
    hide AddAttrib, TopBit, Nat;
    WritablePresent(e);
    WritableField(e);
    AddFields(e, 2) by { LowFlag(); }
  }

  lemma WritablePresent(e: bv32)
    ensures IsPresent(AddAttrib(e, 2)) == IsPresent(e)
  {
  }

  lemma WritableField(e: bv32)
    ensures FrameField(AddAttrib(e, 2)) == FrameField(e)
  {
  }

  /** The writable bit changes no translation. */
  lemma AddWritableKeeps(m: Machine, virt: nat)
    requires Inv(m) && virt < WORD_SPAN
    ensures var m' := AddWritable(m, virt);
            && Inv(m') && m'.frames == m.frames && m'.dir == m.dir && m'.mem[m.dir] == m.mem[m.dir] && |m'.mem| == |m.mem|
            && forall q :: 0 <= q < ENTRIES * ENTRIES ==> Walk(m', q) == Walk(m, q) && TopLeft(m', q) == TopLeft(m, q)
  {
    ZeroEntry();
    hide IsPresent, FrameNumber, TopBit, AddAttrib;
    if FrameNumber(DirEntry(m, DirIndex(virt))) != 0 {
      Indices(virt);
      var e := PageEntryOf(m, virt);
      WritableReads(e);
      SetPageKeeps(m, virt, AddAttrib(e, 2));
    }
  }

  // ---- the pages of the heap and their frames

  function PageNumber(base: nat, k: nat): nat {
    base / PAGE_SIZE + k
  }

  predicate InSpace(base: nat, pages: nat) {
    base % PAGE_SIZE == 0 && base + pages * PAGE_SIZE <= WORD_SPAN
  }

  /** A used frame inside the map that holds no paging structure. */
  ghost predicate Backing(m: Machine, f: nat)
    requires Shape(m)
  {
    Reserved(m, f) && !IsStructure(m, f)
  }

  ghost predicate PageHasFrame(m: Machine, page: nat)
    requires Shape(m) && page < ENTRIES * ENTRIES
  {
    Walk(m, page).Maps? && Backing(m, Walk(m, page).frame)
  }

  ghost predicate PagesHaveFrames(m: Machine, base: nat, pages: nat)
    requires Shape(m) && InSpace(base, pages)
  {
    && (forall k :: 0 <= k < pages ==> PageHasFrame(m, PageNumber(base, k)))
    && (forall j, k :: 0 <= j < k < pages ==> Walk(m, PageNumber(base, j)) != Walk(m, PageNumber(base, k)))
  }

  /** No entry from page `from` on carries a leftover bit 31. */
  ghost predicate ClearFrom(m: Machine, from: nat)
    requires Inv(m)
  {
    forall q :: from <= q < ENTRIES * ENTRIES ==> !TopLeft(m, q)
  }

  /**
   Every heap page is mapped to a used frame that holds no paging structure, different pages to
   different frames; the entries of the pages not yet reached carry no leftover bit 31.
   */
  ghost predicate HeapMapped(m: Machine, base: nat, pages: nat) {
    Inv(m) && InSpace(base, pages) && PagesHaveFrames(m, base, pages) && ClearFrom(m, PageNumber(base, pages))
  }

  /** No heap page is on frame `f`. */
  ghost predicate Unmapped(m: Machine, base: nat, pages: nat, f: nat)
    requires Shape(m) && InSpace(base, pages)
  {
    forall k :: 0 <= k < pages ==> Walk(m, PageNumber(base, k)) != Maps(f)
  }

  ghost predicate SameWalks(m: Machine, m': Machine, base: nat, pages: nat)
    requires Shape(m) && Shape(m') && InSpace(base, pages)
  {
    forall k :: 0 <= k < pages ==> Walk(m', PageNumber(base, k)) == Walk(m, PageNumber(base, k))
  }

  /** Used frames stay used, and no used frame becomes a paging structure. */
  ghost predicate FramesKept(m: Machine, m': Machine)
    requires Shape(m) && Shape(m')
  {
    forall f: nat :: (Reserved(m, f) ==> Reserved(m', f)) && (Backing(m, f) ==> Backing(m', f))
  }

  lemma MapPageKeepsFrames(m: Machine, phys: nat, virt: nat)
    requires Inv(m) && phys < WORD_SPAN && virt < WORD_SPAN
    ensures Shape(MapPage(m, phys, virt)) && FramesKept(m, MapPage(m, phys, virt))
  {
    hide MapPage, IsStructure;
    MapPageFrames(m, phys, virt);
  }

  /** Heap pages survive any step that keeps their walks and the used frames. */
  lemma PagesCarry(m: Machine, m': Machine, base: nat, pages: nat)
    requires Shape(m) && Shape(m') && InSpace(base, pages) && PagesHaveFrames(m, base, pages)
    requires SameWalks(m, m', base, pages) && FramesKept(m, m')
    ensures PagesHaveFrames(m', base, pages)
  {
    hide Walk, Backing, Reserved, Shape;
    forall k | 0 <= k < pages
      ensures PageHasFrame(m', PageNumber(base, k))
    {
      assert PageHasFrame(m, PageNumber(base, k));
    }
  }

  lemma PagesGrow(m: Machine, base: nat, pages: nat, f: nat)
    requires Shape(m) && InSpace(base, pages + 1) && PagesHaveFrames(m, base, pages)
    requires Walk(m, PageNumber(base, pages)) == Maps(f) && Backing(m, f) && Unmapped(m, base, pages, f)
    ensures PagesHaveFrames(m, base, pages + 1)
  {
    hide Walk, Backing;
  }

  /** What mapping the page at the end of the heap does to walks. */
  lemma MapNextWalks(m: Machine, base: nat, pages: nat, f: nat)
    requires Inv(m) && InSpace(base, pages + 1) && ClearFrom(m, PageNumber(base, pages))
    requires f * PAGE_SIZE < WORD_SPAN && CanMap(m, base + pages * PAGE_SIZE)
    ensures var m' := MapPage(m, f * PAGE_SIZE, base + pages * PAGE_SIZE);
            && Inv(m') && Walk(m', PageNumber(base, pages)) == Maps(f)
            && SameWalks(m, m', base, pages) && ClearFrom(m', PageNumber(base, pages + 1))
  {
    hide MapPage, Walk, TopLeft, CanMap, DirEntry, Reserved, Valid;
    NextPage(base, pages, f);
    MapPageTranslates(m, f * PAGE_SIZE, base + pages * PAGE_SIZE);
  }

  lemma NextPage(base: nat, pages: nat, f: nat)
    requires InSpace(base, pages + 1)
    ensures (base + pages * PAGE_SIZE) / PAGE_SIZE == PageNumber(base, pages) && f * PAGE_SIZE / PAGE_SIZE == f
    ensures base + pages * PAGE_SIZE < WORD_SPAN
  {
  }

  /** Mapping an available frame at the end of the heap adds one page to it. */
  lemma MapNext(m: Machine, base: nat, pages: nat, f: nat)
    requires HeapMapped(m, base, pages) && InSpace(base, pages + 1)
    requires Backing(m, f) && Unmapped(m, base, pages, f) && CanMap(m, base + pages * PAGE_SIZE)
    ensures f * PAGE_SIZE < WORD_SPAN
    ensures var m' := MapPage(m, f * PAGE_SIZE, base + pages * PAGE_SIZE);
            && HeapMapped(m', base, pages + 1)
            && Walk(m', PageNumber(base, pages)) == Maps(f)
            && SameWalks(m, m', base, pages) && FramesKept(m, m')
  {
    hide MapPage, Walk, CanMap, PagesHaveFrames, ClearFrom, FramesKept, SameWalks;
    var m' := MapPage(m, f * PAGE_SIZE, base + pages * PAGE_SIZE);
    MapNextWalks(m, base, pages, f);
    MapPageKeepsFrames(m, f * PAGE_SIZE, base + pages * PAGE_SIZE);
    PagesCarry(m, m', base, pages);
    assert Backing(m', f) && Unmapped(m', base, pages, f) by {
      UnmappedCarries(m, m', base, pages, f);
    }
    PagesGrow(m', base, pages, f);
  }

  lemma UnmappedCarries(m: Machine, m': Machine, base: nat, pages: nat, f: nat)
    requires Shape(m) && Shape(m') && InSpace(base, pages)
    requires Backing(m, f) && Unmapped(m, base, pages, f) && SameWalks(m, m', base, pages) && FramesKept(m, m')
    ensures Backing(m', f) && Unmapped(m', base, pages, f)
  {
    hide Walk, Backing;
  }

  // ---- initialization

  lemma WritableCarries(m: Machine, base: nat, pages: nat, virt: nat)
    requires HeapMapped(m, base, pages) && virt < WORD_SPAN
    ensures var m' := AddWritable(m, virt);
            HeapMapped(m', base, pages) && SameWalks(m, m', base, pages) && FramesKept(m, m')
  {
    hide AddWritable, Walk, TopLeft, PagesHaveFrames, IsStructure;
    AddWritableKeeps(m, virt);
    var m' := AddWritable(m, virt);
    SameStructures(m, m');
    PagesCarry(m, m', base, pages);
  }

  /** The frames from `s` that back heap pages `from` to `n`. */
  ghost predicate RunReady(m: Machine, s: nat, from: nat, n: nat)
    requires Shape(m)
  {
    forall f: nat :: s + from <= f < s + n ==> Backing(m, f)
  }

  /** Heap page `k` is on frame `s + k`. */
  ghost predicate OnRun(m: Machine, base: nat, pages: nat, s: nat)
    requires Shape(m) && InSpace(base, pages)
  {
    forall k :: 0 <= k < pages ==> Walk(m, PageNumber(base, k)) == Maps(s + k)
  }

  /** One round of the loop of malloc_init. */
  lemma InitRound(m: Machine, base: nat, i: nat, s: nat, n: nat)
    requires i < n && InSpace(base, n) && HeapMapped(m, base, i) && OnRun(m, base, i, s) && RunReady(m, s, i, n)
    requires CanMap(m, base + i * PAGE_SIZE)
    ensures (s + i) * PAGE_SIZE < WORD_SPAN
    ensures var m1 := MapPage(m, (s + i) * PAGE_SIZE, base + i * PAGE_SIZE); 
            && Inv(m1)
            && var m2 := AddWritable(m1, base + i * PAGE_SIZE);
               HeapMapped(m2, base, i + 1) && OnRun(m2, base, i + 1, s) && RunReady(m2, s, i + 1, n)
  {
    hide MapPage, AddWritable, Walk, CanMap, PagesHaveFrames, ClearFrom, Backing;
    assert Backing(m, s + i);
    assert Unmapped(m, base, i, s + i);
    MapNext(m, base, i, s + i);
    var m1 := MapPage(m, (s + i) * PAGE_SIZE, base + i * PAGE_SIZE);
    WritableCarries(m1, base, i + 1, base + i * PAGE_SIZE);
  }

  /** The whole loop of malloc_init puts heap page `k` on frame `s + k`. */
  lemma {:induction false} MapRangeHeap(m: Machine, base: nat, i: nat, s: nat, n: nat)
    requires i <= n && InSpace(base, n) && HeapMapped(m, base, i) && OnRun(m, base, i, s) && RunReady(m, s, i, n)
    requires i < n ==> base + i * PAGE_SIZE < WORD_SPAN && (s + i) * PAGE_SIZE < WORD_SPAN
    requires i < n ==> AllMapped(m, (s + i) * PAGE_SIZE, base + i * PAGE_SIZE, n - i)
    ensures i < n ==> HeapMapped(MapRange(m, (s + i) * PAGE_SIZE, base + i * PAGE_SIZE, n - i), base, n)
    ensures i < n ==> OnRun(MapRange(m, (s + i) * PAGE_SIZE, base + i * PAGE_SIZE, n - i), base, n, s)
    decreases n - i
  {
    hide MapPage, AddWritable, Walk, CanMap, PagesHaveFrames, ClearFrom, OnRun, DirEntry, Reserved, Valid;
    if i < n {
      InitRound(m, base, i, s, n);
      MapPageInv(m, (s + i) * PAGE_SIZE, base + i * PAGE_SIZE);
      AddWritableKeeps(MapPage(m, (s + i) * PAGE_SIZE, base + i * PAGE_SIZE), base + i * PAGE_SIZE);
      var m2 := AddWritable(MapPage(m, (s + i) * PAGE_SIZE, base + i * PAGE_SIZE), base + i * PAGE_SIZE);
      if i + 1 < n {
        RunBelow(m2, s, i + 1, n);
        MapRangeHeap(m2, base, i + 1, s, n);
      }
    }
  }

  lemma RunBelow(m: Machine, s: nat, i: nat, n: nat)
    requires Shape(m) && i < n && RunReady(m, s, i, n)
    ensures (s + i) * PAGE_SIZE < WORD_SPAN
  {
    assert Backing(m, s + i);
  }

  /** Before the first page: nothing is mapped yet. */
  lemma HeapStarts(m: Machine, base: nat)
    requires Inv(m) && InSpace(base, 0) && ClearFrom(m, PageNumber(base, 0))
    ensures HeapMapped(m, base, 0) && forall s: nat :: OnRun(m, base, 0, s)
  {
  }

  /** Taking frames keeps every walk and makes none of the used frames a structure. */
  lemma GrabCarries(m: Machine, n: nat, base: nat, pages: nat)
    requires HeapMapped(m, base, pages)
    ensures var m' := m.(frames := AllocBlocks(m.frames, n).0);
            HeapMapped(m', base, pages) && SameWalks(m, m', base, pages) && FramesKept(m, m')
  {
    hide AllocBlocks, Walk, TopLeft, PagesHaveFrames, IsStructure;
    GrabKeeps(m, n);
    GrabGrows(m.frames, n);
    var m' := m.(frames := AllocBlocks(m.frames, n).0);
    SameStructures(m, m');
    PagesCarry(m, m', base, pages);
  }

  /** A frame that was free before an allocation and is used after it backs nothing yet. */
  lemma GrabbedIsNew(m: Machine, n: nat, base: nat, pages: nat, f: nat)
    requires HeapMapped(m, base, pages)
    requires 0 < f < MapEnd(m.frames) && !m.frames.bits[f] && AllocBlocks(m.frames, n).0.bits[f]
    ensures var m' := m.(frames := AllocBlocks(m.frames, n).0);
            Shape(m') && Backing(m', f) && Unmapped(m', base, pages, f)
  {
    hide AllocBlocks, Walk, FrameNumber, IsPresent;
    GrabGrows(m.frames, n);
    GrabCarries(m, n, base, pages);
    var m' := m.(frames := AllocBlocks(m.frames, n).0);
    forall k | 0 <= k < pages
      ensures Walk(m', PageNumber(base, k)) != Maps(f)
    {
      assert PageHasFrame(m, PageNumber(base, k));
    }
    SameStructures(m, m');
  }

  /** The frames malloc_init takes in one run inside the map can back the whole heap. */
  lemma GrabRun(m: Machine, base: nat, n: nat)
    requires HeapMapped(m, base, 0) && n > 0
    requires AllocBlocks(m.frames, n).1 != 0 && exists s: nat :: FreeRun(m.frames, s, n)
    ensures var (frames, phys) := AllocBlocks(m.frames, n); var m' := m.(frames := frames);
            && Shape(m') && phys % PAGE_SIZE == 0 && phys < WORD_SPAN
            && RunReady(m', phys / PAGE_SIZE, 0, n)
  {
    FirstFitIsFirst(m.frames, n);
    var s := FirstFit(m.frames, n);
    GrabGrows(m.frames, n);
    hide Walk;
    forall f: nat | s <= f < s + n
      ensures Backing(m.(frames := AllocBlocks(m.frames, n).0), f)
    {
      GrabbedIsNew(m, n, base, 0, f);
    }
  }

  // ---- growth

  /** One successful round of growth adds one page on a frame of its own. */
  lemma GrowOneHeap(m: Machine, base: nat, pages: nat)
    requires HeapMapped(m, base, pages) && InSpace(base, pages + 1) && Grows(m, base + pages * PAGE_SIZE)
    ensures var (m', got) := GrowOne(m, base + pages * PAGE_SIZE);
            got == 1 && HeapMapped(m', base, pages + 1) && SameWalks(m, m', base, pages)
  {
    hide Walk, MapPage, CanMap, PagesHaveFrames, ClearFrom, FramesKept, AllocBlocks, SetFrame, AddAttrib;
    AllocOne(m.frames);
    var (frames, address) := AllocBlocks(m.frames, 1);
    GrabCarries(m, 1, base, pages);
    GrabbedIsNew(m, 1, base, pages, address / BLOCK_SIZE);
    MapNext(m.(frames := frames), base, pages, address / BLOCK_SIZE);
  }

  lemma GrowthUnfolds(m: Machine, virt: nat, n: nat)
    requires Inv(m) && virt < WORD_SPAN && n > 0 && AllGrown(m, virt, n)
    ensures Grows(m, virt) && Inv(GrowOne(m, virt).0)
    ensures AllGrown(GrowOne(m, virt).0, Wrap(virt + PAGE_SIZE), n - 1)
    ensures GrowPages(m, virt, n).0 == GrowPages(GrowOne(m, virt).0, Wrap(virt + PAGE_SIZE), n - 1).0
    ensures GrowPages(m, virt, n).1 == GrowOne(m, virt).1 + GrowPages(GrowOne(m, virt).0, Wrap(virt + PAGE_SIZE), n - 1).1
  {
    hide GrowOne, Inv, Grows;
    GrowOneInv(m, virt);
  }

  lemma GrowPagesUnfolds(m: Machine, virt: nat, n: nat)
    requires Inv(m) && virt < WORD_SPAN && n > 0
    ensures Inv(GrowOne(m, virt).0)
    ensures GrowPages(m, virt, n).0 == GrowPages(GrowOne(m, virt).0, Wrap(virt + PAGE_SIZE), n - 1).0
    ensures GrowPages(m, virt, n).1 == GrowOne(m, virt).1 + GrowPages(GrowOne(m, virt).0, Wrap(virt + PAGE_SIZE), n - 1).1
  {
    hide GrowOne, Inv;
    GrowOneInv(m, virt);
  }

  lemma GrowthEnds(m: Machine, virt: nat)
    requires Inv(m) && virt < WORD_SPAN
    ensures GrowPages(m, virt, 0) == (m, 0)
  {
  }

  lemma SameWalksJoin(m0: Machine, m1: Machine, m2: Machine, base: nat, pages: nat)
    requires Shape(m0) && Shape(m1) && Shape(m2) && InSpace(base, pages + 1)
    requires SameWalks(m0, m1, base, pages) && SameWalks(m1, m2, base, pages + 1)
    ensures SameWalks(m0, m2, base, pages)
  {
    hide Walk;
  }

  /** Successful growth extends the heap and moves no page it already had. */
  lemma {:induction false} GrowHeap(m: Machine, base: nat, pages: nat, n: nat)
    requires HeapMapped(m, base, pages) && InSpace(base, pages + n)
    requires n > 0 && AllGrown(m, base + pages * PAGE_SIZE, n)
    ensures var (m', got) := GrowPages(m, base + pages * PAGE_SIZE, n);
            got == n && HeapMapped(m', base, pages + n) && SameWalks(m, m', base, pages)
    decreases n
  {
    hide Walk, GrowOne, Grows, GrowPages, AllGrown, PagesHaveFrames, ClearFrom, DirEntry, Reserved, Valid, SameWalks;
    var virt := base + pages * PAGE_SIZE;
    GrowthUnfolds(m, virt, n);
    GrowOneHeap(m, base, pages);
    var m1 := GrowOne(m, virt).0;
    if n > 1 {
      assert Wrap(virt + PAGE_SIZE) == base + (pages + 1) * PAGE_SIZE;
      GrowHeap(m1, base, pages + 1, n - 1);
      SameWalksJoin(m, m1, GrowPages(m1, virt + PAGE_SIZE, n - 1).0, base, pages);
    } else {
      GrowthEnds(m1, Wrap(virt + PAGE_SIZE));
    }
  }
}
