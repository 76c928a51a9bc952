/**
 What growing the heap leaves alone: every walk outside the pages added, every present directory
 entry, and every used frame, none of which becomes a table or a page of the heap.
 */
module HeapFrames {
  import opened Words
  import opened FrameMap
  import opened PageEntry
  import opened Paging
  import opened PagingRuns
  import opened HeapModel

  /** Page `q` is one of the `n` pages after the first `pages` of the heap. */
  predicate Added(base: nat, pages: nat, n: nat, q: nat) {
    PageNumber(base, pages) <= q < PageNumber(base, pages + n)
  }

  /** Directory entry `i` is that of an added page. */
  predicate Covered(base: nat, pages: nat, n: nat, i: nat) {
    n > 0 && PageNumber(base, pages) / ENTRIES <= i <= PageNumber(base, pages + n - 1) / ENTRIES
  }

  /** From `m` to `m'` nothing changed but the added pages, their missing tables, and free frames. */
  ghost predicate Extends(m: Machine, m': Machine, base: nat, pages: nat, n: nat)
    requires Shape(m) && Shape(m') && InSpace(base, pages + n)
  {
    && m'.dir == m.dir && FramesKept(m, m')
    && (forall i :: 0 <= i < ENTRIES && (IsPresent(DirEntry(m, i)) || !Covered(base, pages, n, i)) ==> DirEntry(m', i) == DirEntry(m, i))
    && (forall q :: 0 <= q < ENTRIES * ENTRIES && !Added(base, pages, n, q) ==> Walk(m', q) == Walk(m, q))
  }

  /** The added pages are on no frame that was used in `m`. */
  ghost predicate OnFreshFrames(m: Machine, m': Machine, base: nat, pages: nat, n: nat)
    requires Shape(m) && Shape(m') && InSpace(base, pages + n)
  {
    forall k, f: nat :: pages <= k < pages + n && Reserved(m, f) ==> Walk(m', PageNumber(base, k)) != Maps(f)
  }

  lemma ExtendsSelf(m: Machine, base: nat, pages: nat)
    requires Shape(m) && InSpace(base, pages)
    ensures Extends(m, m, base, pages, 0) && OnFreshFrames(m, m, base, pages, 0)
  {
    hide Walk, Backing, Reserved, IsPresent;
  }

  lemma AddedJoin(base: nat, pages: nat, a: nat, b: nat)
    ensures forall q: nat :: Added(base, pages, a + b, q) <==> Added(base, pages, a, q) || Added(base, pages + a, b, q)
    ensures forall i: nat :: Covered(base, pages, a, i) || Covered(base, pages + a, b, i) ==> Covered(base, pages, a + b, i)
  {
  }

  lemma ExtendsJoin(m0: Machine, m1: Machine, m2: Machine, base: nat, pages: nat, a: nat, b: nat)
    requires Shape(m0) && Shape(m1) && Shape(m2) && InSpace(base, pages + a + b)
    requires Extends(m0, m1, base, pages, a) && Extends(m1, m2, base, pages + a, b)
    ensures Extends(m0, m2, base, pages, a + b)
  {
    AddedJoin(base, pages, a, b);
    hide Walk, Backing, Reserved, IsPresent, DirEntry, Added, Covered, Shape;
    forall i | 0 <= i < ENTRIES && (IsPresent(DirEntry(m0, i)) || !Covered(base, pages, a + b, i))
      ensures DirEntry(m2, i) == DirEntry(m0, i)
    {
      assert DirEntry(m1, i) == DirEntry(m0, i);
    }
    forall q | 0 <= q < ENTRIES * ENTRIES && !Added(base, pages, a + b, q)
      ensures Walk(m2, q) == Walk(m0, q)
    {
      assert Walk(m1, q) == Walk(m0, q);
    }
  }

  lemma FreshJoin(m0: Machine, m1: Machine, m2: Machine, base: nat, pages: nat, a: nat, b: nat)
    requires Shape(m0) && Shape(m1) && Shape(m2) && InSpace(base, pages + a + b)
    requires Extends(m0, m1, base, pages, a) && Extends(m1, m2, base, pages + a, b)
    requires OnFreshFrames(m0, m1, base, pages, a) && OnFreshFrames(m1, m2, base, pages + a, b)
    ensures OnFreshFrames(m0, m2, base, pages, a + b)
  {
    hide Walk, Backing, Reserved, IsPresent, DirEntry, Shape;
    forall k, f: nat | pages <= k < pages + a + b && Reserved(m0, f)
      ensures Walk(m2, PageNumber(base, k)) != Maps(f)
    {
      if k < pages + a {
        assert !Added(base, pages + a, b, PageNumber(base, k));
      }
    }
  }

  /** Directory entries that mapping a page leaves alone. */
  lemma MapPageDirectory(m: Machine, phys: nat, virt: nat)
    requires Inv(m) && phys < WORD_SPAN && virt < WORD_SPAN && CanMap(m, virt)
    ensures var m' := MapPage(m, phys, virt);
            && Inv(m') && m'.dir == m.dir
            && forall i :: 0 <= i < ENTRIES && (IsPresent(DirEntry(m, i)) || i != DirIndex(virt)) ==> DirEntry(m', i) == DirEntry(m, i)
  {
    hide IsPresent, FrameNumber, MapEntry, AddTable, AllocBlocks, SetWord;
    var i := DirIndex(virt);
    if IsPresent(DirEntry(m, i)) {
      SetPageKeeps(m, virt, MapEntry(PageEntryOf(m, virt), phys));
    } else {
      AddTableKeeps(m, i);
      var grown := AddTable(m, i);
      SetPageKeeps(grown, virt, MapEntry(PageEntryOf(grown, virt), phys));
    }
  }

  lemma PageOf(base: nat, pages: nat)
    requires InSpace(base, pages + 1)
    ensures base + pages * PAGE_SIZE < WORD_SPAN
    ensures (base + pages * PAGE_SIZE) / PAGE_SIZE == PageNumber(base, pages)
    ensures DirIndex(base + pages * PAGE_SIZE) == PageNumber(base, pages) / ENTRIES
  {
    Indices(base + pages * PAGE_SIZE);
  }

  /** Mapping the next page of the heap, whatever frame it gets. */
  lemma MapExtends(m: Machine, phys: nat, base: nat, pages: nat)
    requires Inv(m) && InSpace(base, pages + 1) && phys < WORD_SPAN
    requires CanMap(m, base + pages * PAGE_SIZE)
    ensures var m' := MapPage(m, phys, base + pages * PAGE_SIZE); Inv(m') && Extends(m, m', base, pages, 1)
  {
    hide MapPage, Walk, CanMap, FramesKept, DirEntry, IsPresent, TopLeft, Inv;
    var virt := base + pages * PAGE_SIZE;
    PageOf(base, pages);
    MapPageTranslates(m, phys, virt);
    MapPageKeepsFrames(m, phys, virt);
    MapPageDirectory(m, phys, virt);
  }

  /** A change of walks, directory and structures that is none extends the heap by nothing. */
  lemma SameExtends(m: Machine, m': Machine, base: nat, pages: nat)
    requires Shape(m) && Shape(m') && InSpace(base, pages) && m'.dir == m.dir && m'.mem[m.dir] == m.mem[m.dir]
    requires m'.frames.blocks == m.frames.blocks
    requires forall b :: 0 <= b < MapEnd(m.frames) && m.frames.bits[b] ==> m'.frames.bits[b]
    requires forall q :: 0 <= q < ENTRIES * ENTRIES ==> Walk(m', q) == Walk(m, q)
    ensures Extends(m, m', base, pages, 0)
  {
    hide Walk, IsStructure, IsPresent;
    SameStructures(m, m');
  }

  /** Taking frames. */
  lemma GrabExtends(m: Machine, n: nat, base: nat, pages: nat)
    requires Inv(m) && InSpace(base, pages)
    ensures var m' := m.(frames := AllocBlocks(m.frames, n).0); Inv(m') && Extends(m, m', base, pages, 0)
  {
    hide Walk, AllocBlocks, TopLeft;
    GrabKeeps(m, n);
    GrabGrows(m.frames, n);
    SameExtends(m, m.(frames := AllocBlocks(m.frames, n).0), base, pages);
  }

  /** Setting the writable bit. */
  lemma WritableExtends(m: Machine, virt: nat, base: nat, pages: nat)
    requires Inv(m) && virt < WORD_SPAN && InSpace(base, pages)
    ensures var m' := AddWritable(m, virt); Inv(m') && Extends(m, m', base, pages, 0)
  {
    hide Walk, AddWritable, TopLeft;
    AddWritableKeeps(m, virt);
    SameExtends(m, AddWritable(m, virt), base, pages);
  }

  // ---- growth

  /** One round of growth. */
  lemma GrowOneExtends(m: Machine, base: nat, pages: nat)
    requires HeapMapped(m, base, pages) && InSpace(base, pages + 1) && Grows(m, base + pages * PAGE_SIZE)
    ensures var m' := GrowOne(m, base + pages * PAGE_SIZE).0;
            Inv(m') && Extends(m, m', base, pages, 1) && OnFreshFrames(m, m', base, pages, 1)
  {
    hide Walk, MapPage, CanMap, PagesHaveFrames, ClearFrom, FramesKept, AllocBlocks, SetFrame, AddAttrib, Extends,
         DirEntry;
    AllocOne(m.frames);
    var (frames, address) := AllocBlocks(m.frames, 1);
    var taken := m.(frames := frames);
    GrabExtends(m, 1, base, pages);
    GrabCarries(m, 1, base, pages);
    AddressInRange(m.frames);
    MapExtends(taken, address, base, pages);
    ExtendsJoin(m, taken, MapPage(taken, address, base + pages * PAGE_SIZE), base, pages, 0, 1);
    MapNextWalks(taken, base, pages, address / BLOCK_SIZE);
  }

  /** Growth by any number of pages. */
  lemma {:induction false} GrowthExtends(m: Machine, base: nat, pages: nat, n: nat)
    requires HeapMapped(m, base, pages) && InSpace(base, pages + n)
    requires n > 0 && AllGrown(m, base + pages * PAGE_SIZE, n)
    ensures var m' := GrowPages(m, base + pages * PAGE_SIZE, n).0;
            Inv(m') && Extends(m, m', base, pages, n) && OnFreshFrames(m, m', base, pages, n)
    decreases n
  {
    hide GrowOne, Grows, GrowPages, AllGrown, PagesHaveFrames, ClearFrom, Extends, OnFreshFrames, DirEntry,
         Reserved, Valid;
    var virt := base + pages * PAGE_SIZE;
    GrowthUnfolds(m, virt, n);
    GrowOneExtends(m, base, pages);
    GrowOneHeap(m, base, pages);
    var m1 := GrowOne(m, virt).0;
    if n > 1 {
      assert Wrap(virt + PAGE_SIZE) == base + (pages + 1) * PAGE_SIZE;
      GrowthExtends(m1, base, pages + 1, n - 1);
      ExtendsJoin(m, m1, GrowPages(m, virt, n).0, base, pages, 1, n - 1);
      FreshJoin(m, m1, GrowPages(m, virt, n).0, base, pages, 1, n - 1);
    } else {
      GrowthEnds(m1, Wrap(virt + PAGE_SIZE));
    }
  }

  /** A round of growth that finds no frame changes nothing. */
  lemma GrowOneWithoutFrame(m: Machine, virt: nat)
    requires Inv(m) && virt < WORD_SPAN && AllocBlocks(m.frames, 1).1 == 0
    ensures GrowOne(m, virt) == (m, 0)
  {
    hide AllocBlocks, MapPage;
    NullKeeps(m.frames, 1);
    GrabKeeps(m, 1);
    AddressInRange(m.frames);
  }

  /** Nor does any growth: every further round asks the same allocator again. */
  lemma {:induction false} GrowthWithoutFrames(m: Machine, virt: nat, n: nat)
    requires Inv(m) && virt < WORD_SPAN && AllocBlocks(m.frames, 1).1 == 0
    ensures GrowPages(m, virt, n) == (m, 0)
    decreases n
  {
    hide AllocBlocks, GrowOne, Inv;
    if n > 0 {
      GrowOneWithoutFrame(m, virt);
      GrowthWithoutFrames(m, Wrap(virt + PAGE_SIZE), n - 1);
    }
  }

  /**
   A round that finds a frame counts a page, but maps it only when there is a table or a frame
   for one: else the frame is taken and the page still faults.
   */
  lemma GrowOneWithFrame(m: Machine, virt: nat)
    requires Inv(m) && virt < WORD_SPAN && AllocBlocks(m.frames, 1).1 != 0 && !TopLeft(m, virt / PAGE_SIZE)
    ensures var taken := m.(frames := AllocBlocks(m.frames, 1).0); var (m', got) := GrowOne(m, virt);
            && got == 1 && Inv(taken) && Inv(m')
            && (CanMap(taken, virt) ==> Walk(m', virt / PAGE_SIZE) == Maps(AllocBlocks(m.frames, 1).1 / 4096))
            && (!CanMap(taken, virt) ==> m' == taken && Walk(m', virt / PAGE_SIZE) == Fault)
  {
    hide AllocBlocks, MapPage, Walk, TopLeft, SetFrame, AddAttrib;
    GrabKeeps(m, 1);
    AddressInRange(m.frames);
    var taken := m.(frames := AllocBlocks(m.frames, 1).0);
    if CanMap(taken, virt) {
      MapPageTranslates(taken, AllocBlocks(m.frames, 1).1, virt);
    } else {
      MapPageFails(taken, AllocBlocks(m.frames, 1).1, virt);
      NoTableFaults(taken, virt);
    }
  }

  lemma NoTableFaults(m: Machine, virt: nat)
    requires Inv(m) && virt < WORD_SPAN && !IsPresent(DirEntry(m, DirIndex(virt)))
    ensures Walk(m, virt / PAGE_SIZE) == Fault
  {
    hide IsPresent, FrameNumber;
    Indices(virt);
  }

  // ---- initialization

  /** The mapping loop of malloc_init. */
  lemma {:induction false} MapRangeExtends(m: Machine, phys: nat, base: nat, i: nat, n: nat)
    requires Inv(m) && phys < WORD_SPAN && i < n && InSpace(base, n)
    requires base + i * PAGE_SIZE < WORD_SPAN && AllMapped(m, phys, base + i * PAGE_SIZE, n - i)
    ensures var m' := MapRange(m, phys, base + i * PAGE_SIZE, n - i); Inv(m') && Extends(m, m', base, i, n - i)
    decreases n - i
  {
    hide MapPage, AddWritable, CanMap, Inv, Extends;
    var virt := base + i * PAGE_SIZE;
    MapExtends(m, phys, base, i);
    var m1 := MapPage(m, phys, virt);
    WritableExtends(m1, virt, base, i + 1);
    var m2 := AddWritable(m1, virt);
    ShapeOfInv(m);
    ShapeOfInv(m1);
    ShapeOfInv(m2);
    ExtendsJoin(m, m1, m2, base, i, 1, 0);
    if i + 1 < n {
      assert Wrap(virt + PAGE_SIZE) == base + (i + 1) * PAGE_SIZE;
      MapRangeExtends(m2, Wrap(phys + PAGE_SIZE), base, i + 1, n);
      ShapeOfInv(MapRange(m, phys, virt, n - i));
      ExtendsJoin(m, m2, MapRange(m, phys, virt, n - i), base, i, 1, n - i - 1);
    }
  }

  /** No entry of the `n` pages from `page` on carries a leftover bit 31. */
  ghost predicate NoneLeft(m: Machine, page: nat, n: nat)
    requires Inv(m)
  {
    forall q :: page <= q < page + n && q < ENTRIES * ENTRIES ==> !TopLeft(m, q)
  }

  /** The `n` pages from `page` on lie in a row on the frames from `frame` on. */
  ghost predicate InARow(m: Machine, page: nat, frame: nat, n: nat)
    requires Shape(m) && page + n <= ENTRIES * ENTRIES
  {
    forall q :: page <= q < page + n ==> Walk(m, q) == Maps(frame + (q - page))
  }

  /**
   The mapping loop of malloc_init on its own: it maps a row of pages to a row of frames,
   whatever frames these are.
   */
  lemma {:induction false} MapRangeWalks(m: Machine, frame: nat, page: nat, n: nat)
    requires Inv(m) && n > 0 && frame + n <= 0x10_0000 && page + n <= ENTRIES * ENTRIES
    requires NoneLeft(m, page, n) && AllMapped(m, frame * PAGE_SIZE, page * PAGE_SIZE, n)
    ensures var m' := MapRange(m, frame * PAGE_SIZE, page * PAGE_SIZE, n);
            && Inv(m') && InARow(m', page, frame, n)
            && forall q :: 0 <= q < ENTRIES * ENTRIES && !(page <= q < page + n) ==> Walk(m', q) == Walk(m, q)
    decreases n
  {
    hide MapPage, AddWritable, CanMap, Walk, TopLeft, Inv;
    var virt, phys := page * PAGE_SIZE, frame * PAGE_SIZE;
    assert virt / PAGE_SIZE == page && phys / PAGE_SIZE == frame;
    MapPageTranslates(m, phys, virt);
    var m1 := MapPage(m, phys, virt);
    AddWritableKeeps(m1, virt);
    var m2 := AddWritable(m1, virt);
    ShapeOfInv(m);
    ShapeOfInv(m1);
    ShapeOfInv(m2);
    assert Walk(m2, page) == Maps(frame);
    if n > 1 {
      assert Wrap(virt + PAGE_SIZE) == (page + 1) * PAGE_SIZE && Wrap(phys + PAGE_SIZE) == (frame + 1) * PAGE_SIZE;
      MapRangeWalks(m2, frame + 1, page + 1, n - 1);
      var m' := MapRange(m, phys, virt, n);
      ShapeOfInv(m');
    }
  }

  lemma ShapeOfInv(m: Machine)
    requires Inv(m)
    ensures Shape(m)
  {
  }
}
