/**
 What the page entries permit: the flags of every entry after the operations of the virtual
 memory manager. The pages of malloc_init become writable; the pages the heap grows by do not,
 because the code sets the writable bit on a local copy of the entry.
 */
module PageRights {
  import opened Words
  import opened FrameMap
  import opened PageEntry
  import opened Paging
  import opened PagingRuns
  import opened HeapModel
  import PagingInit

  /** The entry of page `q`, 0 when it has no table. */
  function EntryAt(m: Machine, q: nat): bv32
    requires Inv(m) && q < ENTRIES * ENTRIES
  {
    if IsPresent(DirEntry(m, q / ENTRIES)) then m.mem[FrameNumber(DirEntry(m, q / ENTRIES))][q % ENTRIES] else 0
  }

  ghost predicate SameEntriesBut(m: Machine, m': Machine, page: nat)
    requires Inv(m) && Inv(m')
  {
    forall q :: 0 <= q < ENTRIES * ENTRIES && q != page ==> EntryAt(m', q) == EntryAt(m, q)
  }

  // ---- one edit

  lemma SetPageEntries(m: Machine, virt: nat, e: bv32)
    requires Inv(m) && virt < WORD_SPAN && IsPresent(DirEntry(m, DirIndex(virt)))
    ensures var m' := SetWord(m, FrameNumber(DirEntry(m, DirIndex(virt))), TableIndex(virt), e);
            && Inv(m') && m'.mem[m'.dir] == m.mem[m.dir]
            && EntryAt(m', virt / PAGE_SIZE) == e && SameEntriesBut(m, m', virt / PAGE_SIZE)
  {
    hide IsPresent, FrameNumber, TopBit;
    Indices(virt);
    SetPageKeeps(m, virt, e);
    var m' := SetWord(m, FrameNumber(DirEntry(m, DirIndex(virt))), TableIndex(virt), e);
    var page := virt / PAGE_SIZE;
    forall q | 0 <= q < ENTRIES * ENTRIES && q != page
      ensures EntryAt(m', q) == EntryAt(m, q)
    {
      assert DirEntry(m', q / ENTRIES) == DirEntry(m, q / ENTRIES);
      assert q / ENTRIES != page / ENTRIES || q % ENTRIES != page % ENTRIES;
    }
  }

  /** A new table starts with every entry zero, as if it had been there. */
  lemma AddTableEntries(m: Machine, i: nat)
    requires Inv(m) && i < ENTRIES && !IsPresent(DirEntry(m, i)) && AllocBlocks(m.frames, 1).1 != 0
    ensures var m' := AddTable(m, i);
            && Inv(m') && forall q :: 0 <= q < ENTRIES * ENTRIES ==> EntryAt(m', q) == EntryAt(m, q)
  {
    AddTableKeeps(m, i);
    hide IsPresent, FrameNumber, AddTable, AllocBlocks;
  }

  /** Mapping edits the entry of its page and no other. */
  lemma MapPageEntries(m: Machine, phys: nat, virt: nat)
    requires Inv(m) && phys < WORD_SPAN && virt < WORD_SPAN && CanMap(m, virt)
    ensures var m' := MapPage(m, phys, virt); var page := virt / PAGE_SIZE;
            && Inv(m') && EntryAt(m', page) == MapEntry(EntryAt(m, page), phys) && SameEntriesBut(m, m', page)
  {
    hide IsPresent, FrameNumber, MapEntry, AddTable, AllocBlocks, SetWord;
    Indices(virt);
    var i := DirIndex(virt);
    if IsPresent(DirEntry(m, i)) {
      SetPageEntries(m, virt, MapEntry(PageEntryOf(m, virt), phys));
    } else {
      AddTableKeeps(m, i);
      AddTableEntries(m, i);
      var grown := AddTable(m, i);
      SetPageEntries(grown, virt, MapEntry(PageEntryOf(grown, virt), phys));
    }
  }

  /** Setting the writable bit, once the page has a table. */
  lemma AddWritableEntries(m: Machine, virt: nat)
    requires Inv(m) && virt < WORD_SPAN && IsPresent(DirEntry(m, DirIndex(virt)))
    ensures var m' := AddWritable(m, virt); var page := virt / PAGE_SIZE;
            && Inv(m') && EntryAt(m', page) == AddAttrib(EntryAt(m, page), 2) && SameEntriesBut(m, m', page)
  {
    hide IsPresent, FrameNumber, AddAttrib, SetWord;
    Indices(virt);
    SetPageEntries(m, virt, AddAttrib(PageEntryOf(m, virt), 2));
  }

  // ---- flags

  lemma MapEntryFlags(e: bv32, addr: nat)
    requires addr % PAGE_SIZE == 0
    ensures Flags(MapEntry(e, addr)) == AddAttrib(Flags(e), 1)
  {
    hide AddAttrib, Flags, SetFrame, Word;
    LowFlag();
    AddFields(e, 1);
    WordOfPage(addr);
    FrameFields(AddAttrib(e, 1), Word(addr));
  }

  /** A mapped page keeps the flags its entry had and gains only the present bit. */
  lemma MapPageFlags(m: Machine, phys: nat, virt: nat)
    requires Inv(m) && phys < WORD_SPAN && virt < WORD_SPAN && CanMap(m, virt) && phys % PAGE_SIZE == 0
    ensures var m' := MapPage(m, phys, virt); var page := virt / PAGE_SIZE;
            && Inv(m') && Flags(EntryAt(m', page)) == AddAttrib(Flags(EntryAt(m, page)), 1)
  {
    hide MapPage, Flags, MapEntry, EntryAt, AddAttrib, Inv;
    MapPageEntries(m, phys, virt);
    MapEntryFlags(EntryAt(m, virt / PAGE_SIZE), phys);
  }

  /** Unmapping takes the present bit and leaves the other flags for the next mapping. */
  lemma UnmapPageFlags(m: Machine, virt: nat)
    requires Inv(m) && virt < WORD_SPAN
    ensures var m' := UnmapPage(m, virt); var page := virt / PAGE_SIZE;
            && Inv(m') && SameEntriesBut(m, m', page)
            && Flags(EntryAt(m', page)) == DelAttrib(Flags(EntryAt(m, page)), 1)
  {
    hide FrameNumber, Flags, SetFrame, DelAttrib, SetWord;
    ZeroEntry();
    Indices(virt);
    LowFlag();
    NoFlags();
    if IsPresent(DirEntry(m, DirIndex(virt))) {
      var e := PageEntryOf(m, virt);
      SetPageEntries(m, virt, UnmapEntry(e));
      FrameFields(e, 0);
      DelFields(SetFrame(e, 0), 1);
    }
  }

  lemma NoFlags()
    ensures (0 as bv32) & 0xFFF == 0 && DelAttrib(Flags(0), 1) == Flags(0)
  {
  }

  lemma TableEntryFlags(addr: nat)
    requires addr % PAGE_SIZE == 0
    ensures Flags(TableEntry(0, addr)) == 3
  {
    hide AddAttrib, Flags, SetFrame, Word;
    WordOfPage(addr);
    FrameFields(AddAttrib(AddAttrib(0, 1), 2), Word(addr));
    Three();
  }

  lemma Three()
    ensures Flags(AddAttrib(AddAttrib(0, 1), 2)) == 3
  {
  }

  /** A table that mapping adds is present and writable, not open to user code. */
  lemma NewTableFlags(m: Machine, phys: nat, virt: nat)
    requires Inv(m) && phys < WORD_SPAN && virt < WORD_SPAN && CanMap(m, virt)
    requires !IsPresent(DirEntry(m, DirIndex(virt)))
    ensures var m' := MapPage(m, phys, virt); Inv(m') && Flags(DirEntry(m', DirIndex(virt))) == 3
  {
    hide IsPresent, FrameNumber, TableEntry, MapEntry, AllocBlocks, Flags;
    var (frames, address) := AllocBlocks(m.frames, 1);
    AllocOne(m.frames);
    TableEntryFlags(address);
    AddTableKeeps(m, DirIndex(virt));
    var grown := AddTable(m, DirIndex(virt));
    assert DirEntry(grown, DirIndex(virt)) == TableEntry(0, address);
    SetPageEntries(grown, virt, MapEntry(PageEntryOf(grown, virt), phys));
  }

  // ---- vmmngr_init

  lemma FreshFlags(addr: nat)
    requires addr % PAGE_SIZE == 0
    ensures Flags(SetFrame(AddAttrib(AddAttrib(AddAttrib(0, 1), 2), 4), Word(addr))) == 7
    ensures Flags(SetFrame(AddAttrib(AddAttrib(0, 1), 4), Word(addr))) == 5
  {
    hide AddAttrib, Flags, SetFrame, Word;
    WordOfPage(addr);
    FrameFields(AddAttrib(AddAttrib(AddAttrib(0, 1), 2), 4), Word(addr));
    FrameFields(AddAttrib(AddAttrib(0, 1), 4), Word(addr));
    SevenAndFive();
  }

  lemma SevenAndFive()
    ensures Flags(AddAttrib(AddAttrib(AddAttrib(0, 1), 2), 4)) == 7
    ensures Flags(AddAttrib(AddAttrib(0, 1), 4)) == 5
  {
  }

  lemma TableFlags(i: nat)
    requires i < ENTRIES
    ensures Flags(PagingInit.IdentityTable()[i]) == 7 && Flags(PagingInit.KernelTable()[i]) == 5
  {
    hide Flags, SetFrame, AddAttrib, Word;
    FreshFlags(PAGE_SIZE * i);
    FreshFlags(0x10_0000 + PAGE_SIZE * i);
    assert PagingInit.IdentityTable()[i] == PagingInit.IdentityEntry(i);
    assert PagingInit.KernelTable()[i] == PagingInit.KernelEntry(i);
  }

  /** The flags vmmngr_init gives page `q`. */
  predicate InitialFlags(e: bv32, q: nat) {
    if q < 1024 then Flags(e) == 7 else if 0xC_0000 <= q < 0xC_0400 then Flags(e) == 5 else e == 0
  }

  /**
   After vmmngr_init every page of the first 4 MiB is present, writable and open to user code,
   every page of the kernel is present and open but not writable, every other entry is zero.
   */
  lemma InitFlags(m: Machine)
    requires PagingInit.Ready(m) && PagingInit.Answers(m.frames)
    ensures var m' := PagingInit.Init(m).0;
            && Inv(m')
            && Flags(DirEntry(m', 0)) == 7 && Flags(DirEntry(m', 768)) == 7
            && forall q :: 0 <= q < ENTRIES * ENTRIES ==> InitialFlags(EntryAt(m', q), q)
  {
    hide PagingInit.Init, Flags, SetFrame, AddAttrib, IsPresent, FrameNumber, Word, ZeroTable,
         PagingInit.IdentityTable, PagingInit.KernelTable, PagingInit.Taken;
    var m' := PagingInit.Init(m).0;
    assert Inv(m') by { PagingInit.InitWalks(m); }
    var t1, t2 := PagingInit.InitParts(m);
    PagingInit.InitEntries(m', t1, t2);
    PagingInit.UserTableReads(t1);
    PagingInit.UserTableReads(t2);
    FreshFlags(PAGE_SIZE * t1);
    FreshFlags(PAGE_SIZE * t2);
    ZeroEntry();
    hide Inv, PagingInit.UserTableEntry;
    forall q | 0 <= q < ENTRIES * ENTRIES
      ensures InitialFlags(EntryAt(m', q), q)
    {
      TableFlags(q % ENTRIES);
    }
  }

  // ---- the two ways the heap obtains pages

  /** Pages [page, page + n) gain the present bit and, when `writable`, the writable bit; no other entry changes. */
  ghost predicate Gained(m: Machine, m': Machine, page: nat, n: nat, writable: bool)
    requires Inv(m) && Inv(m')
  {
    forall q :: 0 <= q < ENTRIES * ENTRIES ==>
      if page <= q < page + n then Flags(EntryAt(m', q)) == Gain(Flags(EntryAt(m, q)), writable)
      else EntryAt(m', q) == EntryAt(m, q)
  }

  function Gain(flags: bv32, writable: bool): bv32 {
    if writable then AddAttrib(AddAttrib(flags, 1), 2) else AddAttrib(flags, 1)
  }

  lemma GainedJoin(m0: Machine, m1: Machine, m2: Machine, page: nat, n: nat, writable: bool)
    requires Inv(m0) && Inv(m1) && Inv(m2) && n > 0
    requires Gained(m0, m1, page, 1, writable) && Gained(m1, m2, page + 1, n - 1, writable)
    ensures Gained(m0, m2, page, n, writable)
  {
    hide EntryAt, Flags, Gain, Inv;
  }

  lemma GainedNothing(m: Machine, page: nat, writable: bool)
    requires Inv(m)
    ensures Gained(m, m, page, 0, writable)
  {
  }

  lemma GrowOneGains(m: Machine, virt: nat)
    requires Inv(m) && virt < WORD_SPAN && Grows(m, virt)
    ensures var m' := GrowOne(m, virt).0; Inv(m') && Gained(m, m', virt / PAGE_SIZE, 1, false)
  {
    hide MapPage, Flags, MapEntry, AddAttrib, IsPresent, FrameNumber, AllocBlocks;
    GrabKeeps(m, 1);
    AllocOne(m.frames);
    AddressInRange(m.frames);
    var (frames, address) := AllocBlocks(m.frames, 1);
    var taken := m.(frames := frames);
    MapPageEntries(taken, address, virt);
    MapPageFlags(taken, address, virt);
  }

  /** Pages the heap grows by gain the present bit alone: a zero entry does not become writable. */
  lemma {:induction false} GrowthGains(m: Machine, virt: nat, n: nat)
    requires Inv(m) && virt % PAGE_SIZE == 0 && virt + n * PAGE_SIZE <= WORD_SPAN
    requires n > 0 && AllGrown(m, virt, n)
    ensures var m' := GrowPages(m, virt, n).0; Inv(m') && Gained(m, m', virt / PAGE_SIZE, n, false)
    decreases n
  {
    hide GrowOne, Grows, GrowPages, AllGrown, Inv, Gained;
    GrowthUnfolds(m, virt, n);
    GrowOneGains(m, virt);
    var m1 := GrowOne(m, virt).0;
    var virt1 := Wrap(virt + PAGE_SIZE);
    if n > 1 {
      GrowthGains(m1, virt1, n - 1);
    } else {
      GrowthEnds(m1, virt1);
      GainedNothing(m1, virt / PAGE_SIZE + 1, false);
    }
    GainedJoin(m, m1, GrowPages(m1, virt1, n - 1).0, virt / PAGE_SIZE, n, false);
  }

  lemma InitOneGains(m: Machine, phys: nat, virt: nat)
    requires Inv(m) && phys < WORD_SPAN && phys % PAGE_SIZE == 0 && virt < WORD_SPAN && CanMap(m, virt)
    ensures Inv(MapPage(m, phys, virt))
    ensures var m' := AddWritable(MapPage(m, phys, virt), virt); Inv(m') && Gained(m, m', virt / PAGE_SIZE, 1, true)
  {
    hide MapPage, AddWritable, Flags, MapEntry, AddAttrib, FrameNumber, AllocBlocks, CanMap;
    Indices(virt);
    MapPageTranslates(m, phys, virt);
    MapPageEntries(m, phys, virt);
    var m1 := MapPage(m, phys, virt);
    AddWritableEntries(m1, virt);
    LowFlag();
    MapEntryFlags(EntryAt(m, virt / PAGE_SIZE), phys);
    AddFields(EntryAt(m1, virt / PAGE_SIZE), 2);
  }

  /** Pages of malloc_init gain the present and the writable bit. */
  lemma {:induction false} InitGains(m: Machine, phys: nat, virt: nat, n: nat)
    requires Inv(m) && phys % PAGE_SIZE == 0 && phys + n * PAGE_SIZE <= WORD_SPAN
    requires virt % PAGE_SIZE == 0 && virt + n * PAGE_SIZE <= WORD_SPAN
    requires n > 0 && AllMapped(m, phys, virt, n)
    ensures var m' := MapRange(m, phys, virt, n); Inv(m') && Gained(m, m', virt / PAGE_SIZE, n, true)
    decreases n
  {
    hide MapPage, AddWritable, CanMap, Inv, Gained;
    InitOneGains(m, phys, virt);
    var m1 := AddWritable(MapPage(m, phys, virt), virt);
    if n > 1 {
      InitGains(m1, Wrap(phys + PAGE_SIZE), Wrap(virt + PAGE_SIZE), n - 1);
    } else {
      GainedNothing(m1, virt / PAGE_SIZE + 1, true);
    }
    GainedJoin(m, m1, MapRange(m, phys, virt, n), virt / PAGE_SIZE, n, true);
  }
}
