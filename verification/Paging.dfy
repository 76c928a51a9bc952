/**
 Two-level page tables as values: physical memory is a sequence of frames of 1024 words, the
 directory and every table occupy one frame each, taken from the frame allocator. The walk is
 the processor's (32-bit paging with 4 KiB pages); the edits are the kernel's.
 */
module Paging {
  import opened Words
  import opened FrameMap
  import opened PageEntry

  const ENTRIES: nat := 1024

  type Table = t: seq<bv32> | |t| == ENTRIES witness seq(ENTRIES, _ => 0)

  /** `dir` is the frame of the current directory. */
  datatype Machine = Machine(frames: Frames, mem: seq<Table>, dir: nat)

  datatype Translation = Fault | Maps(frame: nat)

  function ZeroTable(): Table {
    seq(ENTRIES, _ => 0)
  }

  function DirIndex(virt: nat): (i: nat)
    ensures i < ENTRIES
  {
    virt / 0x40_0000 % ENTRIES
  }

  function TableIndex(virt: nat): (i: nat)
    ensures i < ENTRIES
  {
    virt / PAGE_SIZE % ENTRIES
  }

  /** The allocator hands out frames that exist. */
  predicate Shape(m: Machine) {
    && Valid(m.frames)
    && MapEnd(m.frames) <= |m.mem| <= 0x10_0000
    && m.dir < |m.mem|
  }

  function DirEntry(m: Machine, i: nat): bv32
    requires Shape(m) && i < ENTRIES
  {
    m.mem[m.dir][i]
  }

  /** The processor's walk for virtual page `page` (section 4.3, 32-bit paging). */
  function Walk(m: Machine, page: nat): Translation
    requires Shape(m) && page < ENTRIES * ENTRIES
  {
    var pde := DirEntry(m, page / ENTRIES);
    if !IsPresent(pde) || FrameNumber(pde) >= |m.mem| then Fault else
    var pte := m.mem[FrameNumber(pde)][page % ENTRIES];
    if IsPresent(pte) then Maps(FrameNumber(pte)) else Fault
  }

  /** A frame that holds the directory or a table: inside the map, not block 0 and marked used. */
  predicate Reserved(m: Machine, f: nat)
    requires Shape(m)
  {
    0 < f < MapEnd(m.frames) && m.frames.bits[f]
  }

  /**
   The directory and all tables are distinct frames marked used, and every directory entry is
   zero or present.
   */
  ghost predicate Inv(m: Machine) {
    && Shape(m)
    && m.frames.bits[0]
    && Reserved(m, m.dir)
    && (forall i :: 0 <= i < ENTRIES && !IsPresent(DirEntry(m, i)) ==> DirEntry(m, i) == 0)
    && (forall i :: 0 <= i < ENTRIES && IsPresent(DirEntry(m, i)) ==>
          Reserved(m, FrameNumber(DirEntry(m, i))) && FrameNumber(DirEntry(m, i)) != m.dir)
    && (forall i, j :: 0 <= i < j < ENTRIES && IsPresent(DirEntry(m, i)) && IsPresent(DirEntry(m, j)) ==>
          FrameNumber(DirEntry(m, i)) != FrameNumber(DirEntry(m, j)))
  }

  /** The frames the paging structures occupy. */
  ghost predicate IsStructure(m: Machine, f: nat)
    requires Shape(m)
  {
    f == m.dir || exists i :: 0 <= i < ENTRIES && IsPresent(DirEntry(m, i)) && FrameNumber(DirEntry(m, i)) == f
  }

  function SetWord(m: Machine, f: nat, i: nat, e: bv32): Machine
    requires f < |m.mem| && i < ENTRIES
  {
    m.(mem := m.mem[f := m.mem[f][i := e]])
  }

  /** The page entry of `virt`, given that its table is present. */
  function PageEntryOf(m: Machine, virt: nat): bv32
    requires Inv(m) && IsPresent(DirEntry(m, DirIndex(virt)))
  {
    m.mem[FrameNumber(DirEntry(m, DirIndex(virt)))][TableIndex(virt)]
  }

  // ---- mapping and unmapping

  /** A fresh, cleared table for directory entry `i`; unchanged when no frame is left. */
  function AddTable(m: Machine, i: nat): Machine
    requires Inv(m) && i < ENTRIES
  {
    var (frames, address) := AllocBlocks(m.frames, 1);
    if address == 0 then m.(frames := frames) else
    AllocOne(m.frames);
    var cleared := m.(frames := frames, mem := m.mem[address / BLOCK_SIZE := ZeroTable()]);
    SetWord(cleared, m.dir, i, TableEntry(cleared.mem[m.dir][i], address))
  }

  /** What one allocated block is: a free block inside the map, never block 0 when that is used. */
  lemma AllocOne(f: Frames)
    requires Valid(f) && AllocBlocks(f, 1).1 != 0
    ensures var (after, address) := AllocBlocks(f, 1);
            && address % BLOCK_SIZE == 0 && 0 < address / BLOCK_SIZE < MapEnd(f)
            && !f.bits[address / BLOCK_SIZE]
            && after.bits == SetRange(f.bits, address / BLOCK_SIZE, 1)
            && after.blocks == f.blocks && Valid(after)
  {
    FirstFitIsFirst(f, 1);
  }

  function MapPage(m: Machine, phys: nat, virt: nat): Machine
    requires Inv(m) && phys < WORD_SPAN && virt < WORD_SPAN
  {
    var i := DirIndex(virt);
    if IsPresent(DirEntry(m, i)) then
      SetWord(m, FrameNumber(DirEntry(m, i)), TableIndex(virt), MapEntry(PageEntryOf(m, virt), phys))
    else
      var grown := AddTable(m, i);
      if AllocBlocks(m.frames, 1).1 == 0 then grown else
      AddTableKeeps(m, i);
      SetWord(grown, FrameNumber(DirEntry(grown, i)), TableIndex(virt), MapEntry(PageEntryOf(grown, virt), phys))
  }

  function UnmapPage(m: Machine, virt: nat): Machine
    requires Inv(m) && virt < WORD_SPAN
  {
    var table := FrameNumber(DirEntry(m, DirIndex(virt)));
    if table == 0 then m else
    ZeroEntry();
    SetWord(m, table, TableIndex(virt), UnmapEntry(PageEntryOf(m, virt)))
  }

  /** Whether mapping `virt` finds or gets a table. */
  predicate CanMap(m: Machine, virt: nat)
    requires Inv(m)
  {
    IsPresent(DirEntry(m, DirIndex(virt))) || AllocBlocks(m.frames, 1).1 != 0
  }

  /** Bit 31 left over in the page entry by an earlier mapping. */
  predicate TopLeft(m: Machine, page: nat)
    requires Inv(m) && page < ENTRIES * ENTRIES
  {
    IsPresent(DirEntry(m, page / ENTRIES)) && TopBit(m.mem[FrameNumber(DirEntry(m, page / ENTRIES))][page % ENTRIES]) != 0
  }

  /** Adding a table changes no translation and takes a frame no structure occupies. */
  lemma AddTableKeeps(m: Machine, i: nat)
    requires Inv(m) && i < ENTRIES && !IsPresent(DirEntry(m, i))
    requires AllocBlocks(m.frames, 1).1 != 0
    ensures var m' := AddTable(m, i);
            && Inv(m') && m'.dir == m.dir
            && IsPresent(DirEntry(m', i))
            && m'.mem[FrameNumber(DirEntry(m', i))] == ZeroTable()
            && !m.frames.bits[FrameNumber(DirEntry(m', i))]
            && (forall j :: 0 <= j < ENTRIES && j != i ==> DirEntry(m', j) == DirEntry(m, j))
            && (forall f :: 0 <= f < |m.mem| && f != m.dir && f != FrameNumber(DirEntry(m', i)) ==> m'.mem[f] == m.mem[f])
            && |m'.mem| == |m.mem|
            && m'.frames == AllocBlocks(m.frames, 1).0
  {
    hide IsPresent, FrameNumber, TableEntry, AllocBlocks;
    var (frames, address) := AllocBlocks(m.frames, 1);
    AllocOne(m.frames);
    TableEntryReads(address);
    var t := address / BLOCK_SIZE;
    assert t != m.dir;
    var m' := AddTable(m, i);
    assert DirEntry(m', i) == TableEntry(0, address);
    assert forall j :: 0 <= j < ENTRIES && j != i ==> DirEntry(m', j) == DirEntry(m, j);
  }

  /** Editing one page entry keeps the structures and every other page's translation. */
  lemma SetPageKeeps(m: Machine, virt: nat, e: bv32)
    requires Inv(m) && virt < WORD_SPAN && IsPresent(DirEntry(m, DirIndex(virt)))
    ensures var m' := SetWord(m, FrameNumber(DirEntry(m, DirIndex(virt))), TableIndex(virt), e);
            && Inv(m') && m'.frames == m.frames && m'.dir == m.dir && m'.mem[m.dir] == m.mem[m.dir]
            && PageEntryOf(m', virt) == e
            && (forall q :: 0 <= q < ENTRIES * ENTRIES && q != virt / PAGE_SIZE ==> Walk(m', q) == Walk(m, q) && TopLeft(m', q) == TopLeft(m, q))
            && Walk(m', virt / PAGE_SIZE) == (if IsPresent(e) then Maps(FrameNumber(e)) else Fault)
            && (TopLeft(m', virt / PAGE_SIZE) <==> TopBit(e) != 0)
  {
    hide IsPresent, FrameNumber, TopBit;
    var t := FrameNumber(DirEntry(m, DirIndex(virt)));
    var m' := SetWord(m, t, TableIndex(virt), e);
    assert forall i :: 0 <= i < ENTRIES ==> DirEntry(m', i) == DirEntry(m, i);
    var page := virt / PAGE_SIZE;
    assert DirIndex(virt) == page / ENTRIES && TableIndex(virt) == page % ENTRIES;
    forall q | 0 <= q < ENTRIES * ENTRIES && q != page
      ensures Walk(m', q) == Walk(m, q) && TopLeft(m', q) == TopLeft(m, q)
    {
      assert q / ENTRIES != page / ENTRIES || q % ENTRIES != page % ENTRIES;
    }
  }

  lemma AddTableWalk(m: Machine, i: nat, q: nat)
    requires Inv(m) && i < ENTRIES && !IsPresent(DirEntry(m, i)) && AllocBlocks(m.frames, 1).1 != 0
    requires q < ENTRIES * ENTRIES
    ensures Inv(AddTable(m, i)) && Walk(AddTable(m, i), q) == Walk(m, q) && TopLeft(AddTable(m, i), q) == TopLeft(m, q)
  {
    hide IsPresent, FrameNumber, TopBit, AddTable, AllocBlocks;
    AddTableKeeps(m, i);
    ZeroEntry();
    var m', d := AddTable(m, i), q / ENTRIES;
    if d != i && IsPresent(DirEntry(m, d)) {
      var f := FrameNumber(DirEntry(m, d));
      assert m'.mem[f] == m.mem[f];
    }
  }

  /** Adding a table changes no translation. */
  lemma AddTableWalks(m: Machine, i: nat)
    requires Inv(m) && i < ENTRIES && !IsPresent(DirEntry(m, i)) && AllocBlocks(m.frames, 1).1 != 0
    ensures Inv(AddTable(m, i))
    ensures forall q :: 0 <= q < ENTRIES * ENTRIES ==> Walk(AddTable(m, i), q) == Walk(m, q) && TopLeft(AddTable(m, i), q) == TopLeft(m, q)
  {
    hide IsPresent, FrameNumber, TopBit, AddTable, AllocBlocks, Walk, TopLeft, DirEntry;
    AddTableKeeps(m, i);
    forall q | 0 <= q < ENTRIES * ENTRIES
      ensures Walk(AddTable(m, i), q) == Walk(m, q) && TopLeft(AddTable(m, i), q) == TopLeft(m, q)
    {
      AddTableWalk(m, i, q);
    }
  }

  /**
   Mapping a page. When a table is found or made, the walk of the page reads back the frame
   exactly when the old entry has no leftover bit 31 or the new address has it; every other
   page keeps its translation; the structures stay distinct frames marked used.
   */
  lemma MapPageTranslates(m: Machine, phys: nat, virt: nat)
    requires Inv(m) && phys < WORD_SPAN && virt < WORD_SPAN && CanMap(m, virt)
    ensures var m' := MapPage(m, phys, virt); var page := virt / PAGE_SIZE;
            && Inv(m') && m'.dir == m.dir
            && Walk(m', page).Maps?
            && (Walk(m', page) == Maps(phys / PAGE_SIZE) <==> !TopLeft(m, page) || phys >= 0x8000_0000)
            && (TopLeft(m', page) <==> TopLeft(m, page) || phys >= 0x8000_0000)
            && (forall q :: 0 <= q < ENTRIES * ENTRIES && q != page ==> Walk(m', q) == Walk(m, q) && TopLeft(m', q) == TopLeft(m, q))
  {
    hide IsPresent, FrameNumber, TopBit, MapEntry, AddTable, AllocBlocks, SetWord;
    var i := DirIndex(virt);
    assert i == virt / PAGE_SIZE / ENTRIES && TableIndex(virt) == virt / PAGE_SIZE % ENTRIES;
    if IsPresent(DirEntry(m, i)) {
      var e := PageEntryOf(m, virt);
      MapEntryReads(e, phys);
      SetPageKeeps(m, virt, MapEntry(e, phys));
    } else {
      AddTableKeeps(m, i);
      AddTableWalks(m, i);
      var grown := AddTable(m, i);
      var e := PageEntryOf(grown, virt);
      MapEntryReads(e, phys);
      SetPageKeeps(grown, virt, MapEntry(e, phys));
      ZeroEntry();
    }
  }

  /** Mapping without a table and without a free frame changes nothing. */
  lemma MapPageFails(m: Machine, phys: nat, virt: nat)
    requires Inv(m) && phys < WORD_SPAN && virt < WORD_SPAN && !CanMap(m, virt)
    ensures MapPage(m, phys, virt) == m
  {
    NullKeeps(m.frames, 1);
  }

  /** Mapping keeps the structures in order whether it succeeds or not. */
  lemma MapPageInv(m: Machine, phys: nat, virt: nat)
    requires Inv(m) && phys < WORD_SPAN && virt < WORD_SPAN
    ensures Inv(MapPage(m, phys, virt))
  {
    if CanMap(m, virt) {
      MapPageTranslates(m, phys, virt);
    } else {
      MapPageFails(m, phys, virt);
    }
  }

  /** Unmapping makes the page fault and leaves every other translation alone. */
  lemma UnmapPageFaults(m: Machine, virt: nat)
    requires Inv(m) && virt < WORD_SPAN
    ensures var m' := UnmapPage(m, virt); var page := virt / PAGE_SIZE;
            && Inv(m') && m'.frames == m.frames && m'.dir == m.dir
            && Walk(m', page) == Fault
            && (forall q :: 0 <= q < ENTRIES * ENTRIES && q != page ==> Walk(m', q) == Walk(m, q))
            && (forall q :: 0 <= q < ENTRIES * ENTRIES ==> TopLeft(m', q) == TopLeft(m, q))
  {
    var i := DirIndex(virt);
    assert i == virt / PAGE_SIZE / ENTRIES && TableIndex(virt) == virt / PAGE_SIZE % ENTRIES;
    ZeroEntry();
    if IsPresent(DirEntry(m, i)) {
      var e := PageEntryOf(m, virt);
      UnmapEntryReads(e);
      SetPageKeeps(m, virt, UnmapEntry(e));
    }
  }

  // ---- what a mapping does to frames

  /**
   Mapping never releases a frame, and the only frame a structure gains was free before: a
   fresh table cannot alias the directory, a live table or any frame in use.
   */
  lemma MapPageFrames(m: Machine, phys: nat, virt: nat)
    requires Inv(m) && phys < WORD_SPAN && virt < WORD_SPAN
    ensures var m' := MapPage(m, phys, virt);
            && Shape(m') && m'.frames.blocks == m.frames.blocks && |m'.frames.bits| == |m.frames.bits| && |m'.mem| == |m.mem|
            && (forall b :: 0 <= b < |m.frames.bits| && m.frames.bits[b] ==> m'.frames.bits[b])
            && (forall f: nat :: f < MapEnd(m.frames) && IsStructure(m', f) && m.frames.bits[f] ==> IsStructure(m, f))
  {
    var i := DirIndex(virt);
    if CanMap(m, virt) {
      if IsPresent(DirEntry(m, i)) {
        SetPageKeeps(m, virt, MapEntry(PageEntryOf(m, virt), phys));
        SameStructures(m, MapPage(m, phys, virt));
      } else {
        AddTableKeeps(m, i);
        AddTableStructures(m, i);
        var grown := AddTable(m, i);
        AllocOne(m.frames);
        SetPageKeeps(grown, virt, MapEntry(PageEntryOf(grown, virt), phys));
        SameStructures(grown, MapPage(m, phys, virt));
      }
    } else {
      MapPageFails(m, phys, virt);
    }
  }

  lemma SameStructures(m: Machine, m': Machine)
    requires Shape(m) && Shape(m') && m'.dir == m.dir && m'.mem[m'.dir] == m.mem[m.dir]
    ensures forall f: nat :: IsStructure(m', f) <==> IsStructure(m, f)
  {
    assert forall j :: 0 <= j < ENTRIES ==> DirEntry(m', j) == DirEntry(m, j);
  }

  lemma AddTableStructures(m: Machine, i: nat)
    requires Inv(m) && i < ENTRIES && !IsPresent(DirEntry(m, i)) && AllocBlocks(m.frames, 1).1 != 0
    ensures Inv(AddTable(m, i))
    ensures forall f: nat :: f < MapEnd(m.frames) && IsStructure(AddTable(m, i), f) && m.frames.bits[f] ==> IsStructure(m, f)
  {
    AddTableKeeps(m, i);
    hide AddTable, AllocBlocks, IsPresent, FrameNumber;
    var m' := AddTable(m, i);
    forall f: nat | f < MapEnd(m.frames) && IsStructure(m', f) && m.frames.bits[f] && f != m.dir
      ensures IsStructure(m, f)
    {
      var j :| 0 <= j < ENTRIES && IsPresent(DirEntry(m', j)) && FrameNumber(DirEntry(m', j)) == f;
      assert DirEntry(m', j) == DirEntry(m, j);
    }
  }

  // ---- addresses

  /** The physical address the processor reaches for byte address `virt`. */
  function PhysicalOf(m: Machine, virt: nat): Translation
    requires Shape(m) && virt < WORD_SPAN
  {
    match Walk(m, virt / PAGE_SIZE)
    case Fault => Fault
    case Maps(f) => Maps(f * PAGE_SIZE + virt % PAGE_SIZE)
  }

  /** vmmngr_virt_to_phys: the offset is added to a pointer to 32-bit words. */
  function VirtToPhys(m: Machine, virt: nat): nat
    requires Inv(m) && virt < WORD_SPAN && IsPresent(DirEntry(m, DirIndex(virt)))
  {
    Wrap(FrameNumber(PageEntryOf(m, virt)) * PAGE_SIZE + 4 * (virt % PAGE_SIZE))
  }

  /** On a mapped page that is the processor's address exactly at the start of the page. */
  lemma VirtToPhysExact(m: Machine, virt: nat)
    requires Inv(m) && virt < WORD_SPAN && Walk(m, virt / PAGE_SIZE).Maps?
    ensures IsPresent(DirEntry(m, DirIndex(virt)))
    ensures PhysicalOf(m, virt) == Maps(VirtToPhys(m, virt)) <==> virt % PAGE_SIZE == 0
  {
    hide IsPresent, FrameNumber;
    Indices(virt);
    var e := PageEntryOf(m, virt);
    FrameNumberBound(e);
    assert PhysicalOf(m, virt) == Maps(FrameNumber(e) * PAGE_SIZE + virt % PAGE_SIZE);
    QuadOffset(FrameNumber(e), virt % PAGE_SIZE);
  }

  /** Within a page the result moves four bytes for every byte. */
  lemma VirtToPhysScales(m: Machine, page: nat, offset: nat)
    requires Inv(m) && page < ENTRIES * ENTRIES && offset < PAGE_SIZE && Walk(m, page).Maps?
    ensures IsPresent(DirEntry(m, DirIndex(page * PAGE_SIZE))) && IsPresent(DirEntry(m, DirIndex(page * PAGE_SIZE + offset)))
    ensures VirtToPhys(m, page * PAGE_SIZE + offset) == Wrap(Walk(m, page).frame * PAGE_SIZE + 4 * offset)
  {
    hide IsPresent, FrameNumber;
    Indices(page * PAGE_SIZE);
    Indices(page * PAGE_SIZE + offset);
    assert (page * PAGE_SIZE + offset) / PAGE_SIZE == page;
  }

  lemma QuadOffset(frame: nat, offset: nat)
    requires frame < 0x10_0000 && offset < PAGE_SIZE
    ensures Wrap(frame * PAGE_SIZE + 4 * offset) == frame * PAGE_SIZE + offset <==> offset == 0
  {
    var a := frame * PAGE_SIZE + 4 * offset;
    assert a < WORD_SPAN ==> Wrap(a) == a;
    assert a >= WORD_SPAN ==> Wrap(a) == a - WORD_SPAN;
  }

  /** The two index fields are the two parts of the page number. */
  lemma Indices(virt: nat)
    requires virt < WORD_SPAN
    ensures DirIndex(virt) == virt / PAGE_SIZE / ENTRIES && TableIndex(virt) == virt / PAGE_SIZE % ENTRIES
  {
  }
}
