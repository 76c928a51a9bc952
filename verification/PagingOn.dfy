/**
 The virtual memory manager with paging on: it still uses the physical addresses of its tables,
 so every access goes through the page walk. When the frames of all tables map to themselves
 this comes to the same; otherwise an access faults or lands in another frame.
 */
module PagingOn {
  import opened Words
  import opened FrameMap
  import opened PageEntry
  import opened Paging
  import opened PagingRuns

  datatype Outcome = Done(m: Machine) | PageFault

  /** The frame an access to physical address `page` really reaches, -1 when it faults. */
  function FrameAt(m: Machine, page: nat): (f: int)
    requires Shape(m)
    ensures f < |m.mem|
  {
    if page < ENTRIES * ENTRIES && Walk(m, page).Maps? && Walk(m, page).frame < |m.mem| then Walk(m, page).frame else -1
  }

  /** Every paging structure is reached at its own address. */
  ghost predicate Reachable(m: Machine)
    requires Shape(m)
  {
    forall f: nat :: IsStructure(m, f) ==> f < ENTRIES * ENTRIES && Walk(m, f) == Maps(f)
  }

  /** The end of vmmngr_map_page: the page entry is edited in table `table`. */
  function EnterPageOn(m: Machine, table: nat, phys: nat, virt: nat): (r: Outcome)
    requires Shape(m) && virt < WORD_SPAN
    ensures r.Done? ==> Shape(r.m)
  {
    var t := FrameAt(m, table);
    if t < 0 then PageFault
    else Done(SetWord(m, t, TableIndex(virt), MapEntry(m.mem[t][TableIndex(virt)], phys)))
  }

  /** vmmngr_map_page */
  function MapPageOn(m: Machine, phys: nat, virt: nat): (r: Outcome)
    requires Shape(m) && phys < WORD_SPAN && virt < WORD_SPAN
    ensures r.Done? ==> Shape(r.m)
  {
    var i := DirIndex(virt);
    var d := FrameAt(m, m.dir);
    if d < 0 then PageFault
    else if IsPresent(m.mem[d][i]) then EnterPageOn(m, FrameNumber(m.mem[d][i]), phys, virt)
    else
      var (frames, address) := AllocBlocks(m.frames, 1);
      GrabGrows(m.frames, 1);
      var taken := m.(frames := frames);
      if address == 0 then Done(taken) else
      var t := FrameAt(taken, address / BLOCK_SIZE);
      if t < 0 then PageFault else
      var cleared := taken.(mem := taken.mem[t := ZeroTable()]);
      var d1 := FrameAt(cleared, m.dir);
      if d1 < 0 then PageFault else
      var entered := SetWord(cleared, d1, i, TableEntry(cleared.mem[d1][i], address));
      var d2 := FrameAt(entered, m.dir);
      if d2 < 0 then PageFault else EnterPageOn(entered, FrameNumber(entered.mem[d2][i]), phys, virt)
  }

  /** Setting the writable bit through vmmngr_get_page. */
  function WritableOn(m: Machine, virt: nat): (r: Outcome)
    requires Shape(m) && virt < WORD_SPAN
    ensures r.Done? ==> Shape(r.m)
  {
    var d := FrameAt(m, m.dir);
    if d < 0 then PageFault else
    var table := FrameNumber(m.mem[d][DirIndex(virt)]);
    if table == 0 then Done(m) else
    var t := FrameAt(m, table);
    if t < 0 then PageFault
    else Done(SetWord(m, t, TableIndex(virt), AddAttrib(m.mem[t][TableIndex(virt)], 2)))
  }

  lemma StructureFrames(m: Machine, i: nat)
    requires Inv(m) && Reachable(m) && i < ENTRIES
    ensures FrameAt(m, m.dir) == m.dir
    ensures IsPresent(DirEntry(m, i)) ==> FrameAt(m, FrameNumber(DirEntry(m, i))) == FrameNumber(DirEntry(m, i))
  {
    hide Walk, IsPresent, FrameNumber;
    assert IsStructure(m, m.dir);
    if IsPresent(DirEntry(m, i)) {
      assert IsStructure(m, FrameNumber(DirEntry(m, i)));
    }
  }

  /** Mapping a page whose table is present. */
  lemma MapPresentOn(m: Machine, phys: nat, virt: nat)
    requires Inv(m) && Reachable(m) && phys < WORD_SPAN && virt < WORD_SPAN && IsPresent(DirEntry(m, DirIndex(virt)))
    ensures MapPageOn(m, phys, virt) == Done(MapPage(m, phys, virt))
  {
    hide Walk, IsPresent, FrameNumber, MapEntry, FrameAt, Reachable;
    StructureFrames(m, DirIndex(virt));
  }

  /** Clearing a frame that was free changes no walk. */
  lemma ClearedWalks(m: Machine, frames: Frames, t: nat)
    requires Inv(m) && Valid(frames) && frames.blocks == m.frames.blocks
    requires 0 < t < MapEnd(m.frames) && !m.frames.bits[t]
    ensures var cleared := m.(frames := frames, mem := m.mem[t := ZeroTable()]);
            && Shape(cleared) && |cleared.mem| == |m.mem| && cleared.mem[m.dir] == m.mem[m.dir]
            && forall q :: 0 <= q < ENTRIES * ENTRIES ==> Walk(cleared, q) == Walk(m, q)
  {
    hide IsPresent, FrameNumber, ZeroTable;
    var cleared := m.(frames := frames, mem := m.mem[t := ZeroTable()]);
    assert t != m.dir;
    assert forall i :: 0 <= i < ENTRIES ==> DirEntry(cleared, i) == DirEntry(m, i);
  }

  /** The machine right before the new table is entered in the directory. */
  function Cleared(m: Machine): Machine
    requires Inv(m) && AllocBlocks(m.frames, 1).1 != 0
  {
    AllocOne(m.frames);
    var (frames, address) := AllocBlocks(m.frames, 1);
    m.(frames := frames, mem := m.mem[address / BLOCK_SIZE := ZeroTable()])
  }

  lemma ClearedIs(m: Machine)
    requires Inv(m) && AllocBlocks(m.frames, 1).1 != 0
    ensures AllocBlocks(m.frames, 1).1 / BLOCK_SIZE < |m.mem|
    ensures Cleared(m) == m.(frames := AllocBlocks(m.frames, 1).0, mem := m.mem[AllocBlocks(m.frames, 1).1 / BLOCK_SIZE := ZeroTable()])
  {
    hide AllocBlocks, ZeroTable;
    AllocOne(m.frames);
  }

  lemma WalksOfCleared(m: Machine)
    requires Inv(m) && AllocBlocks(m.frames, 1).1 != 0
    ensures Shape(Cleared(m)) && Cleared(m).mem[m.dir] == m.mem[m.dir] && Cleared(m).dir == m.dir && |Cleared(m).mem| == |m.mem|
    ensures forall q :: 0 <= q < ENTRIES * ENTRIES ==> Walk(Cleared(m), q) == Walk(m, q)
  {
    hide Walk, AllocBlocks, Inv, ZeroTable, Cleared;
    ShapeOfMachine(m);
    ClearedIs(m);
    AllocOne(m.frames);
    var (frames, address) := AllocBlocks(m.frames, 1);
    ClearedWalks(m, frames, address / BLOCK_SIZE);
  }

  lemma ShapeOfMachine(m: Machine)
    requires Inv(m)
    ensures Shape(m)
  {
  }

  lemma SameFrameAt(m: Machine, m': Machine, page: nat)
    requires Shape(m) && Shape(m') && |m'.mem| == |m.mem|
    requires forall q :: 0 <= q < ENTRIES * ENTRIES ==> Walk(m', q) == Walk(m, q)
    ensures FrameAt(m', page) == FrameAt(m, page)
  {
    hide Walk;
  }

  /** The new table is entered as the physical code enters it. */
  lemma EnteredIsGrown(m: Machine, i: nat)
    requires Inv(m) && i < ENTRIES && AllocBlocks(m.frames, 1).1 != 0
    ensures m.dir < |Cleared(m).mem|
    ensures SetWord(Cleared(m), m.dir, i, TableEntry(Cleared(m).mem[m.dir][i], AllocBlocks(m.frames, 1).1)) == AddTable(m, i)
  {
    hide AllocBlocks, TableEntry, ZeroTable;
    AllocOne(m.frames);
  }

  /** Mapping a page that needs a table: the new table too must be reached at its own address. */
  lemma MapMissingOn(m: Machine, phys: nat, virt: nat)
    requires Inv(m) && Reachable(m) && phys < WORD_SPAN && virt < WORD_SPAN && !IsPresent(DirEntry(m, DirIndex(virt)))
    requires AllocBlocks(m.frames, 1).1 != 0
    requires FrameAt(m, AllocBlocks(m.frames, 1).1 / BLOCK_SIZE) == AllocBlocks(m.frames, 1).1 / BLOCK_SIZE
    ensures MapPageOn(m, phys, virt) == Done(MapPage(m, phys, virt))
  {
    hide Walk, IsPresent, FrameNumber, MapEntry, TableEntry, AllocBlocks, FrameAt, ZeroTable, Cleared, AddTable,
         IsStructure;
    var i := DirIndex(virt);
    var (frames, address) := AllocBlocks(m.frames, 1);
    GrabGrows(m.frames, 1);
    StructureFrames(m, i);
    GrabKeeps(m, 1);
    var taken := m.(frames := frames);
    SameFrameAt(m, taken, address / BLOCK_SIZE);
    WalksOfCleared(m);
    SameFrameAt(m, Cleared(m), m.dir);
    EnteredIsGrown(m, i);
    AddTableKeeps(m, i);
    AddTableWalks(m, i);
    var grown := AddTable(m, i);
    SameFrameAt(m, grown, m.dir);
    NewTableAt(m, i);
    SameFrameAt(m, grown, address / BLOCK_SIZE);
    ClearedIs(m);
  }

  lemma NewTableAt(m: Machine, i: nat)
    requires Inv(m) && i < ENTRIES && !IsPresent(DirEntry(m, i)) && AllocBlocks(m.frames, 1).1 != 0
    ensures Shape(AddTable(m, i)) && FrameNumber(DirEntry(AddTable(m, i), i)) == AllocBlocks(m.frames, 1).1 / BLOCK_SIZE
  {
    hide IsPresent, FrameNumber, TableEntry, AllocBlocks;
    AllocOne(m.frames);
    TableEntryReads(AllocBlocks(m.frames, 1).1);
    AddTableKeeps(m, i);
    assert DirEntry(AddTable(m, i), i) == TableEntry(0, AllocBlocks(m.frames, 1).1);
  }

  /**
   With every structure reached at its own address, and the new table too when one is needed,
   mapping through the walk is mapping in physical memory.
   */
  lemma MapPageOnAgrees(m: Machine, phys: nat, virt: nat)
    requires Inv(m) && Reachable(m) && phys < WORD_SPAN && virt < WORD_SPAN
    requires var t := AllocBlocks(m.frames, 1).1 / BLOCK_SIZE;
             IsPresent(DirEntry(m, DirIndex(virt))) || AllocBlocks(m.frames, 1).1 == 0 || FrameAt(m, t) == t
    ensures MapPageOn(m, phys, virt) == Done(MapPage(m, phys, virt))
  {
    hide Walk, FrameNumber, MapEntry, AllocBlocks, FrameAt, Reachable;
    if IsPresent(DirEntry(m, DirIndex(virt))) {
      MapPresentOn(m, phys, virt);
    } else if AllocBlocks(m.frames, 1).1 == 0 {
      StructureFrames(m, DirIndex(virt));
    } else {
      MapMissingOn(m, phys, virt);
    }
  }

  /**
   Mapping through a table whose own page is mapped to another frame: no translation changes,
   and a word of that frame is overwritten.
   */
  lemma HiddenTable(m: Machine, phys: nat, virt: nat)
    requires Inv(m) && phys < WORD_SPAN && virt < WORD_SPAN && IsPresent(DirEntry(m, DirIndex(virt)))
    requires FrameAt(m, m.dir) == m.dir
    requires var g := FrameAt(m, FrameNumber(DirEntry(m, DirIndex(virt)))); g >= 0 && !IsStructure(m, g)
    ensures var g := FrameAt(m, FrameNumber(DirEntry(m, DirIndex(virt)))); var r := MapPageOn(m, phys, virt);
            && r.Done? && r.m.frames == m.frames && r.m.dir == m.dir && |r.m.mem| == |m.mem|
            && (forall f :: 0 <= f < |m.mem| && f != g ==> r.m.mem[f] == m.mem[f])
            && IsPresent(r.m.mem[g][TableIndex(virt)])
            && (forall q :: 0 <= q < ENTRIES * ENTRIES ==> Walk(r.m, q) == Walk(m, q))
  {
    hide IsPresent, FrameNumber, MapEntry, FrameAt;
    var g := FrameAt(m, FrameNumber(DirEntry(m, DirIndex(virt))));
    MapEntryReads(m.mem[g][TableIndex(virt)], phys);
    var r := MapPageOn(m, phys, virt);
    assert forall i :: 0 <= i < ENTRIES ==> DirEntry(r.m, i) == DirEntry(m, i);
    assert forall i :: 0 <= i < ENTRIES && IsPresent(DirEntry(m, i)) ==> FrameNumber(DirEntry(m, i)) != g;
  }

  /** A table or a directory whose page is not mapped: the access faults. */
  lemma UnmappedTable(m: Machine, phys: nat, virt: nat)
    requires Inv(m) && phys < WORD_SPAN && virt < WORD_SPAN && IsPresent(DirEntry(m, DirIndex(virt)))
    requires Walk(m, m.dir) == Fault || (Walk(m, m.dir) == Maps(m.dir) && Walk(m, FrameNumber(DirEntry(m, DirIndex(virt)))) == Fault)
    requires FrameNumber(DirEntry(m, DirIndex(virt))) < ENTRIES * ENTRIES
    ensures MapPageOn(m, phys, virt) == PageFault
  {
    hide Walk, IsPresent, FrameNumber, MapEntry;
  }

  // ---- when the structures stay reachable

  /** The frame of the table that mapping `virt` adds, if it adds one. */
  predicate AddsTable(m: Machine, virt: nat)
    requires Inv(m)
  {
    !IsPresent(DirEntry(m, DirIndex(virt))) && AllocBlocks(m.frames, 1).1 != 0
  }

  function NewTable(m: Machine): nat
    requires Shape(m)
  {
    AllocBlocks(m.frames, 1).1 / BLOCK_SIZE
  }

  lemma StructuresAfterMap(m: Machine, phys: nat, virt: nat, f: nat)
    requires Inv(m) && phys < WORD_SPAN && virt < WORD_SPAN && CanMap(m, virt)
    ensures Inv(MapPage(m, phys, virt))
    ensures IsStructure(MapPage(m, phys, virt), f) <==> IsStructure(m, f) || (AddsTable(m, virt) && f == NewTable(m))
  {
    hide IsPresent, FrameNumber, MapEntry, AddTable, AllocBlocks, SetWord, IsStructure;
    var i := DirIndex(virt);
    if IsPresent(DirEntry(m, i)) {
      SetPageKeeps(m, virt, MapEntry(PageEntryOf(m, virt), phys));
      SameStructures(m, MapPage(m, phys, virt));
    } else {
      AddTableKeeps(m, i);
      NewTableAt(m, i);
      var grown := AddTable(m, i);
      StructuresOfGrown(m, i, f);
      SetPageKeeps(grown, virt, MapEntry(PageEntryOf(grown, virt), phys));
      SameStructures(grown, MapPage(m, phys, virt));
    }
  }

  lemma StructuresOfGrown(m: Machine, i: nat, f: nat)
    requires Inv(m) && i < ENTRIES && !IsPresent(DirEntry(m, i)) && AllocBlocks(m.frames, 1).1 != 0
    ensures Inv(AddTable(m, i))
    ensures IsStructure(AddTable(m, i), f) <==> IsStructure(m, f) || f == NewTable(m)
  {
    hide IsPresent, FrameNumber, AddTable, AllocBlocks;
    AddTableKeeps(m, i);
    NewTableAt(m, i);
    var grown := AddTable(m, i);
    if j :| 0 <= j < ENTRIES && IsPresent(DirEntry(m, j)) && FrameNumber(DirEntry(m, j)) == f {
      assert DirEntry(grown, j) == DirEntry(m, j);
    }
    if IsStructure(grown, f) && f != m.dir {
      var j :| 0 <= j < ENTRIES && IsPresent(DirEntry(grown, j)) && FrameNumber(DirEntry(grown, j)) == f;
      assert j != i ==> DirEntry(grown, j) == DirEntry(m, j);
    }
  }

  /**
   Mapping keeps the structures reachable exactly when the mapped page is no structure's frame,
   or maps to itself, and a table it adds lies on a page that maps to itself.
   */
  lemma MapPageReaches(m: Machine, phys: nat, virt: nat)
    requires Inv(m) && Reachable(m) && phys < WORD_SPAN && virt < WORD_SPAN && CanMap(m, virt)
    ensures var m' := MapPage(m, phys, virt); var page := virt / PAGE_SIZE;
            && Inv(m')
            && (Reachable(m') <==>
                  && (IsStructure(m, page) || (AddsTable(m, virt) && page == NewTable(m)) ==> Walk(m', page) == Maps(page))
                  && (AddsTable(m, virt) && page != NewTable(m) ==> FrameAt(m, NewTable(m)) == NewTable(m)))
  {
    hide MapPage, Walk, IsStructure, AddsTable, NewTable, CanMap, TopLeft;
    MapPageTranslates(m, phys, virt);
    var m' := MapPage(m, phys, virt);
    forall f: nat
      ensures IsStructure(m', f) <==> IsStructure(m, f) || (AddsTable(m, virt) && f == NewTable(m))
    {
      StructuresAfterMap(m, phys, virt, f);
    }
    if AddsTable(m, virt) {
      NewTableInMemory(m, virt);
    }
  }

  lemma NewTableInMemory(m: Machine, virt: nat)
    requires Inv(m) && AddsTable(m, virt)
    ensures NewTable(m) < |m.mem| <= ENTRIES * ENTRIES
  {
    hide AllocBlocks;
    AllocOne(m.frames);
  }

  /** Unmapping keeps them reachable exactly when the page is no structure's frame. */
  lemma UnmapPageReaches(m: Machine, virt: nat)
    requires Inv(m) && Reachable(m) && virt < WORD_SPAN
    ensures var m' := UnmapPage(m, virt);
            Inv(m') && (Reachable(m') <==> !IsStructure(m, virt / PAGE_SIZE))
  {
    hide Walk, IsPresent, FrameNumber, UnmapEntry, IsStructure;
    UnmapPageFaults(m, virt);
    ZeroEntry();
    if IsPresent(DirEntry(m, DirIndex(virt))) {
      SetPageKeeps(m, virt, UnmapEntry(PageEntryOf(m, virt)));
    }
    SameStructures(m, UnmapPage(m, virt));
  }
}
