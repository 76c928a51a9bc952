/**
 The virtual memory manager as the kernel runs it: entries are written in place in frames of
 physical memory. Every method is proved to do what Paging and PagingInit say.
 */
module AddressSpaces {
  import opened Words
  import opened FrameMap
  import opened PageEntry
  import opened Paging
  import opened FrameAllocators
  import PagingInit
  import PagingRuns

  class AddressSpace {
    const allocator: FrameAllocator
    /** Physical memory, frame by frame; tables are reached at their physical address. */
    var mem: seq<Table>
    /** The frame of the current directory, 0 before there is one. */
    var curdir: nat

    ghost function View(): Machine
      reads this, allocator, allocator.memoryMap
    {
      Machine(allocator.View(), mem, curdir)
    }

    constructor (allocator: FrameAllocator, mem: seq<Table>)
      ensures this.allocator == allocator && this.mem == mem && curdir == 0
    {
      this.allocator := allocator;
      this.mem := mem;
      curdir := 0;
    }

    /** memset of one frame with zero bytes */
    method ClearFrame(f: nat)
      requires f < |mem|
      modifies this`mem
      ensures mem == old(mem)[f := ZeroTable()]
    {
      for i := 0 to ENTRIES
        invariant |mem| == |old(mem)|
        invariant forall k :: 0 <= k < |mem| && k != f ==> mem[k] == old(mem)[k]
        invariant forall k :: 0 <= k < i ==> mem[f][k] == 0
      {
        mem := mem[f := mem[f][i := 0]];
      }
      assert mem[f] == ZeroTable();
    }

    /** The first table-filling loop of vmmngr_init. */
    method FillIdentity(f: nat)
      requires f < |mem|
      modifies this`mem
      ensures mem == old(mem)[f := PagingInit.IdentityTable()]
    {
      hide AddAttrib, SetFrame, Word;
      var frame, virt := 0, 0;
      for i := 0 to ENTRIES
        invariant |mem| == |old(mem)|
        invariant frame == PAGE_SIZE * i && virt == PAGE_SIZE * i
        invariant forall k :: 0 <= k < |mem| && k != f ==> mem[k] == old(mem)[k]
        invariant forall k :: 0 <= k < i ==> mem[f][k] == PagingInit.IdentityEntry(k)
      {
        var page: bv32 := 0;
        page := AddAttrib(page, 1);
        page := AddAttrib(page, 2);
        page := AddAttrib(page, 4);
        page := SetFrame(page, Word(frame));
        assert TableIndex(virt) == i;
        mem := mem[f := mem[f][TableIndex(virt) := page]];
        frame := frame + PAGE_SIZE;
        virt := virt + PAGE_SIZE;
      }
      assert mem[f] == PagingInit.IdentityTable();
    }

    /** The second table-filling loop of vmmngr_init. */
    method FillKernel(f: nat)
      requires f < |mem|
      modifies this`mem
      ensures mem == old(mem)[f := PagingInit.KernelTable()]
    {
      hide AddAttrib, SetFrame, Word;
      var frame, virt := 0x10_0000, 0xC000_0000;
      for i := 0 to ENTRIES
        invariant |mem| == |old(mem)|
        invariant frame == 0x10_0000 + PAGE_SIZE * i && virt == 0xC000_0000 + PAGE_SIZE * i
        invariant forall k :: 0 <= k < |mem| && k != f ==> mem[k] == old(mem)[k]
        invariant forall k :: 0 <= k < i ==> mem[f][k] == PagingInit.KernelEntry(k)
      {
        var page: bv32 := 0;
        page := AddAttrib(page, 1);
        page := AddAttrib(page, 4);
        page := SetFrame(page, Word(frame));
        assert TableIndex(virt) == i;
        mem := mem[f := mem[f][TableIndex(virt) := page]];
        frame := frame + PAGE_SIZE;
        virt := virt + PAGE_SIZE;
      }
      assert mem[f] == PagingInit.KernelTable();
    }

    /** One present, writable, user directory entry, as vmmngr_init builds them. */
    method PointTo(dir: nat, virt: nat, table: nat)
      requires dir < |mem| && mem[dir][DirIndex(virt)] == 0
      modifies this`mem
      ensures mem == old(mem)[dir := old(mem)[dir][DirIndex(virt) := PagingInit.UserTableEntry(table)]]
    {
      hide AddAttrib, SetFrame, Word;
      var entry := mem[dir][DirIndex(virt)];
      entry := AddAttrib(entry, 1);
      entry := AddAttrib(entry, 2);
      entry := AddAttrib(entry, 4);
      entry := SetFrame(entry, Word(table));
      mem := mem[dir := mem[dir][DirIndex(virt) := entry]];
    }

    /** Clearing and filling the two tables of vmmngr_init. */
    method FillTables(identity: nat, kernel: nat)
      requires identity < |mem| && kernel < |mem| && identity != kernel
      modifies this`mem
      ensures mem == old(mem)[identity := PagingInit.IdentityTable()][kernel := PagingInit.KernelTable()]
    {
      hide ZeroTable, PagingInit.IdentityTable, PagingInit.KernelTable;
      ClearFrame(identity);
      ClearFrame(kernel);
      FillIdentity(identity);
      FillKernel(kernel);
    }

    /** vmmngr_init, up to loading the directory into CR3 and turning paging on */
    method Init()
      requires PagingInit.Ready(View())
      modifies this, allocator, allocator.memoryMap
      ensures View() == PagingInit.Init(old(View())).0
    {
      hide ZeroTable, FrameMap.AllocBlocks, DirIndex, PagingInit.UserTableEntry, SetRange;
      hide PagingInit.IdentityTable, PagingInit.KernelTable;
      ghost var before := View();
      var identity := allocator.AllocBlock();
      if identity == 0 {
        return;
      }
      PagingInit.AllocFrom(before.frames, 1);
      ghost var frames1 := allocator.View();
      var kernel := allocator.AllocBlock();
      if kernel == 0 {
        return;
      }
      PagingInit.AllocFrom(frames1, 1);
      FillTables(identity / BLOCK_SIZE, kernel / BLOCK_SIZE);
      InitDirectory(identity, kernel);
    }

    /** The last part of vmmngr_init: a cleared directory with two entries becomes current. */
    method InitDirectory(identity: nat, kernel: nat)
      requires Valid(allocator.View()) && MapEnd(allocator.View()) <= |mem|
      modifies this, allocator, allocator.memoryMap
      ensures View() == PagingInit.InitDirectory(old(View()), identity, kernel).0
    {
      hide ZeroTable, FrameMap.AllocBlocks, DirIndex, PagingInit.UserTableEntry, SetRange;
      ghost var frames := allocator.View();
      var directory := allocator.AllocBlocks(3);
      if directory == 0 {
        return;
      }
      PagingInit.AllocFrom(frames, 3);
      var dir := directory / BLOCK_SIZE;
      ClearFrame(dir);
      ZeroTableReads();
      PointTo(dir, 0, identity);
      PointTo(dir, 0xC000_0000, kernel);
      curdir := dir;
    }

    /** vmmngr_get_page: the table frame and the index in it; table 0 stands for a null result. */
    method GetPage(virt: nat) returns (table: nat, index: nat)
      requires Shape(View())
      ensures table == FrameNumber(DirEntry(View(), DirIndex(virt))) && index == TableIndex(virt)
    {
      var e := mem[curdir][DirIndex(virt)];
      table := FrameNumber(e);
      index := TableIndex(virt);
    }

    /** vmmngr_map_page */
    method MapPage(phys: nat, virt: nat)
      requires Inv(View()) && phys < WORD_SPAN && virt < WORD_SPAN
      modifies this`mem, allocator, allocator.memoryMap
      ensures View() == Paging.MapPage(old(View()), phys, virt)
    {
      hide IsPresent, FrameNumber, AddAttrib, SetFrame, Word, MapEntry, TableEntry, ZeroTable;
      var i := DirIndex(virt);
      ghost var before := View();
      if !IsPresent(mem[curdir][i]) {
        var table := allocator.AllocBlock();
        if table == 0 {
          return;
        }
        AllocOne(before.frames);
        ClearFrame(table / BLOCK_SIZE);
        var entry := mem[curdir][i];
        entry := AddAttrib(entry, 1);
        entry := AddAttrib(entry, 2);
        entry := SetFrame(entry, Word(table));
        mem := mem[curdir := mem[curdir][i := entry]];
        AddTableKeeps(before, i);
        TableEntryIs(before.mem[before.dir][i], table);
      }
      assert Inv(View()) && IsPresent(DirEntry(View(), i));
      var t, k := GetPage(virt);
      var page := mem[t][k];
      page := AddAttrib(page, 1);
      page := SetFrame(page, Word(phys));
      MapEntryIs(mem[t][k], phys);
      mem := mem[t := mem[t][k := page]];
    }

    /** vmmngr_unmap_page */
    method UnmapPage(virt: nat)
      requires Inv(View()) && virt < WORD_SPAN
      modifies this`mem
      ensures View() == Paging.UnmapPage(old(View()), virt)
    {
      var t, k := GetPage(virt);
      if t == 0 {
        return;
      }
      ZeroEntry();
      var page := mem[t][k];
      page := SetFrame(page, 0);
      page := DelAttrib(page, 1);
      mem := mem[t := mem[t][k := page]];
    }

    /** vmmngr_alloc_page: the address (0 on failure) and the entry. */
    method AllocPage(e: bv32) returns (e': bv32, address: nat)
      requires Valid(allocator.View())
      modifies allocator, allocator.memoryMap
      ensures (allocator.View(), e', address) == PagingRuns.AllocPage(old(allocator.View()), e)
    {
      address := allocator.AllocBlock();
      if address == 0 {
        return e, 0;
      }
      e' := SetFrame(e, Word(address));
      e' := AddAttrib(e', 1);
    }

    /** vmmngr_free_page */
    method FreePage(e: bv32) returns (e': bv32)
      requires Nat(Pfn(e)) / BLOCK_SIZE < 32 * allocator.memoryMap.Length
      modifies allocator, allocator.memoryMap
      ensures (allocator.View(), e') == PagingRuns.FreePage(old(allocator.View()), e)
    {
      var p := Nat(Pfn(e));
      if p != 0 {
        allocator.FreeBlocks(p, 1);
      }
      e' := DelAttrib(e, 1);
    }
  }

  lemma TableEntryIs(e: bv32, address: nat)
    ensures SetFrame(AddAttrib(AddAttrib(e, 1), 2), Word(address)) == TableEntry(e, address)
  {
  }

  lemma MapEntryIs(e: bv32, address: nat)
    ensures SetFrame(AddAttrib(e, 1), Word(address)) == MapEntry(e, address)
  {
  }

  lemma ZeroTableReads()
    ensures forall k :: 0 <= k < ENTRIES ==> ZeroTable()[k] == 0
    ensures DirIndex(0) == 0 && DirIndex(0xC000_0000) == 768
  {
  }
}
