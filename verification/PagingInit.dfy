/**
 vmmngr_init: two tables and a directory, after which the first 4 MiB map to themselves and
 the 4 MiB from 3 GiB up map to physical memory from 1 MiB.
 */
module PagingInit {
  import opened Words
  import opened FrameMap
  import opened PageEntry
  import opened Paging

  /** 1 (present), 2 (writable), 4 (user). */
  function IdentityEntry(i: nat): bv32 {
    SetFrame(AddAttrib(AddAttrib(AddAttrib(0, 1), 2), 4), Word(PAGE_SIZE * i))
  }

  function KernelEntry(i: nat): bv32 {
    SetFrame(AddAttrib(AddAttrib(0, 1), 4), Word(0x10_0000 + PAGE_SIZE * i))
  }

  function UserTableEntry(address: nat): bv32 {
    SetFrame(AddAttrib(AddAttrib(AddAttrib(0, 1), 2), 4), Word(address))
  }

  function IdentityTable(): Table {
    seq(ENTRIES, i requires 0 <= i < ENTRIES => IdentityEntry(i))
  }

  function KernelTable(): Table {
    seq(ENTRIES, i requires 0 <= i < ENTRIES => KernelEntry(i))
  }

  /** Before paging is on there is no directory; the other fields must fit together. */
  predicate Ready(m: Machine) {
    && Valid(m.frames) && m.frames.bits[0]
    && MapEnd(m.frames) <= |m.mem| <= 0x10_0000
  }

  /** Result: the machine and whether all three allocations succeeded. */
  function Init(m: Machine): (Machine, bool)
    requires Ready(m)
  {
    var (frames1, identity) := AllocBlocks(m.frames, 1);
    if identity == 0 then (m.(frames := frames1), false) else
    AllocFrom(m.frames, 1);
    var (frames2, kernel) := AllocBlocks(frames1, 1);
    if kernel == 0 then (m.(frames := frames2), false) else
    AllocFrom(frames1, 1);
    var filled := m.mem[identity / BLOCK_SIZE := IdentityTable()][kernel / BLOCK_SIZE := KernelTable()];
    InitDirectory(m.(frames := frames2, mem := filled), identity, kernel)
  }

  /** The directory, once the two tables are filled. */
  function InitDirectory(m: Machine, identity: nat, kernel: nat): (Machine, bool)
    requires Valid(m.frames) && MapEnd(m.frames) <= |m.mem|
  {
    var (frames, dir) := AllocBlocks(m.frames, 3);
    if dir == 0 then (m.(frames := frames), false) else
    AllocFrom(m.frames, 3);
    var entries := ZeroTable()[DirIndex(0) := UserTableEntry(identity)][DirIndex(0xC000_0000) := UserTableEntry(kernel)];
    (Machine(frames, m.mem[dir / BLOCK_SIZE := entries], dir / BLOCK_SIZE), true)
  }

  /** The first block of an allocation was free, lies in the map, and is used afterwards. */
  lemma AllocFrom(f: Frames, n: nat)
    requires Valid(f) && AllocBlocks(f, n).1 != 0
    ensures var (after, address) := AllocBlocks(f, n);
            && n > 0
            && address % BLOCK_SIZE == 0 && 0 < address / BLOCK_SIZE < MapEnd(f)
            && !f.bits[address / BLOCK_SIZE]
            && after.bits == SetRange(f.bits, address / BLOCK_SIZE, n)
            && after.blocks == f.blocks && Valid(after)
  {
    hide Search, SetRange;
    SearchIsFirst(f.bits, SearchWords(f), n, 0);
    var start := FirstFit(f, n);
    assert Probe(SearchWords(f), start) == start;
  }

  lemma FlagsOnly()
    ensures (4 as bv32) & 0xFFFF_F000 == 0
  {
  }

  lemma UserBit(e: bv32)
    ensures IsPresent(e) ==> IsPresent(AddAttrib(e, 4))
  {
  }

  /** Entries built from nothing read back what was put in. */
  lemma FreshEntryReads(address: nat)
    requires address < WORD_SPAN
    ensures var e := SetFrame(AddAttrib(AddAttrib(AddAttrib(0, 1), 2), 4), Word(address));
            IsPresent(e) && FrameNumber(e) == address / 4096 && (TopBit(e) == 0 <==> address < 0x8000_0000)
    ensures var e := SetFrame(AddAttrib(AddAttrib(0, 1), 4), Word(address));
            IsPresent(e) && FrameNumber(e) == address / 4096 && (TopBit(e) == 0 <==> address < 0x8000_0000)
  {
    hide IsPresent, AddAttrib, SetFrame, TopBit, FrameNumber, Word;
    ZeroEntry();
    LowFlag();
    FlagsOnly();
    var e1 := AddAttrib(0, 1);
    PresentBit(0, 0);
    PresentBit(e1, 0);
    AddFields(0, 1);
    AddFields(e1, 2);
    AddFields(AddAttrib(e1, 2), 4);
    AddFields(e1, 4);
    UserBit(e1);
    UserBit(AddAttrib(e1, 2));
    FreshFrame(AddAttrib(AddAttrib(e1, 2), 4), address);
    FreshFrame(AddAttrib(e1, 4), address);
  }

  lemma FreshFrame(e: bv32, address: nat)
    requires address < WORD_SPAN && IsPresent(e) && TopBit(e) == 0
    ensures IsPresent(SetFrame(e, Word(address))) && FrameNumber(SetFrame(e, Word(address))) == address / 4096
    ensures TopBit(SetFrame(e, Word(address))) == 0 <==> address < 0x8000_0000
  {
    hide IsPresent, SetFrame, TopBit, FrameNumber, Word;
    PresentKept(e, Word(address));
    FrameReadBack(e, address);
    TopOfSetFrame(e, Word(address));
    TopOfAddress(address);
    OrZero(TopBit(e), TopBit(Word(address)));
  }

  /** The translation the kernel asks for. */
  function Intended(virt: nat): Translation {
    if virt < 0x40_0000 then Maps(virt)
    else if 0xC000_0000 <= virt < 0xC040_0000 then Maps(virt - 0xC000_0000 + 0x10_0000)
    else Fault
  }

  /** Three allocations in a row give three different frames, all used afterwards. */
  lemma ThreeFrames(f0: Frames, f1: Frames, f2: Frames, f3: Frames, a1: nat, a2: nat, a3: nat)
    requires Valid(f0) && f0.bits[0] && (f1, a1) == AllocBlocks(f0, 1) && a1 != 0
    requires Valid(f1) && (f2, a2) == AllocBlocks(f1, 1) && a2 != 0
    requires Valid(f2) && (f3, a3) == AllocBlocks(f2, 3) && a3 != 0
    ensures Valid(f3) && MapEnd(f3) == MapEnd(f0) && f3.bits[0]
    ensures forall a :: a in {a1, a2, a3} ==> a % BLOCK_SIZE == 0 && 0 < a / BLOCK_SIZE < MapEnd(f0) && f3.bits[a / BLOCK_SIZE]
    ensures a1 / BLOCK_SIZE != a2 / BLOCK_SIZE && a1 / BLOCK_SIZE != a3 / BLOCK_SIZE && a2 / BLOCK_SIZE != a3 / BLOCK_SIZE
  {
    AllocFrom(f0, 1);
    AllocFrom(f1, 1);
    AllocFrom(f2, 3);
    hide AllocBlocks;
  }

  lemma ThreeStores(mem: seq<Table>, i: nat, j: nat, k: nat, a: Table, b: Table, c: Table)
    requires i < |mem| && j < |mem| && k < |mem| && i != j && i != k && j != k
    ensures var after := mem[i := a][j := b][k := c]; after[i] == a && after[j] == b && after[k] == c
  {
  }

  /** The frames of the two tables and of the directory are what three allocations in a row answer. */
  predicate Taken(f: Frames, t1: nat, t2: nat, dir: nat, after: Frames)
    requires Valid(f)
  {
    var (f1, a1) := AllocBlocks(f, 1);
    a1 != 0 && t1 == a1 / BLOCK_SIZE && Valid(f1) && (
      var (f2, a2) := AllocBlocks(f1, 1);
      a2 != 0 && t2 == a2 / BLOCK_SIZE && Valid(f2) && (
        var (f3, a3) := AllocBlocks(f2, 3);
        a3 != 0 && dir == a3 / BLOCK_SIZE && after == f3))
  }

  /** All three allocations answer. */
  ghost predicate Answers(f: Frames)
    requires Valid(f)
  {
    exists t1, t2, dir, after :: Taken(f, t1, t2, dir, after)
  }

  lemma InitResult(m: Machine, f1: Frames, f2: Frames, f3: Frames, a1: nat, a2: nat, a3: nat)
    requires Ready(m) && a1 != 0 && a2 != 0 && a3 != 0
    requires (f1, a1) == AllocBlocks(m.frames, 1)
    requires Valid(f1) && (f2, a2) == AllocBlocks(f1, 1)
    requires Valid(f2) && (f3, a3) == AllocBlocks(f2, 3)
    requires a1 / BLOCK_SIZE < |m.mem| && a2 / BLOCK_SIZE < |m.mem| && a3 / BLOCK_SIZE < |m.mem|
    ensures Init(m).1
    ensures var entries := ZeroTable()[DirIndex(0) := UserTableEntry(a1)][DirIndex(0xC000_0000) := UserTableEntry(a2)];
            Init(m).0 == Machine(f3, m.mem[a1 / BLOCK_SIZE := IdentityTable()][a2 / BLOCK_SIZE := KernelTable()][a3 / BLOCK_SIZE := entries], a3 / BLOCK_SIZE)
  {
    hide UserTableEntry, IdentityTable, KernelTable, ZeroTable, AllocBlocks, Valid, DirIndex;
  }

  /** The three structures are distinct frames with the contents the kernel wrote. */
  lemma InitParts(m: Machine) returns (t1: nat, t2: nat)
    requires Ready(m) && Answers(m.frames)
    ensures var m' := Init(m).0;
            && Shape(m') && m'.frames.bits[0] && Reserved(m', m'.dir)
            && Reserved(m', t1) && Reserved(m', t2) && t1 != t2 && t1 != m'.dir && t2 != m'.dir
            && m'.mem[t1] == IdentityTable() && m'.mem[t2] == KernelTable()
            && m'.mem[m'.dir] == ZeroTable()[0 := UserTableEntry(PAGE_SIZE * t1)][768 := UserTableEntry(PAGE_SIZE * t2)]
    ensures Init(m).1 && Taken(m.frames, t1, t2, Init(m).0.dir, Init(m).0.frames)
    ensures |Init(m).0.mem| == |m.mem|
    ensures forall f :: 0 <= f < |m.mem| && f !in {t1, t2, Init(m).0.dir} ==> Init(m).0.mem[f] == m.mem[f]
  {
    hide UserTableEntry, IdentityTable, KernelTable, ZeroTable, AllocBlocks, SetRange, DirIndex;
    var u1, u2, u3, after :| Taken(m.frames, u1, u2, u3, after);
    assert DirIndex(0) == 0 && DirIndex(0xC000_0000) == 768 by { Indexes(); }
    var (frames1, identity) := AllocBlocks(m.frames, 1);
    AllocFrom(m.frames, 1);
    var (frames2, kernel) := AllocBlocks(frames1, 1);
    AllocFrom(frames1, 1);
    var (frames3, dir) := AllocBlocks(frames2, 3);
    ThreeFrames(m.frames, frames1, frames2, frames3, identity, kernel, dir);
    t1, t2 := identity / BLOCK_SIZE, kernel / BLOCK_SIZE;
    var entries := ZeroTable()[DirIndex(0) := UserTableEntry(identity)][DirIndex(0xC000_0000) := UserTableEntry(kernel)];
    ThreeStores(m.mem, t1, t2, dir / BLOCK_SIZE, IdentityTable(), KernelTable(), entries);
    InitResult(m, frames1, frames2, frames3, identity, kernel, dir);
  }

  lemma Indexes()
    ensures DirIndex(0) == 0 && DirIndex(0xC000_0000) == 768
  {
  }

  /** vmmngr_init succeeds exactly when all three allocations answer. */
  lemma InitSucceeds(m: Machine)
    requires Ready(m)
    ensures Init(m).1 <==> Answers(m.frames)
  {
    hide IdentityTable, KernelTable, UserTableEntry, ZeroTable, AllocBlocks, DirIndex;
    if Answers(m.frames) {
      var t1, t2 := InitParts(m);
    }
    if Init(m).1 {
      var (f1, a1) := AllocBlocks(m.frames, 1);
      AllocFrom(m.frames, 1);
      var (f2, a2) := AllocBlocks(f1, 1);
      AllocFrom(f1, 1);
      var (f3, a3) := AllocBlocks(f2, 3);
      assert Taken(m.frames, a1 / BLOCK_SIZE, a2 / BLOCK_SIZE, a3 / BLOCK_SIZE, f3);
    }
  }

  /**
   Otherwise there is no directory, and the frames answered so far stay taken: none, the first,
   or both tables, filled.
   */
  lemma InitFails(m: Machine)
    requires Ready(m) && !Answers(m.frames)
    ensures AllocBlocks(m.frames, 1).1 == 0 ==> Init(m).0 == m
    ensures AllocBlocks(m.frames, 1).1 != 0 ==>
              var (f1, a1) := AllocBlocks(m.frames, 1);
              && Valid(f1)
              && (AllocBlocks(f1, 1).1 == 0 ==> Init(m).0 == m.(frames := f1))
              && (AllocBlocks(f1, 1).1 != 0 ==>
                    var (f2, a2) := AllocBlocks(f1, 1);
                    && a1 / BLOCK_SIZE < |m.mem| && a2 / BLOCK_SIZE < |m.mem| && a1 / BLOCK_SIZE != a2 / BLOCK_SIZE
                    && Init(m).0 == m.(frames := f2, mem := m.mem[a1 / BLOCK_SIZE := IdentityTable()][a2 / BLOCK_SIZE := KernelTable()]))
  {
    hide IdentityTable, KernelTable, UserTableEntry, ZeroTable, AllocBlocks, DirIndex;
    InitSucceeds(m);
    var (f1, a1) := AllocBlocks(m.frames, 1);
    if a1 == 0 {
      NullKeeps(m.frames, 1);
    } else {
      AllocFrom(m.frames, 1);
      var (f2, a2) := AllocBlocks(f1, 1);
      if a2 == 0 {
        NullKeeps(f1, 1);
      } else {
        AllocFrom(f1, 1);
        NullKeeps(f2, 3);
      }
    }
  }

  lemma InitEntries(m: Machine, t1: nat, t2: nat)
    requires Shape(m)
    requires m.mem[m.dir] == ZeroTable()[0 := UserTableEntry(PAGE_SIZE * t1)][768 := UserTableEntry(PAGE_SIZE * t2)]
    ensures DirEntry(m, 0) == UserTableEntry(PAGE_SIZE * t1) && DirEntry(m, 768) == UserTableEntry(PAGE_SIZE * t2)
    ensures forall i :: 0 <= i < ENTRIES && i != 0 && i != 768 ==> DirEntry(m, i) == 0
  {
    hide UserTableEntry;
  }

  lemma IdentityReads(i: nat)
    requires i < ENTRIES
    ensures var e := IdentityTable()[i]; IsPresent(e) && FrameNumber(e) == i && TopBit(e) == 0
    ensures var e := KernelTable()[i]; IsPresent(e) && FrameNumber(e) == 0x100 + i && TopBit(e) == 0
  {
    hide IsPresent, AddAttrib, SetFrame, TopBit, FrameNumber, Word;
    FreshEntryReads(PAGE_SIZE * i);
    FreshEntryReads(0x10_0000 + PAGE_SIZE * i);
    assert IdentityTable()[i] == IdentityEntry(i) && KernelTable()[i] == KernelEntry(i);
  }

  lemma UserTableReads(t: nat)
    requires t < 0x10_0000
    ensures IsPresent(UserTableEntry(PAGE_SIZE * t)) && FrameNumber(UserTableEntry(PAGE_SIZE * t)) == t
  {
    hide IsPresent, AddAttrib, SetFrame, TopBit, FrameNumber, Word;
    FreshEntryReads(PAGE_SIZE * t);
  }

  function IntendedPage(q: nat): Translation {
    if q < 1024 then Maps(q) else if 0xC_0000 <= q < 0xC_0400 then Maps(q - 0xC_0000 + 0x100) else Fault
  }

  lemma PageThenOffset(virt: nat)
    requires virt < WORD_SPAN
    ensures Intended(virt) == match IntendedPage(virt / PAGE_SIZE)
                              case Fault => Fault
                              case Maps(f) => Maps(f * PAGE_SIZE + virt % PAGE_SIZE)
  {
  }

  /** After vmmngr_init succeeds: the structures, the walk of every page, and no leftover bit 31. */
  lemma InitWalks(m: Machine)
    requires Ready(m) && Answers(m.frames)
    ensures var m' := Init(m).0;
            && Inv(m') && Init(m).1
            && (forall q :: 0 <= q < ENTRIES * ENTRIES ==> Walk(m', q) == IntendedPage(q))
            && (forall q :: 0 <= q < ENTRIES * ENTRIES ==> !TopLeft(m', q))
  {
    hide Init, IsPresent, TopBit, FrameNumber, UserTableEntry, IdentityTable, KernelTable, ZeroTable, Taken;
    var m' := Init(m).0;
    var t1, t2 := InitParts(m);
    InitEntries(m', t1, t2);
    ZeroEntry();
    UserTableReads(t1);
    UserTableReads(t2);
    InitInv(m', t1, t2);
    hide Inv;
    forall q | 0 <= q < ENTRIES * ENTRIES
      ensures !TopLeft(m', q)
      ensures Walk(m', q) == IntendedPage(q)
    {
      IdentityReads(q % ENTRIES);
    }
  }

  /**
   After vmmngr_init succeeds the page tables are in order, no entry has bit 31 set, and the
   processor translates every address as intended and faults everywhere else.
   */
  lemma InitTranslates(m: Machine)
    requires Ready(m) && Answers(m.frames)
    ensures var m' := Init(m).0;
            && Inv(m') && Init(m).1
            && (forall virt: nat :: virt < WORD_SPAN ==> PhysicalOf(m', virt) == Intended(virt))
            && (forall q :: 0 <= q < ENTRIES * ENTRIES ==> Walk(m', q) == IntendedPage(q))
            && (forall q :: 0 <= q < ENTRIES * ENTRIES ==> !TopLeft(m', q))
  {
    hide Init, Walk, TopLeft;
    var m' := Init(m).0;
    InitWalks(m);
    forall virt: nat | virt < WORD_SPAN
      ensures PhysicalOf(m', virt) == Intended(virt)
    {
      PageThenOffset(virt);
    }
  }

  lemma InitInv(m: Machine, t1: nat, t2: nat)
    requires Shape(m) && m.frames.bits[0] && Reserved(m, m.dir)
    requires Reserved(m, t1) && Reserved(m, t2) && t1 != t2 && t1 != m.dir && t2 != m.dir
    requires IsPresent(DirEntry(m, 0)) && FrameNumber(DirEntry(m, 0)) == t1
    requires IsPresent(DirEntry(m, 768)) && FrameNumber(DirEntry(m, 768)) == t2
    requires forall i :: 0 <= i < ENTRIES && i != 0 && i != 768 ==> DirEntry(m, i) == 0
    ensures Inv(m)
  {
    hide IsPresent, FrameNumber;
    ZeroEntry();
  }
}
