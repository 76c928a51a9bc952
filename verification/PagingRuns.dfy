/**
 Runs of the page table manager. Seen from the processor, any sequence of maps, unmaps and
 frame allocations behaves like a finite map from pages to frames.
 */
module PagingRuns {
  import opened Words
  import opened FrameMap
  import opened PageEntry
  import opened Paging

  datatype Op = Map(phys: nat, virt: nat) | Unmap(virt: nat) | Grab(blocks: nat)

  /** What the processor sees: the page map. */
  type View = map<nat, nat>

  function Apply(m: Machine, op: Op): Machine
    requires Inv(m) && InRange(op)
  {
    match op
    case Map(phys, virt) => MapPage(m, phys, virt)
    case Unmap(virt) => UnmapPage(m, virt)
    case Grab(n) => m.(frames := AllocBlocks(m.frames, n).0)
  }

  predicate InRange(op: Op) {
    match op
    case Map(phys, virt) => phys % PAGE_SIZE == 0 && phys < 0x8000_0000 && virt < WORD_SPAN
    case Unmap(virt) => virt < WORD_SPAN
    case Grab(_) => true
  }

  function ApplyView(v: View, op: Op): View {
    match op
    case Map(phys, virt) => v[virt / PAGE_SIZE := phys / PAGE_SIZE]
    case Unmap(virt) => v - {virt / PAGE_SIZE}
    case Grab(_) => v
  }

  /** The processor's walk agrees with the page map, and no entry holds a leftover bit 31. */
  ghost predicate Refines(m: Machine, v: View) {
    && Inv(m)
    && (forall q :: 0 <= q < ENTRIES * ENTRIES ==> Walk(m, q) == (if q in v then Maps(v[q]) else Fault))
    && (forall q :: 0 <= q < ENTRIES * ENTRIES ==> !TopLeft(m, q))
  }

  /** A mapping succeeds unless it needs a table and no frame is left. */
  predicate Succeeds(m: Machine, op: Op)
    requires Inv(m)
  {
    op.Map? ==> CanMap(m, op.virt)
  }

  lemma GrabKeeps(m: Machine, n: nat)
    requires Inv(m)
    ensures var m' := m.(frames := AllocBlocks(m.frames, n).0);
            && Inv(m')
            && forall q :: 0 <= q < ENTRIES * ENTRIES ==> Walk(m', q) == Walk(m, q) && TopLeft(m', q) == TopLeft(m, q)
  {
    hide IsPresent, FrameNumber, TopBit;
    GrabGrows(m.frames, n);
    hide AllocBlocks;
    var m' := m.(frames := AllocBlocks(m.frames, n).0);
    assert forall i :: 0 <= i < ENTRIES ==> DirEntry(m', i) == DirEntry(m, i);
  }

  lemma GrabGrows(f: Frames, n: nat)
    requires Valid(f)
    ensures var g := AllocBlocks(f, n).0;
            && Valid(g) && g.blocks == f.blocks && |g.bits| == |f.bits|
            && forall b :: 0 <= b < |f.bits| && f.bits[b] ==> g.bits[b]
  {
  }

  lemma MapRefines(m: Machine, v: View, phys: nat, virt: nat)
    requires Refines(m, v) && InRange(Map(phys, virt)) && CanMap(m, virt)
    ensures Refines(MapPage(m, phys, virt), v[virt / PAGE_SIZE := phys / PAGE_SIZE])
  {
    hide MapPage, Walk, TopLeft, Inv, CanMap;
    MapPageTranslates(m, phys, virt);
  }

  lemma UnmapRefines(m: Machine, v: View, virt: nat)
    requires Refines(m, v) && virt < WORD_SPAN
    ensures Refines(UnmapPage(m, virt), v - {virt / PAGE_SIZE})
  {
    hide UnmapPage, Walk, TopLeft, Inv;
    UnmapPageFaults(m, virt);
  }

  /** One operation on the tables is one operation on the page map. */
  lemma StepRefines(m: Machine, v: View, op: Op)
    requires Refines(m, v) && InRange(op) && Succeeds(m, op)
    ensures Refines(Apply(m, op), ApplyView(v, op))
  {
    match op
    case Map(phys, virt) => MapRefines(m, v, phys, virt);
    case Unmap(virt) => UnmapRefines(m, v, virt);
    case Grab(n) => GrabKeeps(m, n);
  }

  /** Every operation, successful or not, keeps the directory and tables in order. */
  lemma ApplyInv(m: Machine, op: Op)
    requires Inv(m) && InRange(op)
    ensures Inv(Apply(m, op))
  {
    hide Inv;
    match op
    case Map(phys, virt) => MapPageInv(m, phys, virt);
    case Unmap(virt) => UnmapPageFaults(m, virt);
    case Grab(n) => GrabKeeps(m, n);
  }

  ghost predicate AllSucceed(m: Machine, ops: seq<Op>)
    requires Inv(m)
    decreases |ops|
  {
    ops == [] || (
      && InRange(ops[0]) && Succeeds(m, ops[0])
      && (ApplyInv(m, ops[0]); AllSucceed(Apply(m, ops[0]), ops[1..])))
  }

  ghost function Run(m: Machine, ops: seq<Op>): Machine
    requires Inv(m) && AllSucceed(m, ops)
    decreases |ops|
  {
    if ops == [] then m else
    ApplyInv(m, ops[0]);
    Run(Apply(m, ops[0]), ops[1..])
  }

  function RunView(v: View, ops: seq<Op>): View
    decreases |ops|
  {
    if ops == [] then v else RunView(ApplyView(v, ops[0]), ops[1..])
  }

  /**
   Over every run in which no mapping fails for want of a frame, the processor's translation is
   the page map, the directory and tables are distinct frames marked used, and every directory
   entry is zero or present with a nonzero frame.
   */
  lemma {:induction false} RunRefines(m: Machine, v: View, ops: seq<Op>)
    requires Refines(m, v) && AllSucceed(m, ops)
    ensures Refines(Run(m, ops), RunView(v, ops))
    decreases |ops|
  {
    if ops != [] {
      StepRefines(m, v, ops[0]);
      RunRefines(Apply(m, ops[0]), ApplyView(v, ops[0]), ops[1..]);
    }
  }

  // ---- single pages: allocation and release through an entry

  /** vmmngr_alloc_page: the new allocator state, the entry and the address (0 on failure). */
  function AllocPage(f: Frames, e: bv32): (Frames, bv32, nat)
    requires Valid(f)
  {
    var (after, address) := AllocBlocks(f, 1);
    if address == 0 then (after, e, 0)
    else (after, AddAttrib(SetFrame(e, Word(address)), 1), address)
  }

  /** vmmngr_free_page reads the address back without bit 31. */
  function FreePage(f: Frames, e: bv32): (Frames, bv32) {
    var address := Nat(Pfn(e));
    (if address != 0 then FreeBlocks(f, address, 1) else f, DelAttrib(e, 1))
  }

  lemma FreshPfn(w: bv32)
    ensures Pfn(AddAttrib(SetFrame(0, w), 1)) == Pfn(w)
  {
  }

  lemma PfnField(w: bv32)
    ensures TopBit(w) == 0 ==> FrameField(Pfn(w)) == FrameField(w)
  {
  }

  lemma PfnSmall(w: bv32)
    ensures Within(FrameField(Pfn(w)), 0x7_FFFF)
  {
  }

  lemma NatField(w: bv32)
    ensures Nat(w) < WORD_SPAN && Nat(w) / 4096 == Nat(FrameField(w))
  {
    hide Nat, Word, FrameField;
    WordOfNat(w);
    NatLimit(w);
    WordOfFrameNumber(Nat(w));
    NatOfWord(Nat(w) / 4096);
  }

  lemma NatLimit(w: bv32)
    ensures Nat(w) < WORD_SPAN
  {
    LowBelow(w, 32);
    Pow2Values();
  }

  /** The block an entry fresh from AllocPage gives back. */
  lemma BlockOfFresh(address: nat)
    requires address < WORD_SPAN && address / PAGE_SIZE > 0
    ensures var back := Nat(Pfn(AddAttrib(SetFrame(0, Word(address)), 1)));
            && (address < 0x8000_0000 ==> back != 0 && back / PAGE_SIZE == address / PAGE_SIZE)
            && (address >= 0x8000_0000 ==> back / PAGE_SIZE != address / PAGE_SIZE)
  {
    hide Nat, Word, FrameField, Pfn, AddAttrib, SetFrame, TopBit, Within;
    var w := Word(address);
    FreshPfn(w);
    NatField(Pfn(w));
    PfnField(w);
    TopOfAddress(address);
    WordOfFrameNumber(address);
    NatOfWord(address / PAGE_SIZE);
    PfnSmall(w);
    OnesValues();
    Pow2Values();
    NatBelow(FrameField(Pfn(w)), 19);
  }

  /**
   Releasing a page just allocated restores the allocator exactly when the page lies below
   2 GiB: above, the frame mask drops bit 31 and another block, or none, is freed.
   */
  lemma FreePageUndoes(f: Frames)
    requires Valid(f) && AllocPage(f, 0).2 != 0
    ensures var (after, e, address) := AllocPage(f, 0);
            FreePage(after, e).0 == f <==> address < 0x8000_0000
  {
    hide Nat, Word, Pfn, AddAttrib, SetFrame, DelAttrib, AllocBlocks;
    AllocOne(f);
    var (after, e, address) := AllocPage(f, 0);
    BlockOfFresh(address);
    AllocUsed(f);
    if address < 0x8000_0000 {
      assert ClearRange(after.bits, address / BLOCK_SIZE, 1) == f.bits;
    } else {
      assert FreePage(after, e).0.bits[address / BLOCK_SIZE];
    }
  }

  /**
   The entry of a page allocation: present, its other flags as before, its frame the one handed
   out unless bit 31 is left over. When no frame is left nothing changes.
   */
  lemma AllocPageEntry(f: Frames, e: bv32)
    requires Valid(f) && f.bits[0]
    ensures var (after, e', address) := AllocPage(f, e);
            if address == 0 then after == f && e' == e
            else && IsPresent(e') && Flags(e') == AddAttrib(Flags(e), 1)
                 && (FrameNumber(e') == address / 4096 <==> TopBit(e) == 0 || address >= 0x8000_0000)
  {
    hide AllocBlocks, IsPresent, AddAttrib, SetFrame, Flags, FrameNumber, TopBit, Word, FrameField;
    var (after, e', address) := AllocPage(f, e);
    if address == 0 {
      NullKeeps(f, 1);
    } else {
      AllocOne(f);
      AllocUsed(f);
      var w := Word(address);
      WordOfPage(address);
      FrameFields(e, w);
      LowFlag();
      AddFields(SetFrame(e, w), 1);
      PresentBit(SetFrame(e, w), 0);
      FrameReadBack(e, address);
      PresentLeavesField(SetFrame(e, w));
    }
  }

  lemma PresentLeavesField(e: bv32)
    ensures FrameNumber(AddAttrib(e, 1)) == FrameNumber(e)
  {
    hide Nat;
    PresentField(e);
  }

  lemma PresentField(e: bv32)
    ensures FrameField(AddAttrib(e, 1)) == FrameField(e)
  {
  }

  /** The entry of a page release loses the present bit and nothing else. */
  lemma FreePageEntry(f: Frames, e: bv32)
    ensures var e' := FreePage(f, e).1; !IsPresent(e') && e' & 0xFFFF_FFFE == e & 0xFFFF_FFFE
  {
    hide DelAttrib;
    PresentCleared(e);
    RestKept(e);
  }

  lemma RestKept(e: bv32)
    ensures DelAttrib(e, 1) & 0xFFFF_FFFE == e & 0xFFFF_FFFE
  {
  }

  lemma AllocUsed(f: Frames)
    requires Valid(f) && AllocBlocks(f, 1).1 != 0
    ensures AllocBlocks(f, 1).0.used == Wrap(f.used + 1) && AllocBlocks(f, 1).1 < WORD_SPAN
  {
    AllocOne(f);
  }
}
