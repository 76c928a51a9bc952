/**
 Page table and page directory entries: the attribute and frame edits of vmmngr_pte.c and
 vmmngr_pde.c, which are the same code for both kinds of entry, on 32-bit words.
 */
module PageEntry {
  import opened Words

  // Flag bits 1 (present), 2 (writable), 4 (user); frame mask 0x7FFFF000, which leaves out
  // bit 31. The masks stand as literals so that the solver sees their bits.

  function AddAttrib(e: bv32, attrib: bv32): bv32 {
    e | attrib
  }

  function DelAttrib(e: bv32, attrib: bv32): bv32 {
    e & !attrib
  }

  function SetFrame(e: bv32, addr: bv32): bv32 {
    (e & 0x8000_0FFF) | addr
  }

  function Pfn(e: bv32): bv32 {
    e & 0x7FFF_F000
  }

  predicate IsPresent(e: bv32) {
    e & 1 != 0
  }

  /** PAGE_GET_PHYSICAL_ADDRESS: unlike `Pfn`, it keeps bit 31. */
  function PhysicalAddress(e: bv32): bv32 {
    e & 0xFFFF_F000
  }

  // ---- the three fields of an entry

  function Flags(e: bv32): bv32 {
    e & 0xFFF
  }

  function TopBit(e: bv32): bv32 {
    e & 0x8000_0000
  }

  lemma Fields(e: bv32)
    ensures e == Flags(e) | Pfn(e) | TopBit(e)
    ensures PhysicalAddress(e) == Pfn(e) | TopBit(e)
  {
  }

  lemma OrFlags(e: bv32, a: bv32)
    requires a & 0xFFFF_F000 == 0
    ensures Flags(e | a) == Flags(e) | a
  {
  }

  lemma OrAbove(e: bv32, a: bv32)
    requires a & 0xFFFF_F000 == 0
    ensures Pfn(e | a) == Pfn(e)
    ensures TopBit(e | a) == TopBit(e)
  {
  }

  lemma AndNotFlags(e: bv32, a: bv32)
    requires a & 0xFFFF_F000 == 0
    ensures Flags(e & !a) == Flags(e) & !a
  {
  }

  lemma AndNotAbove(e: bv32, a: bv32)
    requires a & 0xFFFF_F000 == 0
    ensures Pfn(e & !a) == Pfn(e)
    ensures TopBit(e & !a) == TopBit(e)
  {
  }

  lemma AddFields(e: bv32, a: bv32)
    requires a & 0xFFFF_F000 == 0
    ensures Flags(AddAttrib(e, a)) == AddAttrib(Flags(e), a)
    ensures Pfn(AddAttrib(e, a)) == Pfn(e)
    ensures TopBit(AddAttrib(e, a)) == TopBit(e)
  {
    hide Flags, Pfn, TopBit;
    OrFlags(e, a);
    OrAbove(e, a);
  }

  lemma DelFields(e: bv32, a: bv32)
    requires a & 0xFFFF_F000 == 0
    ensures Flags(DelAttrib(e, a)) == DelAttrib(Flags(e), a)
    ensures Pfn(DelAttrib(e, a)) == Pfn(e)
    ensures TopBit(DelAttrib(e, a)) == TopBit(e)
  {
    hide Flags, Pfn, TopBit;
    AndNotFlags(e, a);
    AndNotAbove(e, a);
  }

  lemma FrameFields(e: bv32, a: bv32)
    requires a & 0xFFF == 0
    ensures Flags(SetFrame(e, a)) == Flags(e)
    ensures Pfn(SetFrame(e, a)) == Pfn(a)
    ensures TopBit(SetFrame(e, a)) == TopBit(e) | TopBit(a)
  {
  }

  // ---- any sequence of edits on one entry

  datatype Edit = Add(attrib: bv32) | Del(attrib: bv32) | Frame(addr: bv32)

  /** Attributes lie in the low twelve bits, frame addresses above them. */
  predicate WellFormed(edit: Edit) {
    match edit
    case Add(a) => a & 0xFFFF_F000 == 0
    case Del(a) => a & 0xFFFF_F000 == 0
    case Frame(a) => a & 0xFFF == 0
  }

  function ApplyEdit(e: bv32, edit: Edit): bv32 {
    match edit
    case Add(a) => AddAttrib(e, a)
    case Del(a) => DelAttrib(e, a)
    case Frame(a) => SetFrame(e, a)
  }

  function ApplyEdits(e: bv32, edits: seq<Edit>): bv32 {
    if edits == [] then e
    else ApplyEdit(ApplyEdits(e, edits[..|edits| - 1]), edits[|edits| - 1])
  }

  /** The attributes that remain: each one is in force iff its last edit added it. */
  function Attributes(edits: seq<Edit>): bv32 {
    if edits == [] then 0 as bv32 else
    var before := Attributes(edits[..|edits| - 1]);
    match edits[|edits| - 1]
    case Add(a) => AddAttrib(before, a)
    case Del(a) => DelAttrib(before, a)
    case Frame(_) => before
  }

  /** The address set last, 0 when none was. */
  function LastFrame(edits: seq<Edit>): bv32 {
    if edits == [] then 0
    else if edits[|edits| - 1].Frame? then edits[|edits| - 1].addr
    else LastFrame(edits[..|edits| - 1])
  }

  /** Bit 31 of any address ever set: the frame mask does not clear it. */
  function TopEver(edits: seq<Edit>): bv32 {
    if edits == [] then 0
    else if edits[|edits| - 1].Frame? then TopEver(edits[..|edits| - 1]) | TopBit(edits[|edits| - 1].addr)
    else TopEver(edits[..|edits| - 1])
  }

  /**
   The whole entry after any well-formed edits of a zero entry: the attributes are the fold of
   the adds and deletes, bits 12 to 30 are those of the last address, bit 31 is sticky.
   */
  lemma {:induction false} EntryAfterEdits(edits: seq<Edit>)
    requires forall i :: 0 <= i < |edits| ==> WellFormed(edits[i])
    ensures Flags(ApplyEdits(0, edits)) == Attributes(edits)
    ensures Pfn(ApplyEdits(0, edits)) == Pfn(LastFrame(edits))
    ensures TopBit(ApplyEdits(0, edits)) == TopEver(edits)
  {
    hide AddAttrib, DelAttrib, SetFrame, Flags, Pfn, TopBit;
    if edits == [] {
      ZeroFields();
    } else {
      var before := edits[..|edits| - 1];
      EntryAfterEdits(before);
      var e := ApplyEdits(0, before);
      match edits[|edits| - 1]
      case Add(a) => AddFields(e, a);
      case Del(a) => DelFields(e, a);
      case Frame(a) => FrameFields(e, a);
    }
  }

  lemma ZeroFields()
    ensures Flags(0) == 0 && Pfn(0) == 0 && TopBit(0) == 0
  {
  }

  /** Attributes are set and cleared as such: the given ones, and no other. */
  lemma AttribBits(e: bv32, a: bv32)
    ensures AddAttrib(e, a) & a == a && AddAttrib(e, a) & !a == e & !a
    ensures DelAttrib(e, a) & a == 0 && DelAttrib(e, a) & !a == e & !a
  {
    AddedBits(e, a);
    AddedNoOther(e, a);
    DeletedBits(e, a);
    DeletedNoOther(e, a);
  }

  lemma AddedBits(e: bv32, a: bv32)
    ensures AddAttrib(e, a) & a == a
  {
  }

  lemma AddedNoOther(e: bv32, a: bv32)
    ensures AddAttrib(e, a) & !a == e & !a
  {
  }

  lemma DeletedBits(e: bv32, a: bv32)
    ensures DelAttrib(e, a) & a == 0
  {
  }

  lemma DeletedNoOther(e: bv32, a: bv32)
    ensures DelAttrib(e, a) & !a == e & !a
  {
  }

  /** One attribute of an entry. */
  predicate IsFlag(m: bv32) {
    || m == 1 || m == 2 || m == 4 || m == 8 || m == 0x10 || m == 0x20
    || m == 0x40 || m == 0x80 || m == 0x100 || m == 0x200 || m == 0x400 || m == 0x800
  }

  predicate Has(e: bv32, m: bv32) {
    e & m != 0
  }

  /** The last edit that names the attribute, if any, adds it. */
  predicate InForce(edits: seq<Edit>, m: bv32) {
    edits != [] && (
      var last, before := edits[|edits| - 1], edits[..|edits| - 1];
      if last.Add? && Has(last.attrib, m) then true
      else if last.Del? && Has(last.attrib, m) then false
      else InForce(before, m))
  }

  lemma FlagComes(e: bv32, a: bv32, m: bv32)
    requires Has(a, m)
    ensures Has(AddAttrib(e, a), m)
  {
  }

  lemma FlagStays(e: bv32, a: bv32, m: bv32)
    requires !Has(a, m)
    ensures AddAttrib(e, a) & m == e & m
  {
  }

  lemma FlagAdded(e: bv32, a: bv32, m: bv32)
    ensures Has(AddAttrib(e, a), m) <==> Has(e, m) || Has(a, m)
  {
    hide AddAttrib;
    if Has(a, m) {
      FlagComes(e, a, m);
    } else {
      FlagStays(e, a, m);
    }
  }

  lemma FlagGone(e: bv32, a: bv32, m: bv32)
    requires IsFlag(m) && Has(a, m)
    ensures !Has(DelAttrib(e, a), m)
  {
  }

  lemma FlagSpared(e: bv32, a: bv32, m: bv32)
    requires !Has(a, m)
    ensures DelAttrib(e, a) & m == e & m
  {
  }

  lemma FlagDeleted(e: bv32, a: bv32, m: bv32)
    requires IsFlag(m)
    ensures Has(DelAttrib(e, a), m) <==> Has(e, m) && !Has(a, m)
  {
    hide IsFlag, DelAttrib;
    if Has(a, m) {
      FlagGone(e, a, m);
    } else {
      FlagSpared(e, a, m);
    }
  }

  /** An attribute is in force after any edits exactly when the last edit that names it adds it. */
  lemma {:induction false} AttributeInForce(edits: seq<Edit>, m: bv32)
    requires IsFlag(m)
    ensures Has(Attributes(edits), m) <==> InForce(edits, m)
  {
    hide AddAttrib, DelAttrib, Has, IsFlag;
    if edits == [] {
      NothingInForce(m);
    } else {
      var before := edits[..|edits| - 1];
      AttributeInForce(before, m);
      match edits[|edits| - 1]
      case Add(a) => FlagAdded(Attributes(before), a, m);
      case Del(a) => FlagDeleted(Attributes(before), a, m);
      case Frame(_) =>
    }
  }

  lemma NothingInForce(m: bv32)
    ensures !Has(0, m)
  {
  }

  // ---- entries as the page walk reads them

  /** The frame number in bits 12 to 31. */
  function FrameNumber(e: bv32): nat {
    Nat(FrameField(e))
  }

  lemma FrameNumberBound(e: bv32)
    ensures FrameNumber(e) < 0x10_0000
  {
    hide Nat, Low;
    ShiftedWithin(e);
    OnesValues();
    Pow2Values();
    NatBelow(FrameField(e), 20);
  }

  lemma ShiftedWithin(e: bv32)
    ensures Within(FrameField(e), 0xF_FFFF)
  {
  }

  lemma FrameKept(e: bv32, a: bv32)
    requires TopBit(e) == 0 || TopBit(a) != 0
    ensures FrameField(SetFrame(e, a)) == FrameField(a)
  {
  }

  lemma FrameSpoiled(e: bv32, a: bv32)
    requires TopBit(e) != 0 && TopBit(a) == 0
    ensures FrameField(SetFrame(e, a)) != FrameField(a)
  {
  }

  lemma TopOfAddress(addr: nat)
    requires addr < WORD_SPAN
    ensures TopBit(Word(addr)) == 0 <==> addr < 0x8000_0000
  {
    hide Word;
    TopOfWord(addr);
  }

  /**
   The frame written is the frame read back exactly when the old entry has no leftover bit 31
   or the new address has bit 31 itself.
   */
  lemma FrameReadBack(e: bv32, addr: nat)
    requires addr < WORD_SPAN
    ensures FrameNumber(SetFrame(e, Word(addr))) == addr / 4096 <==> TopBit(e) == 0 || addr >= 0x8000_0000
  {
    hide Nat, Word, SetFrame, FrameField, TopBit;
    WordOfFrameNumber(addr);
    NatOfWord(addr / 4096);
    TopOfAddress(addr);
    if TopBit(e) == 0 || addr >= 0x8000_0000 {
      FrameKept(e, Word(addr));
    } else {
      FrameSpoiled(e, Word(addr));
      WordOfNat(FrameField(SetFrame(e, Word(addr))));
      WordOfNat(FrameField(Word(addr)));
    }
  }

  // ---- the three edits the virtual memory manager makes

  /** A page entry that maps to `addr`. */
  function MapEntry(e: bv32, addr: nat): bv32 {
    SetFrame(AddAttrib(e, 1), Word(addr))
  }

  /** A directory entry for a new table at `addr`. */
  function TableEntry(e: bv32, addr: nat): bv32 {
    SetFrame(AddAttrib(AddAttrib(e, 1), 2), Word(addr))
  }

  function UnmapEntry(e: bv32): bv32 {
    DelAttrib(SetFrame(e, 0), 1)
  }

  lemma ZeroEntry()
    ensures !IsPresent(0) && FrameNumber(0) == 0 && TopBit(0) == 0
  {
    hide Nat, FrameField;
    FrameFieldOfZero();
    NatOfWord(0);
  }

  lemma FrameFieldOfZero()
    ensures FrameField(0) == 0
  {
  }

  lemma PresentBit(e: bv32, a: bv32)
    ensures IsPresent(AddAttrib(e, 1))
    ensures IsPresent(e) ==> IsPresent(AddAttrib(e, 2))
  {
  }

  lemma PresentKept(e: bv32, a: bv32)
    ensures IsPresent(e) ==> IsPresent(SetFrame(e, a))
  {
  }

  lemma PresentCleared(e: bv32)
    ensures !IsPresent(DelAttrib(e, 1))
  {
  }

  lemma TopOfSetFrame(e: bv32, a: bv32)
    ensures TopBit(SetFrame(e, a)) == TopBit(e) | TopBit(a)
  {
  }

  lemma OrZero(a: bv32, b: bv32)
    ensures a | b == 0 <==> a == 0 && b == 0
  {
  }

  lemma MapEntryReads(e: bv32, addr: nat)
    requires addr < WORD_SPAN
    ensures IsPresent(MapEntry(e, addr))
    ensures FrameNumber(MapEntry(e, addr)) == addr / 4096 <==> TopBit(e) == 0 || addr >= 0x8000_0000
    ensures TopBit(MapEntry(e, addr)) == 0 <==> TopBit(e) == 0 && addr < 0x8000_0000
  {
    hide IsPresent, AddAttrib, SetFrame, TopBit, FrameNumber, Word;
    PresentBit(e, 0);
    PresentKept(AddAttrib(e, 1), Word(addr));
    AddFields(e, 1) by { LowFlag(); }
    FrameReadBack(AddAttrib(e, 1), addr);
    TopOfSetFrame(AddAttrib(e, 1), Word(addr));
    TopOfAddress(addr);
    OrZero(TopBit(e), TopBit(Word(addr)));
  }

  lemma LowFlag()
    ensures (1 as bv32) & 0xFFFF_F000 == 0 && (2 as bv32) & 0xFFFF_F000 == 0
  {
  }

  lemma TableEntryReads(addr: nat)
    requires addr < WORD_SPAN
    ensures IsPresent(TableEntry(0, addr)) && FrameNumber(TableEntry(0, addr)) == addr / 4096
  {
    hide IsPresent, AddAttrib, SetFrame, TopBit, FrameNumber, Word;
    ZeroEntry();
    PresentBit(0, 0);
    PresentBit(AddAttrib(0, 1), 0);
    PresentKept(AddAttrib(AddAttrib(0, 1), 2), Word(addr));
    LowFlag();
    AddFields(0, 1);
    AddFields(AddAttrib(0, 1), 2);
    FrameReadBack(AddAttrib(AddAttrib(0, 1), 2), addr);
  }

  lemma UnmapEntryReads(e: bv32)
    ensures !IsPresent(UnmapEntry(e)) && TopBit(UnmapEntry(e)) == TopBit(e)
  {
    hide IsPresent, DelAttrib, SetFrame, TopBit;
    PresentCleared(SetFrame(e, 0));
    DelFields(SetFrame(e, 0), 1) by { LowFlag(); }
    TopOfSetFrame(e, 0);
    ZeroEntry();
    OrNothing(TopBit(e));
  }

  lemma OrNothing(a: bv32)
    ensures a | 0 == a
  {
  }
}
