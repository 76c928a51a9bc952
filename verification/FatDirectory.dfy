/**
 Directory entries and the scans for a name. Names are eleven bytes compared one by one, with
 no stop at a zero byte.
 */
module FatDirectory {
  import opened Fat12

  /** Entries are 32 bytes, sectors 512. */
  const NAME_LENGTH: nat := 11

  datatype FileInfo = Found(directory: bool, size: nat, cluster: nat) | Invalid

  predicate NameMatches(name: seq<Byte>, bytes: seq<Byte>, offset: nat)
    requires |name| >= NAME_LENGTH && offset + NAME_LENGTH <= |bytes|
  {
    forall k :: 0 <= k < NAME_LENGTH ==> name[k] == bytes[offset + k]
  }

  /** Entry `j` of a directory. */
  predicate EntryMatches(name: seq<Byte>, bytes: seq<Byte>, j: nat)
    requires |name| >= NAME_LENGTH && 32 * j + 32 <= |bytes|
  {
    NameMatches(name, bytes, 32 * j)
  }

  /** What the reader takes from the entry at `offset`. */
  function FileAt(bytes: seq<Byte>, offset: nat): FileInfo
    requires offset + 32 <= |bytes|
  {
    Found(bytes[offset + 11] == 0x10, U16(bytes, offset + 28) + 0x1_0000 * U16(bytes, offset + 30), U16(bytes, offset + 26))
  }

  /** The first entry from `i` on whose name matches, `n` when there is none. */
  function FirstMatch(name: seq<Byte>, bytes: seq<Byte>, i: nat, n: nat): (r: nat)
    requires |name| >= NAME_LENGTH && i <= n && 32 * n <= |bytes|
    ensures i <= r <= n
    ensures forall j :: i <= j < r ==> !EntryMatches(name, bytes, j)
    ensures r < n ==> EntryMatches(name, bytes, r)
    decreases n - i
  {
    if i == n || EntryMatches(name, bytes, i) then i else FirstMatch(name, bytes, i + 1, n)
  }

  /** The file a scan over `n` entries finds. */
  function Scan(name: seq<Byte>, bytes: seq<Byte>, n: nat): FileInfo
    requires |name| >= NAME_LENGTH && 32 * n <= |bytes|
  {
    var i := FirstMatch(name, bytes, 0, n);
    if i < n then FileAt(bytes, 32 * i) else Invalid
  }

  /** The scan as the flat search over a loaded root makes it: the offset of the entry, or none. */
  function FlatScan(name: seq<Byte>, bytes: seq<Byte>, n: nat): int
    requires |name| >= NAME_LENGTH && 32 * n <= |bytes|
  {
    var i := FirstMatch(name, bytes, 0, n);
    if i < n then 32 * i else -1
  }

  /** What the root directory holds, as loaded by fat_load_root. */
  function LoadedRoot(disk: Disk, mount: Mount): seq<Byte> {
    ReadSectors(disk, mount.rootOffset, mount.rootSize)
  }

  /** The entries the nested scan goes through: 14 sectors of 16. */
  function ScannedRoot(disk: Disk, mount: Mount): (bytes: seq<Byte>)
    ensures |bytes| == 32 * 224
  {
    ReadSectors(disk, mount.rootOffset, 14)
  }

  lemma {:induction false} FirstMatchIs(name: seq<Byte>, bytes: seq<Byte>, i: nat, r: nat, n: nat)
    requires |name| >= NAME_LENGTH && i <= r <= n && 32 * n <= |bytes|
    requires forall j :: i <= j < r ==> !EntryMatches(name, bytes, j)
    requires r < n ==> EntryMatches(name, bytes, r)
    ensures FirstMatch(name, bytes, i, n) == r
    decreases r - i
  {
    if i < r {
      FirstMatchIs(name, bytes, i + 1, r, n);
    }
  }

  /** A scan sees only the entries it goes through. */
  lemma ScanOfPrefix(name: seq<Byte>, part: seq<Byte>, bytes: seq<Byte>, n: nat)
    requires |name| >= NAME_LENGTH && part <= bytes && 32 * n <= |part|
    ensures FirstMatch(name, part, 0, n) == FirstMatch(name, bytes, 0, n)
    ensures Scan(name, part, n) == Scan(name, bytes, n)
  {
    var r := FirstMatch(name, bytes, 0, n);
    assert forall j :: 0 <= j < n ==>
        EntryMatches(name, part, j) == EntryMatches(name, bytes, j);
    FirstMatchIs(name, part, 0, r, n);
  }

  lemma {:induction false} ReadSectorsPrefix(disk: Disk, first: nat, a: nat, b: nat)
    requires a <= b
    ensures ReadSectors(disk, first, a) <= ReadSectors(disk, first, b)
  {
    if a < b {
      ReadSectorsPrefix(disk, first, a, b - 1);
    }
  }

  /**
   Scanning `n` entries and scanning `m` more come to the same exactly when the longer scan
   finds its match among the first `n` or finds none.
   */
  lemma LongerScan(name: seq<Byte>, bytes: seq<Byte>, n: nat, m: nat)
    requires |name| >= NAME_LENGTH && 32 * (n + m) <= |bytes|
    ensures Scan(name, bytes, n) == Scan(name, bytes, n + m)
            <==> FirstMatch(name, bytes, 0, n + m) < n || FirstMatch(name, bytes, 0, n + m) == n + m
  {
    var r := FirstMatch(name, bytes, 0, n + m);
    FirstMatchIs(name, bytes, 0, if r < n then r else n, n);
  }

  /** The file of a flat scan over the loaded root. */
  function FlatFile(disk: Disk, mount: Mount, name: seq<Byte>): FileInfo
    requires |name| >= NAME_LENGTH && 32 * mount.numRootEntries <= |LoadedRoot(disk, mount)|
  {
    var at := FlatScan(name, LoadedRoot(disk, mount), mount.numRootEntries);
    if at >= 0 then FileAt(LoadedRoot(disk, mount), at) else Invalid
  }

  /**
   The nested scan, which always goes through 224 entries, and the flat search over the loaded
   root find the same file exactly when the first match over the longer of the two lies within
   the shorter, or there is none. A root of 224 entries always qualifies.
   */
  lemma RootScansAgree(disk: Disk, mount: Mount, name: seq<Byte>)
    requires |name| >= NAME_LENGTH && mount.numRootEntries <= 16 * mount.rootSize
    ensures var n := mount.numRootEntries;
            var most, least := if n < 224 then 224 else n, if n < 224 then n else 224;
            var all := ReadSectors(disk, mount.rootOffset, if mount.rootSize < 14 then 14 else mount.rootSize);
            Scan(name, ScannedRoot(disk, mount), 224) == FlatFile(disk, mount, name)
            <==> FirstMatch(name, all, 0, most) < least || FirstMatch(name, all, 0, most) == most
    ensures mount.numRootEntries == 224 ==> Scan(name, ScannedRoot(disk, mount), 224) == FlatFile(disk, mount, name)
  {
    var n := mount.numRootEntries;
    var sectors := if mount.rootSize < 14 then 14 else mount.rootSize;
    var all := ReadSectors(disk, mount.rootOffset, sectors);
    ReadSectorsPrefix(disk, mount.rootOffset, 14, sectors);
    ReadSectorsPrefix(disk, mount.rootOffset, mount.rootSize, sectors);
    ScanOfPrefix(name, ScannedRoot(disk, mount), all, 224);
    ScanOfPrefix(name, LoadedRoot(disk, mount), all, n);
    hide ReadSectors, FirstMatch;
    FileOfScan(name, LoadedRoot(disk, mount), n);
    if n < 224 {
      LongerScan(name, all, n, 224 - n);
    } else {
      LongerScan(name, all, 224, n - 224);
    }
  }

  lemma FileOfScan(name: seq<Byte>, bytes: seq<Byte>, n: nat)
    requires |name| >= NAME_LENGTH && 32 * n <= |bytes|
    ensures Scan(name, bytes, n) == (if FlatScan(name, bytes, n) >= 0 then FileAt(bytes, FlatScan(name, bytes, n)) else Invalid)
  {
  }

  /** An entry read through its own sector is the entry of the whole run of sectors. */
  lemma EntryOfSector(bytes: seq<Byte>, sector: seq<Byte>, i: nat, j: nat, name: seq<Byte>)
    requires |name| >= NAME_LENGTH && j < 16 && |sector| == 512 && 512 * (i + 1) <= |bytes|
    requires bytes[512 * i..512 * (i + 1)] == sector
    ensures EntryMatches(name, sector, j) == EntryMatches(name, bytes, 16 * i + j)
    ensures FileAt(sector, 32 * j) == FileAt(bytes, 32 * (16 * i + j))
  {
    forall p | 0 <= p < 512
      ensures sector[p] == bytes[512 * i + p]
    {
      assert bytes[512 * i..512 * (i + 1)][p] == bytes[512 * i + p];
    }
    var from, at := 32 * j, 32 * (16 * i + j);
    assert at == 512 * i + from;
    if NameMatches(name, bytes, at) {
      assert forall k :: 0 <= k < NAME_LENGTH ==> name[k] == bytes[at + k];
    }
    if !NameMatches(name, bytes, at) {
      var k :| 0 <= k < NAME_LENGTH && name[k] != bytes[at + k];
      assert sector[from + k] == bytes[at + k];
    }
  }

  /** Entries `16 * i` to `16 * i + 15` of `bytes` match as the entries of `sector` do. */
  predicate MatchAlike(name: seq<Byte>, bytes: seq<Byte>, sector: seq<Byte>, i: nat)
    requires |name| >= NAME_LENGTH && |sector| == 512 && 512 * (i + 1) <= |bytes|
  {
    forall j :: 0 <= j < 16 ==> EntryMatches(name, sector, j) == EntryMatches(name, bytes, 16 * i + j)
  }

  lemma SectorMatchesAlike(name: seq<Byte>, bytes: seq<Byte>, sector: seq<Byte>, i: nat)
    requires |name| >= NAME_LENGTH && |sector| == 512 && 512 * (i + 1) <= |bytes|
    requires bytes[512 * i..512 * (i + 1)] == sector
    ensures MatchAlike(name, bytes, sector, i)
  {
    hide EntryMatches, FileAt;
    forall j | 0 <= j < 16
      ensures EntryMatches(name, sector, j) == EntryMatches(name, bytes, 16 * i + j)
    {
      EntryOfSector(bytes, sector, i, j, name);
    }
  }

  /** Scanning a run of sectors is scanning sector `i`, then the rest. */
  lemma SectorMatch(name: seq<Byte>, bytes: seq<Byte>, sector: seq<Byte>, i: nat, total: nat)
    requires |name| >= NAME_LENGTH && i < total && |bytes| == 512 * total && |sector| == 512
    requires MatchAlike(name, bytes, sector, i)
    ensures var j := FirstMatch(name, sector, 0, 16);
            FirstMatch(name, bytes, 16 * i, 16 * total) == if j < 16 then 16 * i + j else FirstMatch(name, bytes, 16 * (i + 1), 16 * total)
  {
    hide EntryMatches, FirstMatch;
    var j := FirstMatch(name, sector, 0, 16);
    var next := if j < 16 then 16 * i + j else FirstMatch(name, bytes, 16 * (i + 1), 16 * total);
    forall k | 16 * i <= k < next
      ensures !EntryMatches(name, bytes, k)
    {
      if k < 16 * i + 16 {
        assert !EntryMatches(name, sector, k - 16 * i);
      }
    }
    FirstMatchIs(name, bytes, 16 * i, next, 16 * total);
  }

  // ---- entries as they lie on disk

  /** The fields of a 32-byte entry in disk order; `other` are the times and dates. */
  datatype EntryFields = EntryFields(name: seq<Byte>, attrib: Byte, other: seq<Byte>, cluster: nat, size: nat)

  predicate IsEntry(e: EntryFields) {
    |e.name| == 11 && |e.other| == 14 && e.cluster < 0x1_0000 && e.size < 0x1_0000_0000
  }

  function Low(n: nat): Byte {
    n % 256
  }

  function EntryBytes(e: EntryFields): (bytes: seq<Byte>)
    requires IsEntry(e)
    ensures |bytes| == 32
  {
    e.name + [e.attrib] + e.other + [Low(e.cluster), Low(e.cluster / 256)]
    + [Low(e.size), Low(e.size / 256), Low(e.size / 0x1_0000), Low(e.size / 0x100_0000)]
  }

  lemma BytesOfWord(n: nat)
    ensures n < 0x1_0000 ==> Low(n) as nat + 256 * (Low(n / 256) as nat) == n
    ensures n < 0x1_0000_0000 ==>
              Low(n) as nat + 256 * (Low(n / 256) as nat) + 0x1_0000 * (Low(n / 0x1_0000) as nat + 256 * (Low(n / 0x100_0000) as nat)) == n
  {
  }

  /** The reader takes from an entry what was put there, and matches it by its eleven name bytes. */
  lemma EntryReadsBack(before: seq<Byte>, e: EntryFields, after: seq<Byte>, name: seq<Byte>)
    requires IsEntry(e) && |name| >= 11
    ensures var bytes := before + EntryBytes(e) + after;
            && FileAt(bytes, |before|) == Found(e.attrib == 0x10, e.size, e.cluster)
            && (NameMatches(name, bytes, |before|) <==> name[..11] == e.name)
  {
    var bytes, at := before + EntryBytes(e) + after, |before|;
    forall k | 0 <= k < 32
      ensures bytes[at + k] == EntryBytes(e)[k]
    {
    }
    EntryOffsets(e);
    BytesOfWord(e.cluster);
    BytesOfWord(e.size);
    hide EntryBytes, Low;
    assert bytes[at + 26] == EntryBytes(e)[26] && bytes[at + 27] == EntryBytes(e)[27];
    assert bytes[at + 28] == EntryBytes(e)[28] && bytes[at + 29] == EntryBytes(e)[29];
    assert bytes[at + 30] == EntryBytes(e)[30] && bytes[at + 31] == EntryBytes(e)[31];
    assert forall k :: 0 <= k < 11 ==> bytes[at + k] == e.name[k];
    assert name[..11] == e.name <==> forall k :: 0 <= k < 11 ==> name[k] == e.name[k];
  }

  lemma EntryOffsets(e: EntryFields)
    requires IsEntry(e)
    ensures var b := EntryBytes(e);
            && (forall k :: 0 <= k < 11 ==> b[k] == e.name[k]) && b[11] == e.attrib
            && b[26] == Low(e.cluster) && b[27] == Low(e.cluster / 256)
            && b[28] == Low(e.size) && b[29] == Low(e.size / 256) && b[30] == Low(e.size / 0x1_0000) && b[31] == Low(e.size / 0x100_0000)
  {
    hide Low;
  }
}
