/**
 The FAT12 reader as values: a disk of 512-byte sectors, the 12-bit packed table, the two ways
 of following a cluster chain and the directory scans.
 */
module Fat12 {
  const SECTOR_SIZE: nat := 512

  type Byte = b: int | 0 <= b < 256

  type Sector = s: seq<Byte> | |s| == SECTOR_SIZE witness seq(SECTOR_SIZE, _ => 0)

  type Disk = seq<Sector>

  /** Reading a sector is a total lookup; past the end of the disk it reads zeros. */
  function ReadSector(disk: Disk, lba: nat): Sector {
    if lba < |disk| then disk[lba] else seq(SECTOR_SIZE, _ => 0)
  }

  /** `n` sectors from `first`, one after the other. */
  function ReadSectors(disk: Disk, first: nat, n: nat): (bytes: seq<Byte>)
    ensures |bytes| == SECTOR_SIZE * n
  {
    if n == 0 then [] else ReadSectors(disk, first, n - 1) + ReadSector(disk, first + n - 1)
  }

  /** One byte of a run of sectors. */
  lemma {:induction false} ReadSectorsByte(disk: Disk, first: nat, n: nat, k: nat)
    requires k < SECTOR_SIZE * n
    ensures ReadSectors(disk, first, n)[k] == ReadSector(disk, first + k / SECTOR_SIZE)[k % SECTOR_SIZE]
  {
    hide ReadSector;
    if k < SECTOR_SIZE * (n - 1) {
      ReadSectorsByte(disk, first, n - 1, k);
    } else {
      assert k / SECTOR_SIZE == n - 1;
    }
  }

  lemma ReadSectorsAt(disk: Disk, first: nat, n: nat, i: nat)
    requires i < n
    ensures ReadSectors(disk, first, n)[SECTOR_SIZE * i..SECTOR_SIZE * i + SECTOR_SIZE] == ReadSector(disk, first + i)
  {
    hide ReadSector, ReadSectors;
    var part := ReadSectors(disk, first, n)[SECTOR_SIZE * i..SECTOR_SIZE * i + SECTOR_SIZE];
    forall k | 0 <= k < SECTOR_SIZE
      ensures part[k] == ReadSector(disk, first + i)[k]
    {
      ReadSectorsByte(disk, first, n, SECTOR_SIZE * i + k);
    }
  }

  function U16(bytes: seq<Byte>, offset: nat): (w: nat)
    requires offset + 1 < |bytes|
    ensures w < 0x1_0000
  {
    bytes[offset] as nat + 256 * (bytes[offset + 1] as nat)
  }

  // ---- mounting

  datatype Mount = Mount(numSectors: nat, fatOffset: nat, fatSize: nat, numRootEntries: nat,
                         rootOffset: nat, rootSize: nat, dataOffset: nat)

  /** Field offsets of the boot sector. */
  function BytesPerSector(boot: Sector): nat {
    U16(boot, 11)
  }

  /** The sectors of all copies of the table. */
  function FatSectors(copies: nat, perFat: nat): nat {
    copies * perFat
  }

  /** The whole sectors filled by the root entries. */
  function RootSectors(entries: nat, perSector: nat): nat
    requires perSector > 0
  {
    entries * 32 / perSector
  }

  /** fat_mount */
  function MountOf(boot: Sector): Mount
    requires BytesPerSector(boot) > 0
  {
    var reserved, perFat, rootEntries := U16(boot, 14), U16(boot, 22), U16(boot, 17);
    var rootOffset := FatSectors(boot[16] as nat, perFat) + reserved;
    var rootSize := RootSectors(rootEntries, BytesPerSector(boot));
    Mount(U16(boot, 19), reserved, perFat, rootEntries, rootOffset, rootSize, rootOffset + rootSize)
  }

  // ---- table entries

  function FatOffset(cluster: nat): nat {
    cluster / 2 + cluster
  }

  /** The even entry is the low 12 bits of its 16-bit word, the odd one the high 12. */
  function Entry(word: nat, cluster: nat): (e: nat)
    requires word < 0x1_0000
    ensures e < 0x1000
  {
    if cluster % 2 == 0 then word % 0x1000 else word / 16
  }

  predicate InRange(fat: seq<Byte>, cluster: nat) {
    FatOffset(cluster) + 1 < |fat|
  }

  /** Lookup in the whole loaded table. */
  function Next(fat: seq<Byte>, cluster: nat): (e: nat)
    requires InRange(fat, cluster)
    ensures e < 0x1000
  {
    Entry(U16(fat, FatOffset(cluster)), cluster)
  }

  /** Lookup through two sectors of the table, which the reader takes to start at sector 1. */
  function WindowNext(disk: Disk, cluster: nat): (e: nat)
    ensures e < 0x1000
  {
    var sector := FatOffset(cluster) / SECTOR_SIZE + 1;
    var window := ReadSector(disk, sector) + ReadSector(disk, sector + 1);
    Entry(U16(window, FatOffset(cluster) % SECTOR_SIZE), cluster)
  }

  /** fat_load_FAT */
  function LoadedFat(disk: Disk, mount: Mount): seq<Byte> {
    ReadSectors(disk, mount.fatOffset, mount.fatSize)
  }

  lemma WindowByte(disk: Disk, sector: nat, k: nat)
    requires k <= SECTOR_SIZE
    ensures (ReadSector(disk, sector) + ReadSector(disk, sector + 1))[k] == ReadSector(disk, sector + k / SECTOR_SIZE)[k % SECTOR_SIZE]
  {
  }

  lemma NextByte(offset: nat)
    ensures offset / 512 + (offset % 512 + 1) / 512 == (offset + 1) / 512 && (offset % 512 + 1) % 512 == (offset + 1) % 512
  {
  }

  /** With one reserved sector the window decodes every entry of the loaded table, straddling ones too. */
  lemma WindowIsWholeTable(disk: Disk, mount: Mount, cluster: nat)
    requires mount.fatOffset == 1 && InRange(LoadedFat(disk, mount), cluster)
    ensures WindowNext(disk, cluster) == Next(LoadedFat(disk, mount), cluster)
  {
    hide ReadSector, ReadSectors, FatOffset;
    var offset := FatOffset(cluster);
    var sector := offset / SECTOR_SIZE + 1;
    NextByte(offset);
    ReadSectorsByte(disk, 1, mount.fatSize, offset);
    ReadSectorsByte(disk, 1, mount.fatSize, offset + 1);
    WindowByte(disk, sector, offset % SECTOR_SIZE);
    WindowByte(disk, sector, offset % SECTOR_SIZE + 1);
  }

  ghost predicate WindowAlwaysWhole(mount: Mount) {
    forall disk: Disk, cluster: nat :: InRange(LoadedFat(disk, mount), cluster) ==> WindowNext(disk, cluster) == Next(LoadedFat(disk, mount), cluster)
  }

  /** For other layouts it does not: the two lookups agree on every disk exactly when one sector is reserved. */
  lemma WindowNeedsOneReserved(mount: Mount)
    requires mount.fatSize > 0
    ensures WindowAlwaysWhole(mount) <==> mount.fatOffset == 1
  {
    if mount.fatOffset == 1 {
      forall disk: Disk, cluster: nat | InRange(LoadedFat(disk, mount), cluster)
        ensures WindowNext(disk, cluster) == Next(LoadedFat(disk, mount), cluster)
      {
        WindowIsWholeTable(disk, mount, cluster);
      }
    } else {
      var zeros: Sector := seq(SECTOR_SIZE, _ => 0);
      var ones: Sector := seq(SECTOR_SIZE, _ => 1);
      var disk: Disk := [zeros, ones];
      ReadSectorsByte(disk, mount.fatOffset, mount.fatSize, 0);
      ReadSectorsByte(disk, mount.fatOffset, mount.fatSize, 1);
      assert InRange(LoadedFat(disk, mount), 0);
      assert WindowNext(disk, 0) == 257;
      assert Next(LoadedFat(disk, mount), 0) == 0;
    }
  }

  // ---- packing

  type Value = v: int | 0 <= v < 0x1000

  function ValueAt(values: seq<Value>, i: nat): Value {
    if i < |values| then values[i] else 0
  }

  /** Two 12-bit values in three bytes. */
  function PackedByte(a: Value, b: Value, k: nat): Byte {
    if k == 0 then a % 256 else if k == 1 then a as int / 256 + 16 * (b as int % 16) else b as int / 16
  }

  function Pack(values: seq<Value>): (bytes: seq<Byte>)
    ensures |bytes| == (|values| + 1) / 2 * 3
  {
    seq((|values| + 1) / 2 * 3, k requires 0 <= k => PackedByte(ValueAt(values, 2 * (k / 3)), ValueAt(values, 2 * (k / 3) + 1), k % 3))
  }

  lemma UnpackPair(a: Value, b: Value)
    ensures (PackedByte(a, b, 0) as int + 256 * (PackedByte(a, b, 1) as int)) % 0x1000 == a as int
    ensures (PackedByte(a, b, 1) as int + 256 * (PackedByte(a, b, 2) as int)) / 16 == b as int
  {
  }

  lemma PackAt(values: seq<Value>, p: nat, r: nat)
    requires r < 3 && 3 * p + r < (|values| + 1) / 2 * 3
    ensures Pack(values)[3 * p + r] == PackedByte(ValueAt(values, 2 * p), ValueAt(values, 2 * p + 1), r)
  {
    assert (3 * p + r) / 3 == p && (3 * p + r) % 3 == r;
  }

  /** The lookup recovers every value of a packed table. */
  lemma UnpackPacked(values: seq<Value>, cluster: nat)
    requires cluster < |values|
    ensures InRange(Pack(values), cluster) && Next(Pack(values), cluster) == values[cluster] as nat
  {
    hide Pack, PackedByte;
    var p, r := cluster / 2, cluster % 2;
    assert FatOffset(cluster) == 3 * p + r;
    PackAt(values, p, r);
    PackAt(values, p, r + 1);
    UnpackPair(ValueAt(values, 2 * p), ValueAt(values, 2 * p + 1));
  }
}
