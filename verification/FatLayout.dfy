/**
 A FAT12 volume laid out part by part, and what a mounted reader sees of it: the table, the root
 directory and the data sectors.
 */
module FatLayout {
  import opened Words
  import opened Fat12
  import opened FatChains
  import opened FatDirectory

  /** The parts of a volume in disk order; `copies` are the tables after the first. */
  datatype Volume = Volume(boot: Sector, reserved: seq<Sector>, table: seq<Sector>, copies: seq<Sector>,
                           root: seq<Sector>, data: seq<Sector>)

  function DiskOf(v: Volume): Disk {
    [v.boot] + v.reserved + v.table + v.copies + v.root + v.data
  }

  /** The bytes of sectors in a row. */
  function Flatten(sectors: seq<Sector>): (bytes: seq<Byte>)
    ensures |bytes| == SECTOR_SIZE * |sectors|
  {
    if sectors == [] then [] else Flatten(sectors[..|sectors| - 1]) + sectors[|sectors| - 1]
  }

  /** A two-byte field of the boot sector, low byte first. */
  predicate FieldIs(boot: Sector, offset: nat, value: nat)
    requires offset < 511
  {
    value == boot[offset] as nat + 256 * (boot[offset + 1] as nat)
  }

  /** The table sectors are those of `tables` tables of equal size. */
  predicate TablesAre(v: Volume, tables: nat) {
    tables * |v.table| == |v.table| + |v.copies|
  }

  /** The boot sector describes the volume, with `entries` root entries in as few sectors as hold them. */
  predicate Describes(v: Volume, entries: nat) {
    && FieldIs(v.boot, 11, 512)
    && FieldIs(v.boot, 14, 1 + |v.reserved|)
    && TablesAre(v, v.boot[16] as nat)
    && FieldIs(v.boot, 17, entries)
    && FieldIs(v.boot, 19, |DiskOf(v)|)
    && FieldIs(v.boot, 22, |v.table|)
    && 32 * entries <= 512 * |v.root| < 32 * entries + 512
  }

  /** Where the parts start. */
  function RootAt(v: Volume): nat {
    1 + |v.reserved| + |v.table| + |v.copies|
  }

  lemma {:induction false} ReadsPart(disk: Disk, first: nat, part: seq<Sector>)
    requires first + |part| <= |disk| && disk[first..first + |part|] == part
    ensures ReadSectors(disk, first, |part|) == Flatten(part)
    decreases |part|
  {
    if part != [] {
      var front := part[..|part| - 1];
      assert disk[first..first + |front|] == disk[first..first + |part|][..|front|];
      ReadsPart(disk, first, front);
      assert disk[first + |front|] == disk[first..first + |part|][|front|];
    }
  }

  /** The parts of the disk are found where they were put. */
  lemma PartsOfDisk(v: Volume)
    ensures var disk := DiskOf(v);
            && |disk| == RootAt(v) + |v.root| + |v.data|
            && disk[0] == v.boot
            && disk[1 + |v.reserved|..1 + |v.reserved| + |v.table|] == v.table
            && disk[RootAt(v)..RootAt(v) + |v.root|] == v.root
            && disk[RootAt(v) + |v.root|..] == v.data
  {
    var front := [v.boot] + v.reserved;
    var tables := front + v.table;
    var before := tables + v.copies;
    var disk := DiskOf(v);
    assert disk == before + v.root + v.data;
    assert disk == tables + (v.copies + v.root + v.data);
    assert disk == front + (v.table + (v.copies + v.root + v.data));
  }

  /** What fat_mount reads off the boot sector. */
  lemma MountedOffsets(v: Volume, entries: nat)
    requires Describes(v, entries)
    ensures BytesPerSector(v.boot) == 512
    ensures var mount := MountOf(v.boot);
            && mount.numSectors == |DiskOf(v)| && mount.numRootEntries == entries
            && mount.fatOffset == 1 + |v.reserved| && mount.fatSize == |v.table|
            && mount.rootOffset == RootAt(v)
            && mount.rootSize <= |v.root| && mount.dataOffset == RootAt(v) + mount.rootSize
            && (mount.rootSize == |v.root| <==> entries % 16 == 0)
  {
    hide DiskOf;
    WholeSectors(entries, |v.root|);
  }

  lemma WholeSectors(entries: nat, sectors: nat)
    requires 32 * entries <= 512 * sectors < 32 * entries + 512
    ensures RootSectors(entries, 512) <= sectors
    ensures RootSectors(entries, 512) == sectors <==> entries % 16 == 0
  {
    var q, r := entries / 16, entries % 16;
    assert entries * 32 == 512 * q + 32 * r;
    if r == 0 {
      assert sectors == q;
    } else {
      assert sectors == q + 1;
    }
  }

  /** The mounted reader loads the first table, and the root as far as its entries fill whole sectors. */
  lemma MountedAreas(v: Volume, entries: nat)
    requires Describes(v, entries)
    ensures BytesPerSector(v.boot) > 0
    ensures var mount := MountOf(v.boot);
            && LoadedFat(DiskOf(v), mount) == Flatten(v.table)
            && mount.rootSize <= |v.root|
            && LoadedRoot(DiskOf(v), mount) == Flatten(v.root[..mount.rootSize])
  {
    hide DiskOf, MountOf, Flatten, ReadSectors, Describes;
    MountedOffsets(v, entries);
    PartsOfDisk(v);
    var mount, disk := MountOf(v.boot), DiskOf(v);
    ReadsPart(disk, mount.fatOffset, v.table);
    var part := v.root[..mount.rootSize];
    assert disk[RootAt(v)..RootAt(v) + |part|] == disk[RootAt(v)..RootAt(v) + |v.root|][..|part|];
    ReadsPart(disk, mount.rootOffset, part);
  }

  /** Cluster `c` is data sector `c - 2`, counted from where the reader thinks the data starts. */
  lemma ClusterSector(v: Volume, entries: nat, c: nat)
    requires Describes(v, entries) && 2 <= c < 2 + |v.data|
    ensures BytesPerSector(v.boot) > 0
    ensures var rest := v.root + v.data; var skipped := MountOf(v.boot).rootSize;
            && skipped + c - 2 < |rest|
            && ReadSector(DiskOf(v), DataLba(MountOf(v.boot), c)) == rest[skipped + c - 2]
  {
    hide MountOf, Describes;
    MountedOffsets(v, entries);
    PartsOfDisk(v);
    DiskFits(v, entries);
    var disk, at := DiskOf(v), RootAt(v) + MountOf(v.boot).rootSize + c - 2;
    assert disk[at] == (disk[RootAt(v)..RootAt(v) + |v.root|] + disk[RootAt(v) + |v.root|..])[at - RootAt(v)];
    hide DiskOf;
  }

  lemma DiskFits(v: Volume, entries: nat)
    requires Describes(v, entries)
    ensures |DiskOf(v)| < 0x1_0000
  {
    hide DiskOf;
  }

  /**
   The whole round trip: table, root directory and every data sector are what was laid out,
   exactly when the root entries fill whole sectors.
   */
  lemma MountedVolume(v: Volume, entries: nat)
    requires Describes(v, entries)
    ensures BytesPerSector(v.boot) > 0
    ensures var mount := MountOf(v.boot);
            && LoadedFat(DiskOf(v), mount) == Flatten(v.table)
            && (entries % 16 == 0 ==>
                  && LoadedRoot(DiskOf(v), mount) == Flatten(v.root)
                  && forall c :: 2 <= c < 2 + |v.data| ==> ReadSector(DiskOf(v), DataLba(mount, c)) == v.data[c - 2])
            && (LoadedRoot(DiskOf(v), mount) == Flatten(v.root) <==> entries % 16 == 0)
  {
    hide DiskOf, MountOf, ReadSector, DataLba, LoadedFat, LoadedRoot, Describes;
    MountedOffsets(v, entries);
    MountedAreas(v, entries);
    var mount := MountOf(v.boot);
    if entries % 16 == 0 {
      assert v.root[..mount.rootSize] == v.root;
      forall c | 2 <= c < 2 + |v.data|
        ensures ReadSector(DiskOf(v), DataLba(mount, c)) == v.data[c - 2]
      {
        ClusterSector(v, entries, c);
      }
    }
  }

  /** Otherwise the first data cluster is read from the last root sector. */
  lemma MisplacedData(v: Volume, entries: nat)
    requires Describes(v, entries) && entries % 16 != 0 && |v.data| > 0
    ensures BytesPerSector(v.boot) > 0 && |v.root| > 0
    ensures ReadSector(DiskOf(v), DataLba(MountOf(v.boot), 2)) == v.root[|v.root| - 1]
  {
    hide DiskOf, MountOf, ReadSector, DataLba, Describes;
    MountedOffsets(v, entries);
    OneShort(v, entries);
    ClusterSector(v, entries, 2);
  }

  lemma OneShort(v: Volume, entries: nat)
    requires Describes(v, entries) && entries % 16 != 0 && BytesPerSector(v.boot) > 0
    ensures |v.root| > 0 && MountOf(v.boot).rootSize == |v.root| - 1
  {
    hide DiskOf;
    MountedOffsets(v, entries);
    assert RootSectors(entries, 512) == entries / 16;
    assert |v.root| == entries / 16 + 1;
  }
}
