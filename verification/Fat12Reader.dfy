/**
 The FAT12 reader as the kernel runs it: buffers filled in place, chains followed in loops, a
 file handle that moves along its chain.
 */
module Fat12Readers {
  import opened Fat12
  import opened FatChains
  import opened FatDirectory

  /** memcpy of `src` to `dst` at `at`. */
  method CopyBytes(dst: array<Byte>, at: nat, src: seq<Byte>)
    requires at + |src| <= dst.Length
    modifies dst
    ensures dst[..] == old(dst[..at]) + src + old(dst[at + |src|..])
  {
    for i := 0 to |src|
      invariant forall k :: 0 <= k < at ==> dst[k] == old(dst[k])
      invariant forall k :: at + i <= k < dst.Length ==> dst[k] == old(dst[k])
      invariant dst[at..at + i] == src[..i]
    {
      dst[at + i] := src[i];
      assert dst[at..at + i + 1] == dst[at..at + i] + [src[i]];
    }
    assert dst[..] == dst[..at] + dst[at..at + |src|] + dst[at + |src|..];
    assert dst[..at] == old(dst[..at]) && dst[at + |src|..] == old(dst[at + |src|..]);
  }

  /** strncmp: the difference at the first mismatch among `len` bytes, with no stop at a zero byte. */
  method StrNCmp(a: seq<Byte>, b: seq<Byte>, at: nat, len: nat) returns (r: int)
    requires len <= |a| && at + len <= |b|
    ensures r == 0 <==> forall k :: 0 <= k < len ==> a[k] == b[at + k]
    ensures r != 0 ==> exists k :: 0 <= k < len && r == a[k] as int - b[at + k] as int && forall j :: 0 <= j < k ==> a[j] == b[at + j]
  {
    var i := 0;
    while i < len && a[i] == b[at + i]
      invariant i <= len && forall k :: 0 <= k < i ==> a[k] == b[at + k]
    {
      i := i + 1;
    }
    if i == len {
      return 0;
    }
    return a[i] as int - b[at + i] as int;
  }

  /** The fields of a FILE that reading moves. */
  class OpenFile {
    var currentCluster: nat
    var end: bool

    constructor (cluster: nat, end: bool)
      ensures currentCluster == cluster && this.end == end
    {
      currentCluster := cluster;
      this.end := end;
    }
  }

  class Reader {
    const disk: Disk
    var mountInfo: Mount
    /** Two sectors of the table. */
    const window: array<Byte>

    constructor (disk: Disk, window: array<Byte>)
      requires window.Length == 2 * SECTOR_SIZE
      requires BytesPerSector(ReadSector(disk, 0)) > 0
      ensures this.disk == disk && this.window == window && mountInfo == MountOf(ReadSector(disk, 0))
    {
      this.disk := disk;
      this.window := window;
      mountInfo := MountOf(ReadSector(disk, 0));
    }

    /** fat_load_FAT and fat_load_root: `n` sectors into a buffer. */
    method LoadSectors(buffer: array<Byte>, first: nat, n: nat)
      requires SECTOR_SIZE * n <= buffer.Length
      modifies buffer
      ensures buffer[..SECTOR_SIZE * n] == ReadSectors(disk, first, n)
      ensures buffer[SECTOR_SIZE * n..] == old(buffer[SECTOR_SIZE * n..])
    {
      for i := 0 to n
        invariant buffer[..SECTOR_SIZE * i] == ReadSectors(disk, first, i)
        invariant buffer[SECTOR_SIZE * n..] == old(buffer[SECTOR_SIZE * n..])
      {
        hide ReadSector;
        var sector := ReadSector(disk, first + i);
        ghost var before, rest := buffer[..], old(buffer[SECTOR_SIZE * n..]);
        CopyBytes(buffer, SECTOR_SIZE * i, sector);
        assert buffer[..SECTOR_SIZE * (i + 1)] == before[..SECTOR_SIZE * i] + sector;
        assert buffer[SECTOR_SIZE * n..] == before[SECTOR_SIZE * n..];
      }
    }

    method LoadFat(buffer: array<Byte>)
      requires SECTOR_SIZE * mountInfo.fatSize <= buffer.Length
      modifies buffer
      ensures buffer[..SECTOR_SIZE * mountInfo.fatSize] == LoadedFat(disk, mountInfo)
    {
      LoadSectors(buffer, mountInfo.fatOffset, mountInfo.fatSize);
    }

    method LoadRoot(buffer: array<Byte>)
      requires SECTOR_SIZE * mountInfo.rootSize <= buffer.Length
      modifies buffer
      ensures buffer[..SECTOR_SIZE * mountInfo.rootSize] == LoadedRoot(disk, mountInfo)
    {
      LoadSectors(buffer, mountInfo.rootOffset, mountInfo.rootSize);
    }

    /** fat_find_image: the offset of the entry, -1 for a null result. */
    method FindImage(name: seq<Byte>, buffer: array<Byte>) returns (at: int)
      requires |name| >= NAME_LENGTH && 32 * mountInfo.numRootEntries <= buffer.Length
      ensures at == FlatScan(name, buffer[..], mountInfo.numRootEntries)
    {
      var n := mountInfo.numRootEntries;
      for i := 0 to n
        invariant FirstMatch(name, buffer[..], 0, n) == FirstMatch(name, buffer[..], i, n)
      {
        var order := StrNCmp(name, buffer[..], 32 * i, NAME_LENGTH);
        if order == 0 {
          return 32 * i;
        }
      }
      return -1;
    }

    /** fat_load_image: the number of sectors copied to `buffer`. */
    method LoadImage(buffer: array<Byte>, fatBuffer: array<Byte>, start: nat, ghost clusters: seq<nat>) returns (sectorCount: nat)
      requires Loads(fatBuffer[..], start, clusters)
      requires buffer != fatBuffer && SECTOR_SIZE * |clusters| <= buffer.Length
      modifies buffer
      ensures sectorCount == |clusters|
      ensures buffer[..SECTOR_SIZE * |clusters|] == Contents(disk, mountInfo, clusters)
    {
      var cluster: nat := start;
      sectorCount := 0;
      ghost var fat := fatBuffer[..];
      while cluster < BULK_END
        invariant fatBuffer[..] == fat && sectorCount <= |clusters|
        invariant Loads(fat, cluster, clusters[sectorCount..])
        invariant buffer[..SECTOR_SIZE * sectorCount] == Contents(disk, mountInfo, clusters[..sectorCount])
        decreases |clusters| - sectorCount
      {
        hide ReadSector, DataLba;
        var sector := ReadSector(disk, DataLba(mountInfo, cluster));
        ghost var before := buffer[..];
        CopyBytes(buffer, SECTOR_SIZE * sectorCount, sector);
        assert buffer[..SECTOR_SIZE * (sectorCount + 1)] == before[..SECTOR_SIZE * sectorCount] + sector;
        assert clusters[..sectorCount + 1][..sectorCount] == clusters[..sectorCount];
        sectorCount := sectorCount + 1;
        var fatEntry := U16(fatBuffer[..], FatOffset(cluster));
        if cluster % 2 == 0 {
          fatEntry := fatEntry % 0x1000;
        } else {
          fatEntry := fatEntry / 16;
        }
        cluster := fatEntry;
      }
      assert clusters[..|clusters|] == clusters;
    }

    /** fat_read_file: one sector of the file into `buffer`, then one step along the chain. */
    method ReadFile(file: OpenFile, buffer: array<Byte>)
      requires buffer.Length >= SECTOR_SIZE && buffer != window && window.Length == 2 * SECTOR_SIZE
      modifies file, buffer, window
      ensures buffer[..SECTOR_SIZE] == ReadSector(disk, DataLba(mountInfo, old(file.currentCluster)))
      ensures var link := WindowNext(disk, old(file.currentCluster));
              if EndsFile(link) then file.end && file.currentCluster == old(file.currentCluster)
              else file.end == old(file.end) && file.currentCluster == link
    {
      hide ReadSector, DataLba;
      var curCluster := file.currentCluster;
      var sector := ReadSector(disk, DataLba(mountInfo, curCluster));
      CopyBytes(buffer, 0, sector);
      assert buffer[..SECTOR_SIZE] == sector;
      var fatSector := FatOffset(curCluster) / SECTOR_SIZE + 1;
      var fatEntryOffset := FatOffset(curCluster) % SECTOR_SIZE;
      CopyBytes(window, 0, ReadSector(disk, fatSector));
      CopyBytes(window, SECTOR_SIZE, ReadSector(disk, fatSector + 1));
      assert window[..] == ReadSector(disk, fatSector) + ReadSector(disk, fatSector + 1);
      var nextCluster := U16(window[..], fatEntryOffset);
      if curCluster % 2 == 0 {
        nextCluster := nextCluster % 0x1000;
      } else {
        nextCluster := nextCluster / 16;
      }
      if nextCluster >= FILE_END {
        file.end := true;
        return;
      }
      if nextCluster == 0 {
        file.end := true;
        return;
      }
      file.currentCluster := nextCluster;
    }

    /** Calls of fat_read_file until the end mark, as the reader of a file makes them. */
    method ReadAll(file: OpenFile, buffer: array<Byte>, ghost clusters: seq<nat>) returns (bytes: seq<Byte>)
      requires buffer.Length >= SECTOR_SIZE && buffer != window && window.Length == 2 * SECTOR_SIZE
      requires !file.end && WindowReads(disk, file.currentCluster, clusters)
      modifies file, buffer, window
      ensures file.end && bytes == Contents(disk, mountInfo, clusters)
    {
      hide ReadSector, DataLba, WindowNext;
      ghost var i := 0;
      bytes := [];
      while !file.end
        invariant i <= |clusters| && bytes == Contents(disk, mountInfo, clusters[..i])
        invariant if file.end then i == |clusters| else WindowReads(disk, file.currentCluster, clusters[i..])
        decreases |clusters| - i, !file.end
      {
        ReadFile(file, buffer);
        bytes := bytes + buffer[..SECTOR_SIZE];
        assert clusters[..i + 1][..i] == clusters[..i];
        i := i + 1;
      }
      assert clusters[..|clusters|] == clusters;
    }

    /** The inner loop of both directory scans: the first matching entry of a sector, 16 if none. */
    method FindInSector(name: seq<Byte>, sector: seq<Byte>) returns (j: nat)
      requires |name| >= NAME_LENGTH && |sector| == SECTOR_SIZE
      ensures j == FirstMatch(name, sector, 0, 16)
    {
      j := 0;
      while j < 16
        invariant j <= 16 && FirstMatch(name, sector, 0, 16) == FirstMatch(name, sector, j, 16)
      {
        var order := StrNCmp(name, sector, 32 * j, NAME_LENGTH);
        if order == 0 {
          return;
        }
        j := j + 1;
      }
    }

    /** fat_parse_rootdir: 14 sectors of 16 entries each. */
    method ParseRootdir(name: seq<Byte>) returns (file: FileInfo)
      requires |name| >= NAME_LENGTH
      ensures file == Scan(name, ScannedRoot(disk, mountInfo), 224)
    {
      hide ReadSector, ReadSectors, FirstMatch, FileAt, EntryMatches, MatchAlike;
      ghost var all := ScannedRoot(disk, mountInfo);
      for i := 0 to 14
        invariant FirstMatch(name, all, 0, 224) == FirstMatch(name, all, 16 * i, 224)
      {
        var dir := ReadSector(disk, mountInfo.rootOffset + i);
        ReadSectorsAt(disk, mountInfo.rootOffset, 14, i);
        SectorMatchesAlike(name, all, dir, i);
        SectorMatch(name, all, dir, i, 14);
        var j := FindInSector(name, dir);
        if j < 16 {
          EntryOfSector(all, dir, i, j, name);
          return FileAt(dir, 32 * j);
        }
      }
      return Invalid;
    }

    /**
     fat_parse_subdir, on its own copy of the directory's handle: the directory's chain ends, or
     the name is found on the way.
     */
    method ParseSubdir(cluster: nat, name: seq<Byte>, ghost clusters: seq<nat>) returns (file: FileInfo)
      requires |name| >= NAME_LENGTH && window.Length == 2 * SECTOR_SIZE
      requires WindowPath(disk, cluster, clusters)
      requires WindowReads(disk, cluster, clusters) || FirstMatch(name, Contents(disk, mountInfo, clusters), 0, 16 * |clusters|) < 16 * |clusters|
      modifies window
      ensures file == Scan(name, Contents(disk, mountInfo, clusters), 16 * |clusters|)
    {
      hide ReadSector, DataLba, WindowNext, FirstMatch, FileAt, Contents, EntryMatches, MatchAlike;
      ghost var all, total := Contents(disk, mountInfo, clusters), |clusters|;
      var kfile := new OpenFile(cluster, false);
      ghost var i := 0;
      while !kfile.end
        invariant i <= total && fresh(kfile)
        invariant FirstMatch(name, all, 0, 16 * total) == FirstMatch(name, all, 16 * i, 16 * total)
        invariant if kfile.end then i == total else WindowPath(disk, kfile.currentCluster, clusters[i..])
        invariant kfile.end || WindowReads(disk, kfile.currentCluster, clusters[i..]) || FirstMatch(name, all, 16 * i, 16 * total) < 16 * total
        decreases total - i, !kfile.end
      {
        var buffer := new Byte[SECTOR_SIZE];
        ContentsAt(disk, mountInfo, clusters, i);
        ReadFile(kfile, buffer);
        SectorMatchesAlike(name, all, buffer[..SECTOR_SIZE], i);
        SectorMatch(name, all, buffer[..SECTOR_SIZE], i, total);
        var j := FindInSector(name, buffer[..SECTOR_SIZE]);
        if j < 16 {
          EntryOfSector(all, buffer[..SECTOR_SIZE], i, j, name);
          return FileAt(buffer[..SECTOR_SIZE], 32 * j);
        }
        i := i + 1;
        if i == total {
          ScanEnds(name, all, 16 * total);
        }
      }
      ScanEnds(name, all, 16 * total);
      return Invalid;
    }
  }

  lemma ScanEnds(name: seq<Byte>, bytes: seq<Byte>, n: nat)
    requires |name| >= NAME_LENGTH && 32 * n <= |bytes|
    ensures FirstMatch(name, bytes, n, n) == n
  {
  }
}
