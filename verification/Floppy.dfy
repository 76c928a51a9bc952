/**
 Where a sector lies on the disk: linear sector numbers, head/track/sector triples, and the
 sectors of clusters. The kernel and the bootloader compute the same by different divisions.
 */
module Floppy {
  import opened Words
  import opened Fat12
  import opened FatChains

  const SECTORS_PER_TRACK: nat := 18
  const HEADS: nat := 2

  datatype Chs = Chs(head: nat, track: nat, sector: nat)

  predicate OnDisk(p: Chs) {
    p.head < HEADS && 1 <= p.sector <= SECTORS_PER_TRACK
  }

  /** The linear number of a position: heads within tracks, sectors from one. */
  function LbaOf(p: Chs): int {
    (p.track * HEADS + p.head) * SECTORS_PER_TRACK + p.sector - 1
  }

  /** fd_lba_to_chs: the signed argument is divided as an unsigned word. */
  function LbaToChs(lba: int): (p: Chs)
    ensures OnDisk(p) && LbaOf(p) == Wrap(lba)
  {
    var word := Wrap(lba);
    Chs((word % (SECTORS_PER_TRACK * 2)) / SECTORS_PER_TRACK, word / (SECTORS_PER_TRACK * 2), word % SECTORS_PER_TRACK + 1)
  }

  /** Positions on the disk and linear numbers correspond one to one. */
  lemma PositionsAreNumbers(p: Chs, lba: nat)
    requires OnDisk(p) && lba < WORD_SPAN
    ensures p == LbaToChs(lba) <==> LbaOf(p) == lba
  {
    var q := LbaToChs(lba);
    if LbaOf(p) == lba {
      assert p.track * HEADS + p.head == q.track * HEADS + q.head;
    }
  }

  /** The bootloader: two divisions in turn, results kept in bytes. */
  function BootChs(lba: nat): Chs
    requires lba < 0x1_0000
  {
    var quotient, remainder := lba / SECTORS_PER_TRACK, lba % SECTORS_PER_TRACK;
    Chs(quotient % HEADS % 256, quotient / HEADS % 256, (remainder + 1) % 256)
  }

  /** Both agree exactly as long as the track number fits in a byte. */
  lemma BootAgrees(lba: nat)
    requires lba < 0x1_0000
    ensures BootChs(lba) == LbaToChs(lba) <==> lba < 36 * 256
  {
    assert lba / 36 == lba / 18 / 2;
    assert lba % 36 / 18 == lba / 18 % 2;
  }

  /** What reaches the controller: the parameters of fd_read_sector_impl are bytes. */
  function Addressed(lba: int): Chs {
    var p := LbaToChs(lba);
    Chs(p.head % 256, p.track % 256, p.sector % 256)
  }

  lemma TrackOfSum(n: nat)
    ensures n / 36 % 256 == n % 9216 / 36 && n % 36 == n % 9216 % 36
  {
    var track, rest := n / 36, n % 36;
    var q, t := track / 256, track % 256;
    assert n == 9216 * q + (36 * t + rest) && 0 <= 36 * t + rest < 9216;
    assert n % 9216 == 36 * t + rest;
  }

  /** Two sector numbers address one sector exactly when they differ by whole runs of 256 tracks. */
  lemma AddressedOnce(a: nat, b: nat)
    requires a < WORD_SPAN && b < WORD_SPAN
    ensures Addressed(a) == Addressed(b) <==> a % 9216 == b % 9216
  {
    TrackOfSum(a);
    TrackOfSum(b);
    AddressedParts(a);
    AddressedParts(b);
  }

  lemma AddressedParts(n: nat)
    requires n < WORD_SPAN
    ensures var p := Addressed(n);
            p.track == n / 36 % 256 && p.head < 2 && p.sector >= 1 && p.head * 18 + p.sector - 1 == n % 36 && p.sector <= 18
  {
  }

  // ---- clusters

  lemma MountFits(boot: Sector)
    requires BytesPerSector(boot) > 0
    ensures MountOf(boot).dataOffset <= 255 * 65535 + 65535 + 65535 * 32
  {
    var copies, perFat := boot[16] as nat, U16(boot, 22);
    assert FatSectors(copies, perFat) <= 255 * 65535;
    assert RootSectors(U16(boot, 17), BytesPerSector(boot)) <= 65535 * 32;
  }

  /** A cluster lies in the data area, past the reserved, table and root sectors, exactly from 2 on. */
  lemma ClusterInDataArea(boot: Sector, cluster: nat)
    requires BytesPerSector(boot) > 0 && MountOf(boot).dataOffset >= 2 && cluster < 0x1_0000
    ensures var mount := MountOf(boot); mount.dataOffset <= DataLba(mount, cluster) <==> cluster >= 2
    ensures DataLba(MountOf(boot), cluster) == MountOf(boot).dataOffset + cluster - 2
  {
    hide MountOf;
    MountFits(boot);
  }

  /** Clusters from 2 on are on sectors of their own, none of them in front of the data area. */
  lemma ClustersApart(boot: Sector, c: nat, d: nat, front: nat)
    requires BytesPerSector(boot) > 0 && MountOf(boot).dataOffset >= 2
    requires 2 <= c < 0x1_0000 && 2 <= d < 0x1_0000 && c != d && front < MountOf(boot).dataOffset
    ensures var mount := MountOf(boot);
            && LbaToChs(DataLba(mount, c)) != LbaToChs(DataLba(mount, d))
            && LbaToChs(DataLba(mount, c)) != LbaToChs(front)
  {
    hide MountOf, LbaToChs, LbaOf, DataLba;
    MountFits(boot);
    ClusterInDataArea(boot, c);
    ClusterInDataArea(boot, d);
  }

  /** The bootloader's sector of a cluster, in 16-bit arithmetic; a cluster is one sector. */
  function BootLba(dataSector: nat, cluster: nat): nat
    requires dataSector < 0x1_0000 && cluster < 0x1_0000
  {
    ((cluster - 2) % 0x1_0000 + dataSector) % 0x1_0000
  }

  /** It is the kernel's exactly when the kernel's fits in 16 bits. */
  lemma BootLbaAgrees(mount: Mount, cluster: nat)
    requires mount.dataOffset < 0x1_0000 && cluster < 0x1_0000
    ensures BootLba(mount.dataOffset, cluster) == DataLba(mount, cluster) <==> DataLba(mount, cluster) < 0x1_0000
  {
  }
}
