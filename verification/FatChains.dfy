/**
 The two ways the reader follows a cluster chain: fat_load_image in bulk, over a loaded table,
 and fat_read_file one cluster a call. When they end, and when they read the same clusters.
 */
module FatChains {
  import opened Words
  import opened Fat12

  /** The bulk loader stops at the first link from here up. */
  const BULK_END: nat := 0xFF0

  /** The file reader stops at the first link from here up, or at link 0. */
  const FILE_END: nat := 0xFF8

  /** The clusters fat_load_image reads, in order, starting from `c`. */
  predicate Loads(fat: seq<Byte>, c: nat, clusters: seq<nat>)
    decreases |clusters|
  {
    if c >= BULK_END then clusters == []
    else clusters != [] && clusters[0] == c && InRange(fat, c) && Loads(fat, Next(fat, c), clusters[1..])
  }

  predicate EndsFile(link: nat) {
    link >= FILE_END || link == 0
  }

  /** The clusters repeated calls of fat_read_file read until `end`, starting from `c`. */
  predicate Reads(fat: seq<Byte>, c: nat, clusters: seq<nat>)
    decreases |clusters|
  {
    && clusters != [] && clusters[0] == c && InRange(fat, c)
    && (if EndsFile(Next(fat, c)) then |clusters| == 1 else Reads(fat, Next(fat, c), clusters[1..]))
  }

  lemma {:induction false} LoadsUnique(fat: seq<Byte>, c: nat, s: seq<nat>, t: seq<nat>)
    requires Loads(fat, c, s) && Loads(fat, c, t)
    ensures s == t
    decreases |s|
  {
    if s != [] {
      LoadsUnique(fat, Next(fat, c), s[1..], t[1..]);
      assert s == [s[0]] + s[1..] && t == [t[0]] + t[1..];
    }
  }

  lemma {:induction false} ReadsUnique(fat: seq<Byte>, c: nat, s: seq<nat>, t: seq<nat>)
    requires Reads(fat, c, s) && Reads(fat, c, t)
    ensures s == t
    decreases |s|
  {
    if !EndsFile(Next(fat, c)) {
      ReadsUnique(fat, Next(fat, c), s[1..], t[1..]);
    }
    assert s == [s[0]] + s[1..] && t == [t[0]] + t[1..];
  }

  // ---- termination

  datatype Chain = Ends(clusters: seq<nat>) | Stuck

  /**
   Following a chain with the set of clusters not yet visited as measure: it ends, or it comes
   back to a visited cluster or leaves the loaded table.
   */
  function Follow(fat: seq<Byte>, c: nat, unvisited: set<nat>): Chain
    decreases unvisited
  {
    if c >= BULK_END then Ends([])
    else if c !in unvisited || !InRange(fat, c) then Stuck
    else match Follow(fat, Next(fat, c), unvisited - {c})
         case Ends(rest) => Ends([c] + rest)
         case Stuck => Stuck
  }

  function ClustersBelow(n: nat): (s: set<nat>)
    ensures forall c: nat :: c in s <==> c < n
  {
    if n == 0 then {} else ClustersBelow(n - 1) + {n - 1}
  }

  lemma {:induction false} FollowLoads(fat: seq<Byte>, c: nat, unvisited: set<nat>)
    ensures Follow(fat, c, unvisited).Ends? ==> Loads(fat, c, Follow(fat, c, unvisited).clusters)
    decreases unvisited
  {
    if c < BULK_END && c in unvisited && InRange(fat, c) {
      FollowLoads(fat, Next(fat, c), unvisited - {c});
      var rest := Follow(fat, Next(fat, c), unvisited - {c});
      if rest.Ends? {
        assert ([c] + rest.clusters)[1..] == rest.clusters;
      }
    }
  }

  /** A cluster that ends after fewer links is a different cluster. */
  lemma {:induction false} LoadsFollow(fat: seq<Byte>, c: nat, clusters: seq<nat>, unvisited: set<nat>)
    requires Loads(fat, c, clusters)
    requires forall d: nat, t: seq<nat> :: d < BULK_END && Loads(fat, d, t) && |t| <= |clusters| ==> d in unvisited
    ensures Follow(fat, c, unvisited) == Ends(clusters)
    decreases |clusters|
  {
    if clusters != [] {
      assert c in unvisited;
      forall d: nat, t: seq<nat> | d < BULK_END && Loads(fat, d, t) && |t| <= |clusters[1..]|
        ensures d in unvisited - {c}
      {
        if d == c {
          LoadsUnique(fat, c, clusters, t);
        }
      }
      LoadsFollow(fat, Next(fat, c), clusters[1..], unvisited - {c});
      assert clusters == [c] + clusters[1..];
    }
  }

  /** Some finite sequence of clusters is what the bulk loader reads. */
  ghost predicate BulkEnds(fat: seq<Byte>, c: nat) {
    exists clusters: seq<nat> :: Loads(fat, c, clusters)
  }

  /** The bulk loader ends exactly when the chain ends inside the loaded table before any cluster comes back. */
  lemma FollowDecides(fat: seq<Byte>, c: nat)
    ensures Follow(fat, c, ClustersBelow(BULK_END)).Ends? <==> BulkEnds(fat, c)
  {
    FollowLoads(fat, c, ClustersBelow(BULK_END));
    if BulkEnds(fat, c) {
      var clusters: seq<nat> :| Loads(fat, c, clusters);
      LoadsFollow(fat, c, clusters, ClustersBelow(BULK_END));
    }
  }

  /** The same for calls of fat_read_file. */
  function FollowFile(fat: seq<Byte>, c: nat, unvisited: set<nat>): Chain
    decreases unvisited
  {
    if c !in unvisited || !InRange(fat, c) then Stuck
    else if EndsFile(Next(fat, c)) then Ends([c])
    else match FollowFile(fat, Next(fat, c), unvisited - {c})
         case Ends(rest) => Ends([c] + rest)
         case Stuck => Stuck
  }

  lemma {:induction false} FollowFileReads(fat: seq<Byte>, c: nat, unvisited: set<nat>)
    ensures FollowFile(fat, c, unvisited).Ends? ==> Reads(fat, c, FollowFile(fat, c, unvisited).clusters)
    decreases unvisited
  {
    if c in unvisited && InRange(fat, c) && !EndsFile(Next(fat, c)) {
      FollowFileReads(fat, Next(fat, c), unvisited - {c});
      var rest := FollowFile(fat, Next(fat, c), unvisited - {c});
      if rest.Ends? {
        assert ([c] + rest.clusters)[1..] == rest.clusters;
      }
    }
  }

  lemma {:induction false} ReadsFollow(fat: seq<Byte>, c: nat, clusters: seq<nat>, unvisited: set<nat>)
    requires Reads(fat, c, clusters)
    requires forall d: nat, t: seq<nat> :: Reads(fat, d, t) && |t| <= |clusters| ==> d in unvisited
    ensures FollowFile(fat, c, unvisited) == Ends(clusters)
    decreases |clusters|
  {
    assert c in unvisited;
    assert clusters == [c] + clusters[1..];
    if !EndsFile(Next(fat, c)) {
      forall d: nat, t: seq<nat> | Reads(fat, d, t) && |t| <= |clusters[1..]|
        ensures d in unvisited - {c}
      {
        if d == c {
          ReadsUnique(fat, c, clusters, t);
        }
      }
      ReadsFollow(fat, Next(fat, c), clusters[1..], unvisited - {c});
    }
  }

  /** Some finite number of calls of fat_read_file sets the end mark. */
  ghost predicate FileEnds(fat: seq<Byte>, c: nat) {
    exists clusters: seq<nat> :: Reads(fat, c, clusters)
  }

  /** The file reader ends exactly when its chain ends inside the loaded table before any cluster comes back. */
  lemma FollowFileDecides(fat: seq<Byte>, c: nat)
    ensures FollowFile(fat, c, ClustersBelow(|fat|)).Ends? <==> FileEnds(fat, c)
  {
    FollowFileReads(fat, c, ClustersBelow(|fat|));
    if FileEnds(fat, c) {
      var clusters: seq<nat> :| Reads(fat, c, clusters);
      ReadsFollow(fat, c, clusters, ClustersBelow(|fat|));
    }
  }

  // ---- what the window shows, whatever the layout

  /** Clusters that calls of fat_read_file visit one after the other, looking through the window. */
  predicate WindowPath(disk: Disk, c: nat, clusters: seq<nat>)
    decreases |clusters|
  {
    && clusters != [] && clusters[0] == c
    && (|clusters| > 1 ==> !EndsFile(WindowNext(disk, c)) && WindowPath(disk, WindowNext(disk, c), clusters[1..]))
  }

  /** The same up to the end mark. */
  predicate WindowReads(disk: Disk, c: nat, clusters: seq<nat>)
    decreases |clusters|
  {
    && clusters != [] && clusters[0] == c
    && (if EndsFile(WindowNext(disk, c)) then |clusters| == 1 else WindowReads(disk, WindowNext(disk, c), clusters[1..]))
  }

  /** With one reserved sector the window shows the chains of the loaded table. */
  lemma {:induction false} WindowReadsChains(disk: Disk, mount: Mount, c: nat, clusters: seq<nat>)
    requires mount.fatOffset == 1 && Reads(LoadedFat(disk, mount), c, clusters)
    ensures WindowReads(disk, c, clusters)
    decreases |clusters|
  {
    hide WindowNext, LoadedFat, Next;
    WindowIsWholeTable(disk, mount, c);
    if !EndsFile(WindowNext(disk, c)) {
      WindowReadsChains(disk, mount, WindowNext(disk, c), clusters[1..]);
    }
  }

  // ---- agreement

  /** No link is 0, and the chain ends at an end-of-file mark rather than a reserved or bad one. */
  predicate WellEnded(fat: seq<Byte>, clusters: seq<nat>)
    requires forall c <- clusters :: InRange(fat, c)
  {
    && (forall i :: 1 <= i < |clusters| ==> clusters[i] != 0)
    && (clusters != [] ==> Next(fat, clusters[|clusters| - 1]) >= 0xFF8)
  }

  lemma {:induction false} LoadsInRange(fat: seq<Byte>, c: nat, clusters: seq<nat>)
    requires Loads(fat, c, clusters)
    ensures forall d <- clusters :: InRange(fat, d) && d < BULK_END
    decreases |clusters|
  {
    if clusters != [] {
      LoadsInRange(fat, Next(fat, c), clusters[1..]);
      assert clusters == [c] + clusters[1..];
    }
  }

  /**
   Reading a file cluster by cluster visits the clusters the bulk loader copies exactly when no
   link of the chain is 0 and the chain ends at an end-of-file mark.
   */
  lemma {:induction false} ReadersAgree(fat: seq<Byte>, c: nat, clusters: seq<nat>)
    requires Loads(fat, c, clusters) && clusters != []
    ensures forall d <- clusters :: InRange(fat, d)
    ensures Reads(fat, c, clusters) <==> WellEnded(fat, clusters)
    decreases |clusters|
  {
    LoadsInRange(fat, c, clusters);
    var rest := clusters[1..];
    var link := Next(fat, c);
    if rest == [] {
      assert link >= BULK_END;
    } else {
      assert rest[0] == link && clusters[1] == link;
      ReadersAgree(fat, link, rest);
      assert rest[|rest| - 1] == clusters[|clusters| - 1];
      assert forall i :: 1 <= i < |rest| ==> rest[i] == clusters[i + 1];
      assert forall i :: 2 <= i < |clusters| ==> clusters[i] == rest[i - 1];
    }
  }

  /** The marks: the bulk loader stops from 0xFF0 up, the file reader from 0xFF8 up and at 0. */
  lemma Marks(fat: seq<Byte>, c: nat)
    requires InRange(fat, c)
    ensures Loads(fat, c, []) <==> c >= 0xFF0
    ensures Reads(fat, c, [c]) <==> Next(fat, c) >= 0xFF8 || Next(fat, c) == 0
  {
  }

  /** A chain as files have it: every link from 2 to 0xFEF, then an end-of-file mark. */
  predicate IsFileChain(fat: seq<Byte>, clusters: seq<nat>) {
    && clusters != []
    && (forall i :: 0 <= i < |clusters| ==> 2 <= clusters[i] <= 0xFEF && InRange(fat, clusters[i]))
    && (forall i :: 0 <= i < |clusters| - 1 ==> Next(fat, clusters[i]) == clusters[i + 1])
    && Next(fat, clusters[|clusters| - 1]) >= 0xFF8
  }

  lemma {:induction false} FileChainIsRead(fat: seq<Byte>, clusters: seq<nat>)
    requires IsFileChain(fat, clusters)
    ensures Loads(fat, clusters[0], clusters) && Reads(fat, clusters[0], clusters)
    decreases |clusters|
  {
    if |clusters| > 1 {
      var rest := clusters[1..];
      assert rest[|rest| - 1] == clusters[|clusters| - 1];
      FileChainIsRead(fat, rest);
    }
  }

  lemma {:induction false} LoadsFrom(fat: seq<Byte>, c: nat, clusters: seq<nat>, i: nat)
    requires Loads(fat, c, clusters) && i < |clusters|
    ensures Loads(fat, clusters[i], clusters[i..])
    decreases i
  {
    if i > 0 {
      LoadsFrom(fat, Next(fat, c), clusters[1..], i - 1);
      assert clusters[1..][i - 1..] == clusters[i..];
    }
  }

  /** No reading that ends visits a cluster twice. */
  lemma LoadsOnce(fat: seq<Byte>, c: nat, clusters: seq<nat>)
    requires Loads(fat, c, clusters)
    ensures forall i, j :: 0 <= i < j < |clusters| ==> clusters[i] != clusters[j]
  {
    forall i, j | 0 <= i < j < |clusters|
      ensures clusters[i] != clusters[j]
    {
      LoadsFrom(fat, c, clusters, i);
      LoadsFrom(fat, c, clusters, j);
      if clusters[i] == clusters[j] {
        LoadsUnique(fat, clusters[i], clusters[i..], clusters[j..]);
        assert false;
      }
    }
  }

  // ---- sectors

  /** The sector of a cluster: the unsigned subtraction wraps for clusters 0 and 1. */
  function DataLba(mount: Mount, cluster: nat): nat {
    Wrap(Wrap(cluster - 2) + mount.dataOffset)
  }

  /** The contents of a chain, sector by sector. */
  function Contents(disk: Disk, mount: Mount, clusters: seq<nat>): (bytes: seq<Byte>)
    ensures |bytes| == SECTOR_SIZE * |clusters|
  {
    if clusters == [] then []
    else Contents(disk, mount, clusters[..|clusters| - 1]) + ReadSector(disk, DataLba(mount, clusters[|clusters| - 1]))
  }

  /** Sector `i` of the contents of a chain. */
  lemma {:induction false} ContentsAt(disk: Disk, mount: Mount, clusters: seq<nat>, i: nat)
    requires i < |clusters|
    ensures Contents(disk, mount, clusters)[SECTOR_SIZE * i..SECTOR_SIZE * (i + 1)] == ReadSector(disk, DataLba(mount, clusters[i]))
  {
    hide ReadSector, DataLba;
    var before := clusters[..|clusters| - 1];
    if i < |before| {
      ContentsAt(disk, mount, before, i);
      assert Contents(disk, mount, clusters)[SECTOR_SIZE * i..SECTOR_SIZE * (i + 1)] == Contents(disk, mount, before)[SECTOR_SIZE * i..SECTOR_SIZE * (i + 1)];
    }
  }
}
