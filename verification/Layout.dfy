/** The layout of a mounted FAT volume and its cluster-to-sector arithmetic. */
module Layout {
  import opened Bytes

  datatype FsType = FAT12 | FAT16 | FAT32

  /** Largest cluster count of each sub-type, as this code (not the
      specification) draws the line. */
  function MaxClusters(t: FsType): nat {
    match t
    case FAT12 => 0xFF5
    case FAT16 => 0xFFF5
    case FAT32 => 0x0FFF_FFF5
  }

  /** Number of values an entry can hold; storing a value keeps its remainder. */
  function EntryValues(t: FsType): nat {
    match t
    case FAT12 => 0x1000
    case FAT16 => 0x1_0000
    case FAT32 => 0x1000_0000
  }

  /** Bytes a FAT of `n` entries needs. */
  function FatSize(t: FsType, n: nat): nat {
    match t
    case FAT12 => n * 3 / 2 + n % 2
    case FAT16 => n * 2
    case FAT32 => n * 4
  }

  datatype Geometry = Geometry(
    fsType: FsType,
    nFats: nat,       // number of FATs
    csize: nat,       // sectors per cluster
    nRootdir: nat,    // root directory entries (FAT12/16)
    nFatent: nat,     // FAT entries: clusters plus two
    fsize: nat,       // sectors per FAT
    volbase: nat,     // first sector of the volume
    fatbase: nat,     // first sector of the first FAT
    dirbase: nat,     // root directory: first sector (FAT12/16) or cluster (FAT32)
    database: nat,    // first data sector
    fsInfo: bool,     // the FSInfo sector is in use
    total: nat        // sectors the drive has
  ) {
    ghost predicate WellFormed() {
      && 1 <= nFats <= 2
      && PowerOfTwo(csize)
      && 3 <= nFatent <= MaxClusters(fsType) + 2
      && FatSize(fsType, nFatent) <= 512 * fsize
      && volbase < fatbase
      && (fsInfo ==> fsType.FAT32? && volbase + 1 < fatbase)
      && (if fsType.FAT32? then nRootdir == 0 && FatEnd() == database
          else && nRootdir > 0 && nRootdir % 16 == 0
               && dirbase == FatEnd() && database == dirbase + nRootdir / 16)
      && database <= database + csize * (nFatent - 2) <= total <= DISK_ERROR
    }

    /** What an end-of-chain mark reads back as. */
    function Eoc(): nat { EntryValues(fsType) - 1 }

    function FatEnd(): nat { fatbase + fsize + if nFats == 2 then fsize else 0 }

    predicate InFat(s: nat) { fatbase <= s < fatbase + fsize }

    /** Sectors that only repeat or summarise others: the second FAT and FSInfo. */
    predicate Shadow(s: nat) {
      || (nFats == 2 && fatbase + fsize <= s < fatbase + 2 * fsize)
      || (fsInfo && s == volbase + 1)
    }

    predicate IsCluster(c: nat) { 2 <= c < nFatent }

    /** First sector of a cluster; 0 for a number that is not a cluster. */
    function ClusterSector(c: nat): nat {
      if IsCluster(c) then database + csize * (c - 2) else 0
    }

    predicate InCluster(c: nat, s: nat) {
      IsCluster(c) && ClusterSector(c) <= s < ClusterSector(c) + csize
    }

    /** Sector `s` lies outside every cluster of `pool`. */
    ghost predicate ClearOf(pool: set<nat>, s: nat) {
      forall c :: c in pool ==> !InCluster(c, s)
    }

    function ClusterBytes(): nat { 512 * csize }

    /** A cluster's sectors lie inside the volume's data area, clear of the
        FATs, the root directory and FSInfo. */
    lemma ClusterInData(c: nat, s: nat)
      requires WellFormed() && InCluster(c, s)
      ensures database <= s < total && !InFat(s) && !Shadow(s) && s > 0
    {
      MulGap(csize, c - 2, nFatent - 2);
    }

    lemma Bounds()
      requires WellFormed()
      ensures nFatent >= 3 && csize > 0 && FatSize(fsType, nFatent) <= 512 * fsize
    {
    }

    /** A cluster never maps to sector 0, the code's mark for a bad number. */
    lemma ClusterNotZero(c: nat)
      requires WellFormed() && IsCluster(c)
      ensures ClusterSector(c) > 0
    {
      MulGap(csize, c - 2, nFatent - 2);
    }

    /** The order of the data area: cluster 2 comes first, right behind the FATs and
        the root directory, and each cluster right behind the one before. */
    lemma DataOrder(c: nat)
      requires WellFormed() && IsCluster(c)
      ensures ClusterSector(2) == database == FatEnd() + nRootdir / 16
      ensures IsCluster(c + 1) ==> ClusterSector(c + 1) == ClusterSector(c) + csize
      ensures ClusterSector(c) == database + csize * (c - 2)
    {
      MulAdd(csize, c - 2, 1);
    }

    /** A cluster ends inside the volume. */
    lemma ClusterEnds(c: nat)
      requires WellFormed() && IsCluster(c)
      ensures database <= ClusterSector(c) && ClusterSector(c) + csize <= total
    {
      MulGap(csize, c - 2, nFatent - 2);
      assert csize * (c - 1) == csize * (c - 2) + csize;
    }

    /** No sector belongs to two clusters. */
    lemma ClustersDisjoint(c: nat, d: nat, s: nat)
      requires WellFormed() && InCluster(c, s) && InCluster(d, s)
      ensures c == d
    {
      MulGap(csize, c - 2, d - 2);
    }
  }

  predicate PowerOfTwo(c: nat) {
    c in {1, 2, 4, 8, 16, 32, 64, 128}
  }

  /** On an accepted cluster size, the code's mask `x & (c - 1)` is `x % c`. */
  lemma MaskCluster(x: nat, c: nat)
    requires PowerOfTwo(c)
    ensures BitAnd(x, c - 1) == x % c
  {
    assert Pow2(1) == 2 && Pow2(2) == 4 && Pow2(3) == 8;
    assert Pow2(4) == 16 && Pow2(5) == 32;
    assert Pow2(6) == 64 && Pow2(7) == 128;
    var k := if c == 1 then 0 else if c == 2 then 1 else if c == 4 then 2 else if c == 8 then 3
             else if c == 16 then 4 else if c == 32 then 5 else if c == 64 then 6 else 7;
    MaskIsRemainder(x, k);
  }
}
