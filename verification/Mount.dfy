/** Reading a FAT boot sector into a volume layout, in 32-bit arithmetic. */
module Mount {
  import opened Bytes
  import opened Layout
  import opened FatCodec
  import opened Volumes

  datatype Option<+T> = None | Some(value: T)

  /** Sub-type for a cluster count. */
  function SubType(nclst: nat): Option<FsType> {
    if nclst <= MaxClusters(FAT12) then Some(FAT12)
    else if nclst <= MaxClusters(FAT16) then Some(FAT16)
    else if nclst <= MaxClusters(FAT32) then Some(FAT32)
    else None
  }

  /** Sectors of one FAT, as the boot sector gives them. */
  function FatSectors(w: Sector): (n: nat)
    ensures n < DWORD_VALUES
  {
    if LdWord(w, 22) != 0 then LdWord(w, 22) else LdDword(w, 36)
  }

  function TotalSectors(w: Sector): nat {
    if LdWord(w, 19) != 0 then LdWord(w, 19) else LdDword(w, 32)
  }

  /** Sectors of all FATs, in the 32-bit product the code computes. */
  function FatArea(w: Sector): nat {
    FatSectors(w) * (w[16] as nat) % DWORD_VALUES
  }

  /** Sectors before the data area, in the 32-bit sum the code computes. */
  function SystemSectors(w: Sector): nat {
    (LdWord(w, 14) + FatArea(w) + LdWord(w, 17) / 16) % DWORD_VALUES
  }

  /** Clusters in `room` sectors. */
  function ClusterCount(room: nat, csize: nat): (n: nat)
    requires csize > 0
    ensures csize * n <= room
  {
    room / csize
  }

  /** The layout the code derives once the sub-type is known. */
  function LayoutOf(w: Sector, t: FsType, nclst: nat, base: nat, total: nat, infoRead: bool): Geometry {
    var fatbase := (base + LdWord(w, 14)) % DWORD_VALUES;
    Geometry(
      t, w[16], w[13], LdWord(w, 17), nclst + 2, FatSectors(w), base, fatbase,
      if t.FAT32? then LdDword(w, 44) else (fatbase + FatArea(w)) % DWORD_VALUES,
      (base + SystemSectors(w)) % DWORD_VALUES,
      t.FAT32? && LdWord(w, 48) == 1 && infoRead, total)
  }

  /** The layout of the volume whose boot sector `w` lies at sector `base` of a
      drive of `total` sectors; none if the code refuses it. `infoRead` says
      whether the sector behind the boot sector could be read. */
  function ParseBoot(w: Sector, base: nat, total: nat, infoRead: bool): Option<Geometry> {
    if LdWord(w, 11) != 512 then None
    else if w[16] != 1 && w[16] != 2 then None
    else if w[13] == 0 || BitAnd(w[13], w[13] - 1) != 0 then None
    else if LdWord(w, 17) % 16 != 0 then None
    else if LdWord(w, 14) == 0 then None
    else if TotalSectors(w) < SystemSectors(w) then None
    else
      var nclst := ClusterCount(TotalSectors(w) - SystemSectors(w), w[13]);
      if nclst == 0 || SubType(nclst).None? then None
      else
        var t := SubType(nclst).value;
        if t.FAT32? && (LdWord(w, 42) != 0 || LdWord(w, 17) != 0) then None
        else if !t.FAT32? && LdWord(w, 17) == 0 then None
        else if FatSectors(w) < (FatSize(t, nclst + 2) + 511) / 512 then None
        else Some(LayoutOf(w, t, nclst, base, total, infoRead))
  }

  /** No sum of the boot sector's counts leaves 32 bits. */
  predicate NoWrap(w: Sector) {
    LdWord(w, 14) + FatSectors(w) * (w[16] as nat) + LdWord(w, 17) / 16 < DWORD_VALUES
  }

  /** Sectors in clusters, by the code's count. */
  function ClusterSectors(w: Sector): nat {
    if w[13] == 0 || TotalSectors(w) < SystemSectors(w) then 0
    else w[13] as nat * ClusterCount(TotalSectors(w) - SystemSectors(w), w[13])
  }

  /** The last cluster of the volume at `base` ends on the drive. */
  predicate OnDrive(w: Sector, base: nat, total: nat) {
    base + SystemSectors(w) + ClusterSectors(w) <= total
  }

  /** `c & (c - 1)` is zero just for powers of two. */
  lemma {:induction false} SingleBit(c: nat)
    requires 0 < c < 256
    ensures BitAnd(c, c - 1) == 0 <==> PowerOfTwo(c)
  {
    var h := c / 2;
    if c % 2 == 0 {
      SingleBit(h);
      assert (c - 1) / 2 == h - 1 && (c - 1) % 2 == 1;
      assert BitAnd(c, c - 1) == 2 * BitAnd(h, h - 1);
    } else if c > 1 {
      assert (c - 1) / 2 == h && (c - 1) % 2 == 0;
      SelfAnd(h);
      assert BitAnd(c, c - 1) == 2 * h;
    }
  }

  lemma {:induction false} SelfAnd(x: nat)
    ensures BitAnd(x, x) == x
  {
    if x > 0 {
      SelfAnd(x / 2);
    }
  }

  /** What acceptance says about the numbers, wrapped sums included. */
  lemma Accepted(w: Sector, base: nat, total: nat, infoRead: bool)
    requires ParseBoot(w, base, total, infoRead).Some?
    ensures var g := ParseBoot(w, base, total, infoRead).value;
            && PowerOfTwo(g.csize) && 1 <= g.nFats <= 2 && LdWord(w, 14) > 0
            && 3 <= g.nFatent <= MaxClusters(g.fsType) + 2
            && FatSize(g.fsType, g.nFatent) <= 512 * g.fsize
            && FatSectors(w) * (w[16] as nat) == (if g.nFats == 2 then g.fsize + g.fsize else g.fsize)
            && g.csize * (g.nFatent - 2) == ClusterSectors(w)
  {
    hide LdWord, LdDword, BitAnd, PowerOfTwo, SystemSectors, TotalSectors, ClusterCount, FatArea;
    var g := ParseBoot(w, base, total, infoRead).value;
    SingleBit(g.csize);
  }

  lemma MountedFields(w: Sector, base: nat, total: nat, infoRead: bool)
    requires ParseBoot(w, base, total, infoRead).Some?
    ensures var g := ParseBoot(w, base, total, infoRead).value;
            && g.nFatent >= 2 && g == LayoutOf(w, g.fsType, g.nFatent - 2, base, total, infoRead)
            && LdWord(w, 17) % 16 == 0 && (g.fsType.FAT32? <==> LdWord(w, 17) == 0)
  {
    hide LdWord, LdDword, BitAnd, PowerOfTwo, SystemSectors, TotalSectors, ClusterCount, FatArea, FatSectors;
    hide FatSize, SubType;
  }

  /** A volume the code accepts has a sound layout exactly when its counts do
      not wrap, its clusters are on the drive, and the FSInfo sector, if used, is
      not the first FAT sector. Sector numbers have 32 bits. */
  lemma MountedLayout(w: Sector, base: nat, total: nat, infoRead: bool)
    requires base < DWORD_VALUES && total <= DISK_ERROR && ParseBoot(w, base, total, infoRead).Some?
    ensures var g := ParseBoot(w, base, total, infoRead).value;
            g.WellFormed() <==> NoWrap(w) && OnDrive(w, base, total) && (g.fsInfo ==> LdWord(w, 14) > 1)
  {
    hide LdWord, LdDword, BitAnd, PowerOfTwo, FatSectors, TotalSectors, MaxClusters, FatSize, SubType, EntryValues;
    hide ClusterCount, ParseBoot, Geometry.WellFormed, ClusterSectors;
    Accepted(w, base, total, infoRead);
    MountedFields(w, base, total, infoRead);
    var g := ParseBoot(w, base, total, infoRead).value;
    RegionsMeet(g, LdWord(w, 14), FatSectors(w) * (w[16] as nat), LdWord(w, 17) / 16, g.csize * (g.nFatent - 2));
  }

  /** The same in bare numbers: `r` reserved sectors, `f` of FATs, `d` of root
      directory, `room` of clusters. */
  lemma RegionsMeet(g: Geometry, r: nat, f: nat, d: nat, room: int)
    requires PowerOfTwo(g.csize) && 1 <= g.nFats <= 2 && 3 <= g.nFatent <= MaxClusters(g.fsType) + 2
    requires FatSize(g.fsType, g.nFatent) <= 512 * g.fsize && g.fsize < DWORD_VALUES
    requires 0 < r < WORD_VALUES && d < WORD_VALUES && room == g.csize * (g.nFatent - 2)
    requires f == (if g.nFats == 2 then g.fsize + g.fsize else g.fsize) && d == g.nRootdir / 16
    requires g.nRootdir % 16 == 0 && (g.fsType.FAT32? <==> g.nRootdir == 0) && (g.fsInfo ==> g.fsType.FAT32?)
    requires g.fatbase == (g.volbase + r) % DWORD_VALUES
    requires !g.fsType.FAT32? ==> g.dirbase == (g.fatbase + f % DWORD_VALUES) % DWORD_VALUES
    requires g.database == (g.volbase + (r + f % DWORD_VALUES + d) % DWORD_VALUES) % DWORD_VALUES
    requires g.volbase < DWORD_VALUES && g.total <= DISK_ERROR
    ensures var s := (r + f % DWORD_VALUES + d) % DWORD_VALUES;
            g.WellFormed() <==> r + f + d < DWORD_VALUES && g.volbase + s + room <= g.total && (g.fsInfo ==> r > 1)
  {
    hide PowerOfTwo, MaxClusters, FatSize, Geometry.WellFormed;
    assert room >= 0 by { MulGap(g.csize, 0, g.nFatent - 2); }
    var s := (r + f % DWORD_VALUES + d) % DWORD_VALUES;
    if g.volbase + s + room > g.total {
      Cut32(g.volbase + s);
      OffDriveRegions(g, s);
    } else if r + f + d < DWORD_VALUES {
      Fits32(f);
      Fits32(r + f + d);
      Fits32(g.volbase + r + f + d);
      Fits32(g.volbase + r);
      Fits32(g.volbase + r + f);
      FittingRegions(g, r, f, d);
    } else {
      Cut32(g.volbase + r);
      WrappedRegions(g, r, f, d);
    }
  }

  lemma OffDriveRegions(g: Geometry, s: nat)
    requires s < DWORD_VALUES && g.volbase + s + g.csize * (g.nFatent - 2) > g.total
    requires g.database == g.volbase + s || g.database == g.volbase + s - DWORD_VALUES
    ensures !g.WellFormed()
  {
    hide PowerOfTwo, MaxClusters, FatSize;
  }

  lemma Fits32(x: nat)
    ensures x < DWORD_VALUES ==> x % DWORD_VALUES == x
  {
  }

  lemma Cut32(x: nat)
    ensures x < 2 * DWORD_VALUES ==> x % DWORD_VALUES == x || x % DWORD_VALUES == x - DWORD_VALUES
  {
  }

  lemma FittingRegions(g: Geometry, r: nat, f: nat, d: nat)
    requires PowerOfTwo(g.csize) && 1 <= g.nFats <= 2 && 3 <= g.nFatent <= MaxClusters(g.fsType) + 2
    requires FatSize(g.fsType, g.nFatent) <= 512 * g.fsize && 0 < r
    requires f == (if g.nFats == 2 then g.fsize + g.fsize else g.fsize) && d == g.nRootdir / 16
    requires g.nRootdir % 16 == 0 && (g.fsType.FAT32? <==> g.nRootdir == 0) && (g.fsInfo ==> g.fsType.FAT32?)
    requires g.fatbase == g.volbase + r && g.database == g.volbase + r + f + d
    requires !g.fsType.FAT32? ==> g.dirbase == g.fatbase + f
    requires g.csize * (g.nFatent - 2) >= 0 && g.database + g.csize * (g.nFatent - 2) <= g.total <= DISK_ERROR
    ensures g.WellFormed() <==> (g.fsInfo ==> r > 1)
  {
    hide PowerOfTwo, MaxClusters, FatSize;
  }

  lemma WrappedRegions(g: Geometry, r: nat, f: nat, d: nat)
    requires f == (if g.nFats == 2 then g.fsize + g.fsize else g.fsize) && d == g.nRootdir / 16
    requires (g.fsType.FAT32? <==> g.nRootdir == 0) && r + f + d >= DWORD_VALUES && g.total <= DISK_ERROR
    requires g.fatbase == g.volbase + r || g.fatbase < g.volbase
    ensures !g.WellFormed()
  {
    hide PowerOfTwo, MaxClusters, FatSize;
    assert g.FatEnd() == g.fatbase + f;
  }

  // ---- which boot sectors give which layout -------------------------------------------

  /** The cluster counts of each sub-type. */
  predicate CountType(t: FsType, n: int) {
    match t
    case FAT12 => 1 <= n <= 0xFF5
    case FAT16 => 0xFF5 < n <= 0xFFF5
    case FAT32 => 0xFFF5 < n <= 0x0FFF_FFF5
  }

  /** The sub-type is determined by the cluster count, and by nothing else. */
  lemma MountedType(w: Sector, base: nat, total: nat, infoRead: bool)
    requires ParseBoot(w, base, total, infoRead).Some?
    ensures var g := ParseBoot(w, base, total, infoRead).value; CountType(g.fsType, g.nFatent - 2)
  {
    hide LdWord, LdDword, BitAnd, PowerOfTwo, SystemSectors, TotalSectors, ClusterCount, FatArea, FatSectors, FatSize;
  }

  /** Sectors before the data area, by the bytes of the boot sector, in 32 bits. */
  function SystemField(w: Sector): nat {
    var fsize := if Field(w, 22, 2) != 0 then Field(w, 22, 2) else Field(w, 36, 4);
    (Field(w, 14, 2) + fsize * (w[16] as nat) % 0x1_0000_0000 + Field(w, 17, 2) / 16) % 0x1_0000_0000
  }

  /** `n` clusters are what the volume has, of a sub-type and with a root directory
      and FATs that go with them. */
  predicate Countable(w: Sector, n: nat) {
    var fsize := if Field(w, 22, 2) != 0 then Field(w, 22, 2) else Field(w, 36, 4);
    && 1 <= n <= 0x0FFF_FFF5
    && (if n > 0xFFF5 then Field(w, 42, 2) == 0 && Field(w, 17, 2) == 0 else Field(w, 17, 2) > 0)
    && (if n > 0xFFF5 then 32 else if n > 0xFF5 then 16 else 12) * (n + 2) <= 8 * 512 * fsize
  }

  /** All a boot sector needs to be accepted, in the bytes it consists of. */
  ghost predicate Acceptable(w: Sector) {
    var tsect := if Field(w, 19, 2) != 0 then Field(w, 19, 2) else Field(w, 32, 4);
    && Field(w, 11, 2) == 512 && (w[16] == 1 || w[16] == 2) && w[13] in {1, 2, 4, 8, 16, 32, 64, 128}
    && Field(w, 17, 2) % 16 == 0 && Field(w, 14, 2) > 0 && SystemField(w) <= tsect
    && Countable(w, (tsect - SystemField(w)) / w[13] as nat)
  }

  /** Which boot sectors are accepted, and so which are refused. */
  lemma MountAccepts(w: Sector, base: nat, total: nat, infoRead: bool)
    ensures ParseBoot(w, base, total, infoRead).Some? <==> Acceptable(w)
  {
    hide LdWord, LdDword, Field, BitAnd, FatSize, Countable, SystemField, SystemSectors;
    Fields(w, 11);
    Fields(w, 14);
    Fields(w, 17);
    Fields(w, 19);
    Fields(w, 32);
    SystemBytes(w);
    if w[13] > 0 {
      SingleBit(w[13]);
      if TotalSectors(w) >= SystemSectors(w) {
        CountBytes(w, ClusterCount(TotalSectors(w) - SystemSectors(w), w[13]));
      }
    }
  }

  lemma SystemBytes(w: Sector)
    ensures SystemField(w) == SystemSectors(w)
  {
    hide LdWord, LdDword, Field;
    Fields(w, 14);
    Fields(w, 17);
    Fields(w, 22);
    Fields(w, 36);
  }

  lemma CountBytes(w: Sector, n: nat)
    ensures Countable(w, n) <==>
            && n > 0 && SubType(n).Some?
            && var t := SubType(n).value;
            && (if t.FAT32? then LdWord(w, 42) == 0 && LdWord(w, 17) == 0 else LdWord(w, 17) != 0)
            && FatSectors(w) >= (FatSize(t, n + 2) + 511) / 512
  {
    hide LdWord, LdDword, Field;
    Fields(w, 17);
    Fields(w, 22);
    Fields(w, 36);
    Fields(w, 42);
    if SubType(n).Some? { FatSizeLeast(SubType(n).value, n + 2); }
  }

  /** The number in `n` bytes at `o`. */
  function Field(w: Sector, o: nat, n: nat): nat
    requires o + n <= 512
  {
    Value(w[o..o + n])
  }

  lemma Fields(w: Sector, o: nat)
    requires o + 4 <= 512
    ensures Field(w, o, 1) == w[o] && Field(w, o, 2) == LdWord(w, o) && Field(w, o, 4) == LdDword(w, o)
  {
    WordOf(w, o);
    DwordOf(w, o);
    var b := w[o..o + 1];
    assert b[1..] == [] && Value(b) == b[0] as int + 256 * Value(b[1..]);
  }

  /** The boot sector `w` says, field by field, that the volume has layout `g`. The
      sectors that do not fill a cluster are left over. */
  ghost predicate Describes(w: Sector, g: Geometry, infoRead: bool) {
    var tsect := if Field(w, 19, 2) != 0 then Field(w, 19, 2) else Field(w, 32, 4);
    var fsize := if Field(w, 22, 2) != 0 then Field(w, 22, 2) else Field(w, 36, 4);
    && Field(w, 11, 2) == 512 && Field(w, 13, 1) == g.csize && Field(w, 14, 2) == g.fatbase - g.volbase
    && Field(w, 16, 1) == g.nFats && Field(w, 17, 2) == g.nRootdir && fsize == g.fsize
    && g.database - g.volbase + g.csize * (g.nFatent - 2) <= tsect
    && tsect < g.database - g.volbase + g.csize * (g.nFatent - 2) + g.csize
    && (g.fsType.FAT32? ==> Field(w, 42, 2) == 0 && Field(w, 44, 4) == g.dirbase)
    && (g.fsInfo <==> g.fsType.FAT32? && Field(w, 48, 2) == 1 && infoRead)
    && CountType(g.fsType, g.nFatent - 2)
  }

  /** A sound layout is mounted from the boot sectors that describe it, and from
      no others. */
  lemma MountExact(w: Sector, g: Geometry, infoRead: bool)
    requires g.WellFormed()
    ensures ParseBoot(w, g.volbase, g.total, infoRead) == Some(g) <==> Describes(w, g, infoRead)
  {
    hide ParseBoot, Describes, Geometry.WellFormed;
    if Describes(w, g, infoRead) { DescribedMounts(w, g, infoRead); }
    if ParseBoot(w, g.volbase, g.total, infoRead) == Some(g) { MountedDescribes(w, g, infoRead); }
  }

  /** `Describes` in the code's words. */
  ghost predicate Says(w: Sector, g: Geometry, infoRead: bool) {
    && LdWord(w, 11) == 512 && w[13] == g.csize && LdWord(w, 14) == g.fatbase - g.volbase && w[16] == g.nFats
    && LdWord(w, 17) == g.nRootdir && FatSectors(w) == g.fsize
    && g.database - g.volbase + g.csize * (g.nFatent - 2) <= TotalSectors(w)
    && TotalSectors(w) < g.database - g.volbase + g.csize * (g.nFatent - 2) + g.csize
    && (g.fsType.FAT32? ==> LdWord(w, 42) == 0 && LdDword(w, 44) == g.dirbase)
    && (g.fsInfo <==> g.fsType.FAT32? && LdWord(w, 48) == 1 && infoRead)
    && CountType(g.fsType, g.nFatent - 2)
  }

  lemma SaysDescribes(w: Sector, g: Geometry, infoRead: bool)
    ensures Says(w, g, infoRead) <==> Describes(w, g, infoRead)
  {
    hide LdWord, LdDword, Field;
    Fields(w, 11);
    Fields(w, 13);
    Fields(w, 14);
    Fields(w, 16);
    Fields(w, 17);
    Fields(w, 19);
    Fields(w, 22);
    Fields(w, 32);
    Fields(w, 36);
    Fields(w, 42);
    Fields(w, 44);
    Fields(w, 48);
  }

  /** On a sound layout no sum of the code wraps. */
  lemma SoundSums(w: Sector, g: Geometry)
    requires g.WellFormed() && LdWord(w, 14) == g.fatbase - g.volbase && w[16] == g.nFats
    requires LdWord(w, 17) == g.nRootdir && FatSectors(w) == g.fsize
    ensures g.volbase + SystemSectors(w) == g.database < DWORD_VALUES
    ensures (g.volbase + LdWord(w, 14)) % DWORD_VALUES == g.fatbase
    ensures !g.fsType.FAT32? ==> (g.fatbase + FatArea(w)) % DWORD_VALUES == g.dirbase
  {
    hide LdWord, LdDword, FatSectors, Geometry.WellFormed, FatArea, SystemSectors, Geometry.FatEnd;
    VolumeEnds(g);
    var f := if g.nFats == 2 then g.fsize + g.fsize else g.fsize;
    SumsFit(g, LdWord(w, 14), f, LdWord(w, 17) / 16);
    SystemIs(w, f);
  }

  lemma SystemIs(w: Sector, f: nat)
    requires 1 <= w[16] <= 2 && f == if w[16] == 2 then FatSectors(w) + FatSectors(w) else FatSectors(w)
    requires f < DWORD_VALUES
    ensures FatArea(w) == f && SystemSectors(w) == (LdWord(w, 14) + f + LdWord(w, 17) / 16) % DWORD_VALUES
  {
    hide LdWord, FatSectors;
    Fits32(f);
  }

  lemma SumsFit(g: Geometry, r: nat, f: nat, d: nat)
    requires g.WellFormed() && r == g.fatbase - g.volbase && d == g.nRootdir / 16
    requires f == if g.nFats == 2 then g.fsize + g.fsize else g.fsize
    ensures f < DWORD_VALUES && (r + f + d) % DWORD_VALUES == r + f + d == g.database - g.volbase
    ensures g.database < DWORD_VALUES && (g.volbase + r) % DWORD_VALUES == g.fatbase
    ensures !g.fsType.FAT32? ==> (g.fatbase + f) % DWORD_VALUES == g.dirbase
  {
    hide PowerOfTwo, MaxClusters, FatSize;
    Fits32(r + f + d);
    Fits32(g.volbase + r);
    Fits32(g.fatbase + f);
  }

  lemma DescribedMounts(w: Sector, g: Geometry, infoRead: bool)
    requires g.WellFormed() && Describes(w, g, infoRead)
    ensures ParseBoot(w, g.volbase, g.total, infoRead) == Some(g)
  {
    hide Geometry.WellFormed, LdWord, LdDword, BitAnd, FatSectors, TotalSectors, SystemSectors, FatArea, Describes;
    SaysDescribes(w, g, infoRead);
    SoundSums(w, g);
    WholeCount(g, TotalSectors(w) - SystemSectors(w));
    RootAndBits(g);
    Fits32(g.database);
    assert SubType(g.nFatent - 2) == Some(g.fsType);
    assert g.fsize >= (FatSize(g.fsType, g.nFatent) + 511) / 512;
  }

  lemma WholeCount(g: Geometry, room: int)
    requires g.WellFormed() && g.csize * (g.nFatent - 2) <= room < g.csize * (g.nFatent - 2) + g.csize
    ensures room >= 0 && ClusterCount(room, g.csize) == g.nFatent - 2
  {
    hide PowerOfTwo, MaxClusters, FatSize;
    g.Bounds();
    MulGap(g.csize, 0, g.nFatent - 2);
    RemainderUnique(room, g.csize, g.nFatent - 2, room - g.csize * (g.nFatent - 2));
  }

  lemma RootAndBits(g: Geometry)
    requires g.WellFormed()
    ensures 0 < g.csize < 256 && BitAnd(g.csize, g.csize - 1) == 0 && 1 <= g.nFats <= 2 && g.volbase < g.fatbase
    ensures g.nRootdir % 16 == 0 && (g.fsType.FAT32? <==> g.nRootdir == 0)
    ensures 3 <= g.nFatent && FatSize(g.fsType, g.nFatent) <= 512 * g.fsize
  {
    SingleBit(g.csize);
  }

  lemma MountedDescribes(w: Sector, g: Geometry, infoRead: bool)
    requires g.WellFormed() && ParseBoot(w, g.volbase, g.total, infoRead) == Some(g)
    ensures Describes(w, g, infoRead)
  {
    hide LdWord, LdDword, BitAnd, PowerOfTwo, FatSectors, TotalSectors, MaxClusters, FatSize, SubType, EntryValues;
    hide ParseBoot, FatArea, SystemSectors, Describes, ClusterCount;
    Accepted(w, g.volbase, g.total, infoRead);
    MountedFields(w, g.volbase, g.total, infoRead);
    MountedType(w, g.volbase, g.total, infoRead);
    MountedCount(w, g.volbase, g.total, infoRead);
    MountedReserved(w, g, infoRead);
    SoundSums(w, g);
    SaysDescribes(w, g, infoRead);
  }

  lemma MountedReserved(w: Sector, g: Geometry, infoRead: bool)
    requires g.WellFormed() && g == LayoutOf(w, g.fsType, g.nFatent - 2, g.volbase, g.total, infoRead)
    requires LdWord(w, 14) > 0
    ensures LdWord(w, 14) == g.fatbase - g.volbase
  {
    hide LdWord, LdDword, PowerOfTwo, FatSectors, MaxClusters, FatSize, FatArea, SystemSectors;
    Cut32(g.volbase + LdWord(w, 14));
  }

  /** What else acceptance says: the leftover sectors do not fill a cluster, and a
      FAT32 volume has revision 0. */
  lemma MountedCount(w: Sector, base: nat, total: nat, infoRead: bool)
    requires ParseBoot(w, base, total, infoRead).Some?
    ensures var g := ParseBoot(w, base, total, infoRead).value;
            && LdWord(w, 11) == 512 && (g.fsType.FAT32? ==> LdWord(w, 42) == 0)
            && SystemSectors(w) + g.csize * (g.nFatent - 2) <= TotalSectors(w)
            && TotalSectors(w) < SystemSectors(w) + g.csize * (g.nFatent - 2) + g.csize
  {
    hide LdWord, LdDword, BitAnd, PowerOfTwo, SystemSectors, TotalSectors, FatArea, FatSectors, FatSize;
    var room := TotalSectors(w) - SystemSectors(w);
    assert room == w[13] as nat * (room / w[13] as nat) + room % w[13] as nat;
  }

  /** The layout fits in the fields of a boot sector, and its sub-type is the one
      its cluster count says. */
  ghost predicate Storable(g: Geometry) {
    && g.WellFormed() && CountType(g.fsType, g.nFatent - 2)
    && g.fatbase - g.volbase < WORD_VALUES && g.nRootdir < WORD_VALUES
    && (g.fsType.FAT32? ==> g.dirbase < DWORD_VALUES)
  }

  /** Sectors of the volume when its last cluster ends it. */
  ghost function VolumeSectors(g: Geometry): (n: nat)
    requires Storable(g)
    ensures 0 < n < DWORD_VALUES && 0 < g.fsize < DWORD_VALUES
  {
    VolumeEnds(g);
    g.database - g.volbase + g.csize * (g.nFatent - 2)
  }

  lemma VolumeEnds(g: Geometry)
    requires g.WellFormed()
    ensures g.csize * (g.nFatent - 2) >= 0 && 0 < g.fsize < DWORD_VALUES
    ensures 0 < g.database - g.volbase + g.csize * (g.nFatent - 2) < DWORD_VALUES
    ensures 0 < g.csize < 256 && 1 <= g.nFats <= 2 && g.fatbase > g.volbase && (g.fsInfo ==> g.fsType.FAT32?)
  {
    hide MaxClusters;
  }

  /** The fields every sub-type has. */
  ghost function CommonFields(g: Geometry): (w: Sector)
    requires Storable(g)
    ensures w[0] == 0xEB && LdWord(w, 11) == 512 && w[13] == g.csize && LdWord(w, 14) == g.fatbase - g.volbase
    ensures w[16] == g.nFats && LdWord(w, 17) == g.nRootdir && LdWord(w, 510) == 0xAA55
    ensures forall i :: 19 <= i < 510 ==> w[i] == 0
  {
    VolumeEnds(g);
    var w0: seq<Byte> := ZeroSector()[0 := 0xEB][13 := g.csize][16 := g.nFats];
    var w1 := StWord(w0, 11, 512);
    var w2 := StWord(w1, 14, g.fatbase - g.volbase);
    var w3 := StWord(w2, 17, g.nRootdir);
    StWord(w3, 510, 0xAA55)
  }

  /** The size of the volume, in 16 bits where it fits in the FAT12/16 field. */
  ghost function SizeField(w: Sector, fat32: bool, n: nat): (r: Sector)
    requires (forall i :: 19 <= i < 510 ==> w[i] == 0) && 0 < n < DWORD_VALUES
    ensures TotalSectors(r) == n
    ensures if !fat32 && n < WORD_VALUES then LdWord(r, 19) == n else LdDword(r, 32) == n
    ensures forall i :: 0 <= i < 19 || 21 <= i < 32 || 36 <= i < 512 ==> r[i] == w[i]
  {
    var wide := fat32 || n >= WORD_VALUES;
    var r := if wide then StDword(w, 32, n) else StWord(w, 19, n);
    assert wide ==> r[19] == r[20] == 0;
    r
  }

  /** The size of a FAT, likewise. */
  ghost function FatField(w: Sector, fat32: bool, n: nat): (r: Sector)
    requires (forall i :: 22 <= i < 24 ==> w[i] == 0) && 0 < n < DWORD_VALUES
    ensures FatSectors(r) == n && (!fat32 && n < WORD_VALUES ==> LdWord(r, 22) == n)
    ensures forall i :: 0 <= i < 22 || 24 <= i < 36 || 40 <= i < 512 ==> r[i] == w[i]
  {
    var wide := fat32 || n >= WORD_VALUES;
    var r := if wide then StDword(w, 36, n) else StWord(w, 22, n);
    assert wide ==> r[22] == r[23] == 0;
    r
  }

  /** The fields only FAT32 has: root cluster, FSInfo sector, type string. */
  ghost function Fields32(w: Sector, root: nat, info: bool): (r: Sector)
    requires (forall i :: 40 <= i < 510 ==> w[i] == 0) && root < DWORD_VALUES
    ensures LdWord(r, 42) == 0 && LdDword(r, 44) == root && LdWord(r, 48) == (if info then 1 else 0)
    ensures r[82..90] == FAT32_MARK && forall i :: 0 <= i < 40 || 510 <= i < 512 ==> r[i] == w[i]
  {
    var w1 := StDword(w, 44, root);
    var w2 := StWord(w1, 48, if info then 1 else 0);
    var r := Blit(w2, 82, FAT32_MARK);
    assert LdDword(r, 44) == LdDword(w1, 44) && LdWord(r, 48) == LdWord(w2, 48);
    r
  }

  /** The boot sector of a volume with this layout, as formatting leaves it. */
  ghost function BootOf(g: Geometry): (w: Sector)
    requires Storable(g)
  {
    var fat32 := g.fsType.FAT32?;
    var w := FatField(SizeField(CommonFields(g), fat32, VolumeSectors(g)), fat32, g.fsize);
    if g.fsType.FAT32? then Fields32(w, g.dirbase, g.fsInfo) else w
  }

  lemma BootSays(g: Geometry)
    requires Storable(g)
    ensures Says(BootOf(g), g, true)
  {
    hide CommonFields, SizeField, FatField, Fields32, Geometry.WellFormed, LdWord, LdDword, TotalSectors, FatSectors;
    VolumeEnds(g);
    var c := CommonFields(g);
    var v := SizeField(c, g.fsType.FAT32?, VolumeSectors(g));
    var w := FatField(v, g.fsType.FAT32?, g.fsize);
    SameWords(c, w);
    SameTotal(v, w);
    if g.fsType.FAT32? {
      SameWords(w, BootOf(g));
      SameTotal(w, BootOf(g));
      SameFat(w, BootOf(g));
    }
  }

  lemma SameWords(w: Sector, r: Sector)
    requires forall i :: 0 <= i < 19 || 510 <= i < 512 ==> r[i] == w[i]
    ensures LdWord(r, 11) == LdWord(w, 11) && LdWord(r, 14) == LdWord(w, 14) && LdWord(r, 17) == LdWord(w, 17)
    ensures r[0] == w[0] && r[13] == w[13] && r[16] == w[16] && LdWord(r, 510) == LdWord(w, 510)
  {
  }

  lemma SameTotal(w: Sector, r: Sector)
    requires forall i :: 19 <= i < 21 || 32 <= i < 36 ==> r[i] == w[i]
    ensures LdWord(r, 19) == LdWord(w, 19) && LdDword(r, 32) == LdDword(w, 32) && TotalSectors(r) == TotalSectors(w)
  {
  }

  lemma SameFat(w: Sector, r: Sector)
    requires forall i :: 22 <= i < 24 || 36 <= i < 40 ==> r[i] == w[i]
    ensures FatSectors(r) == FatSectors(w)
  {
  }

  /** Mounting undoes formatting: every sound layout that fits in the fields has a
      boot sector, and mounting it gives that layout. */
  lemma FormatMounts(g: Geometry)
    requires Storable(g)
    ensures ParseBoot(BootOf(g), g.volbase, g.total, true) == Some(g)
  {
    hide Describes, Says, BootOf;
    BootSays(g);
    SaysDescribes(BootOf(g), g, true);
    DescribedMounts(BootOf(g), g, true);
  }

  /** On a sound layout: every byte of a cluster's entry is in the first FAT,
      the regions follow one another, the cluster is in the volume, and a stored
      end mark reads back as the end of a chain, not as the disk-error code. */
  lemma LayoutGuarantees(g: Geometry, c: nat, s: nat)
    requires g.WellFormed() && g.IsCluster(c) && g.InCluster(c, s)
    ensures match g.fsType
            case FAT12 => g.InFat(g.fatbase + (c + c / 2) / 512) && g.InFat(g.fatbase + (c + c / 2 + 1) / 512)
            case FAT16 => g.InFat(g.fatbase + c / 256)
            case FAT32 => g.InFat(g.fatbase + c / 128)
    ensures g.volbase < g.fatbase && g.fatbase + g.fsize <= g.FatEnd() <= g.database <= s < g.total
    ensures !g.fsType.FAT32? ==> g.FatEnd() == g.dirbase && g.dirbase + g.nRootdir / 16 == g.database
    ensures g.FatEnd() == g.fatbase + g.nFats * g.fsize && g.database == g.FatEnd() + g.nRootdir / 16
    ensures g.database + g.csize * (c - 2) <= s < g.database + g.csize * (c - 2) + g.csize
    ensures g.nFatent <= g.Eoc() == DISK_ERROR % EntryValues(g.fsType) < DISK_ERROR
    ensures g.Eoc() == match g.fsType case FAT12 => 0xFFF case FAT16 => 0xFFFF case FAT32 => 0xFFF_FFFF
  {
    g.ClusterInData(c, s);
    g.DataOrder(c);
    EntryOnFat(g, c);
    hide PowerOfTwo, FatSize, Geometry.ClusterSector;
  }

  lemma EntryOnFat(g: Geometry, c: nat)
    requires g.WellFormed() && g.IsCluster(c)
    ensures match g.fsType
            case FAT12 => g.InFat(g.fatbase + (c + c / 2) / 512) && g.InFat(g.fatbase + (c + c / 2 + 1) / 512)
            case FAT16 => g.InFat(g.fatbase + c / 256)
            case FAT32 => g.InFat(g.fatbase + c / 128)
  {
    hide PowerOfTwo;
    Span12(c);
  }

  // ---- finding the volume -----------------------------------------------------------

  datatype BootKind = FatBoot | OtherBoot | NoBoot

  /** "FAT32", padded to eight characters. */
  const FAT32_MARK: seq<Byte> := [0x46, 0x41, 0x54, 0x33, 0x32, 0x20, 0x20, 0x20]

  /** What a sector is: the boot sector of a FAT volume, known by its mark or, on
      old volumes without one, by plausible numbers; another boot sector; none. */
  function CheckBoot(w: Sector): BootKind {
    var signed := LdWord(w, 510) == 0xAA55;
    if w[0] in {0xEB, 0xE9, 0xE8} && ((signed && w[82..90] == FAT32_MARK) || Plausible(w)) then FatBoot
    else if signed then OtherBoot
    else NoBoot
  }

  predicate Plausible(w: Sector) {
    && LdWord(w, 11) == 512 && w[13] != 0 && BitAnd(w[13], w[13] - 1) == 0 && LdWord(w, 14) != 0
    && 1 <= w[16] <= 2 && LdWord(w, 17) != 0
    && (LdWord(w, 19) >= 128 || LdDword(w, 32) >= 0x1_0000) && LdWord(w, 22) != 0
  }

  /** First sector of partition `i`, by the partition table. */
  function PartitionStart(w: Sector, i: nat): nat
    requires i < 4
  {
    LdDword(w, 446 + 16 * i + 8)
  }

  /** The first partition from `i` on that holds a FAT volume. */
  function FindPartition(m: seq<Sector>, i: nat): (r: Option<nat>)
    requires m != [] && i <= 4
    ensures r.Some? ==> r.value < |m| && CheckBoot(m[r.value]).FatBoot?
    decreases 4 - i
  {
    if i == 4 then None
    else
      var p := PartitionStart(m[0], i);
      if p != 0 && p < |m| && CheckBoot(m[p]).FatBoot? then Some(p) else FindPartition(m, i + 1)
  }

  /** Where the volume of a drive starts: at sector 0 or with a partition. */
  function FindVolume(m: seq<Sector>): (r: Option<nat>)
    ensures r.Some? ==> r.value < |m| && CheckBoot(m[r.value]).FatBoot?
  {
    if m == [] then None
    else
      match CheckBoot(m[0])
      case FatBoot => Some(0)
      case NoBoot => None
      case OtherBoot => FindPartition(m, 0)
  }

  /** Mounting a drive that reads without error. */
  function MountDrive(m: seq<Sector>): Option<Geometry> {
    var b := FindVolume(m);
    if b.None? then None else ParseBoot(m[b.value], b.value, |m|, b.value + 1 < |m|)
  }

  /** The same of whole drives: whatever is mounted has a sound layout exactly
      when the boot sector that was found meets those three conditions. */
  lemma MountedDrive(m: seq<Sector>)
    requires |m| <= DISK_ERROR && MountDrive(m).Some?
    ensures var b := FindVolume(m).value;
            b < |m| && var w := m[b];
            && CheckBoot(w).FatBoot?
            && (MountDrive(m).value.WellFormed() <==>
                  NoWrap(w) && OnDrive(w, b, |m|) && (MountDrive(m).value.fsInfo ==> LdWord(w, 14) > 1))
  {
    hide ParseBoot, Geometry.WellFormed, CheckBoot, FindVolume;
    var b := FindVolume(m).value;
    MountedLayout(m[b], b, |m|, b + 1 < |m|);
  }

  /** The numbers of a FAT12/16 boot sector without a mark. */
  ghost predicate OldBoot(w: Sector) {
    && Field(w, 11, 2) == 512 && PowerOfTwo(w[13]) && Field(w, 14, 2) > 0 && 1 <= w[16] <= 2 && Field(w, 17, 2) > 0
    && (Field(w, 19, 2) >= 128 || Field(w, 32, 4) >= 0x1_0000) && Field(w, 22, 2) > 0
  }

  /** What marks a boot sector: 55 AA at its end, and for FAT a jump with the text
      "FAT32   " at 82, or with the numbers of an old volume, 55 AA or not. */
  lemma BootKinds(w: Sector)
    ensures CheckBoot(w).FatBoot? <==>
            && (w[0] == 0xEB || w[0] == 0xE9 || w[0] == 0xE8)
            && ((w[510..512] == [0x55, 0xAA] && w[82..90] == [0x46, 0x41, 0x54, 0x33, 0x32, 0x20, 0x20, 0x20])
                || OldBoot(w))
    ensures !CheckBoot(w).FatBoot? ==> (CheckBoot(w).OtherBoot? <==> w[510..512] == [0x55, 0xAA])
  {
    hide LdWord, LdDword, Field, BitAnd;
    PlausibleNumbers(w);
    EndMark(w);
  }

  lemma EndMark(w: Sector)
    ensures LdWord(w, 510) == 0xAA55 <==> w[510..512] == [0x55, 0xAA]
  {
  }

  lemma PlausibleNumbers(w: Sector)
    ensures Plausible(w) <==> OldBoot(w)
  {
    hide LdWord, LdDword, Field, BitAnd;
    Fields(w, 11);
    Fields(w, 14);
    Fields(w, 17);
    Fields(w, 19);
    Fields(w, 22);
    Fields(w, 32);
    if w[13] > 0 { SingleBit(w[13]); }
  }

  /** The sector that entry `i` of the partition table names holds a FAT volume. */
  ghost predicate FatPartition(m: seq<Sector>, i: nat)
    requires m != [] && i < 4
  {
    var p := Field(m[0], 454 + 16 * i, 4);
    0 < p < |m| && CheckBoot(m[p]).FatBoot?
  }

  /** The volume is the drive itself, or the first of the four partitions that
      holds one. */
  lemma FoundVolume(m: seq<Sector>, b: nat)
    requires m != []
    ensures FindVolume(m) == Some(b) <==>
            if CheckBoot(m[0]).FatBoot? then b == 0
            else
              && CheckBoot(m[0]).OtherBoot?
              && exists i: nat :: i < 4 && FirstFat(m, 0, i, b)
  {
    hide CheckBoot, LdDword, Field;
    Partitions(m, 0, b);
  }

  /** Partition `i` is the first from `k` on that holds a FAT volume; it starts at
      sector `b`. */
  ghost predicate FirstFat(m: seq<Sector>, k: nat, i: nat, b: nat)
    requires m != [] && i < 4
  {
    k <= i && FatPartition(m, i) && b == Field(m[0], 454 + 16 * i, 4) && forall j :: k <= j < i ==> !FatPartition(m, j)
  }

  lemma {:induction false} Partitions(m: seq<Sector>, k: nat, b: nat)
    requires m != [] && k <= 4
    ensures FindPartition(m, k) == Some(b) <==> exists i: nat :: i < 4 && FirstFat(m, k, i, b)
    decreases 4 - k
  {
    hide CheckBoot, LdDword, Field;
    if k < 4 {
      Fields(m[0], 454 + 16 * k);
      if FatPartition(m, k) {
        assert FirstFat(m, k, k, Field(m[0], 454 + 16 * k, 4));
        assert forall i: nat :: i < 4 && FirstFat(m, k, i, b) ==> i == k;
      } else {
        Partitions(m, k + 1, b);
        if FindPartition(m, k) == Some(b) {
          var i: nat :| i < 4 && FirstFat(m, k + 1, i, b);
          assert FirstFat(m, k, i, b);
        }
        if i: nat :| i < 4 && FirstFat(m, k, i, b) { assert FirstFat(m, k + 1, i, b); }
      }
    }
  }

  /** So whole drives: a sound layout is mounted exactly when the volume found
      starts where the layout says and its boot sector describes it. */
  lemma DriveExact(m: seq<Sector>, g: Geometry)
    requires g.WellFormed() && |m| == g.total
    ensures MountDrive(m) == Some(g) <==>
            FindVolume(m) == Some(g.volbase) && Describes(m[g.volbase], g, g.volbase + 1 < |m|)
  {
    hide ParseBoot, Describes, Geometry.WellFormed, CheckBoot, FindVolume;
    var v := FindVolume(m);
    if v.Some? {
      var b := v.value;
      if ParseBoot(m[b], b, |m|, b + 1 < |m|).Some? { MountedFields(m[b], b, |m|, b + 1 < |m|); }
      if b == g.volbase { MountExact(m[b], g, b + 1 < |m|); }
    }
  }

  /** A formatted drive is found and mounted with the layout it was given. FAT12
      and FAT16 carry no mark: their volume must have 128 sectors and a FAT size
      that fits in 16 bits to be known. */
  lemma FormattedDrive(m: seq<Sector>, g: Geometry)
    requires Storable(g) && g.volbase == 0 && |m| == g.total && m != [] && m[0] == BootOf(g)
    requires g.fsType.FAT32? || (VolumeSectors(g) >= 128 && g.fsize < WORD_VALUES)
    ensures MountDrive(m) == Some(g)
  {
    hide ParseBoot, CheckBoot, BootOf;
    VolumeEnds(g);
    FormatMounts(g);
    KnownBoot(g);
    assert 1 < |m|;
  }

  lemma KnownBoot(g: Geometry)
    requires Storable(g) && (g.fsType.FAT32? || (VolumeSectors(g) >= 128 && g.fsize < WORD_VALUES))
    ensures CheckBoot(BootOf(g)).FatBoot?
  {
    hide CommonFields, SizeField, FatField, Fields32, LdWord, LdDword, PowerOfTwo, MaxClusters, FatSize, BitAnd;
    hide VolumeSectors;
    RootAndBits(g);
    var c := CommonFields(g);
    var v := SizeField(c, g.fsType.FAT32?, VolumeSectors(g));
    var w := FatField(v, g.fsType.FAT32?, g.fsize);
    SameWords(c, v);
    SameWords(v, w);
    if g.fsType.FAT32? { SameWords(w, BootOf(g)); } else { SameTotal(v, w); }
  }

  /** A boot sector, field by field, with jump, mark and signature. */
  function BootSector(csize: Byte, nFats: Byte, nrsv: Byte, nRoot: Byte, tsect: seq<Byte>, fsize: seq<Byte>, info: Byte)
    : (w: Sector)
    requires |tsect| == |fsize| == 4
  {
    seq(512, i requires 0 <= i < 512 =>
      if i == 0 then 0xEB
      else if i == 12 then 2 else if i == 13 then csize else if i == 14 then nrsv else if i == 16 then nFats
      else if i == 17 then nRoot else if 32 <= i < 36 then tsect[i - 32] else if 36 <= i < 40 then fsize[i - 36]
      else if i == 48 then info else if 82 <= i < 90 then FAT32_MARK[i - 82]
      else if i == 510 then 0x55 else if i == 511 then 0xAA else 0)
  }

  lemma NoBits(x: nat)
    ensures BitAnd(x, 0) == 0
  {
  }

  lemma BootFields(csize: Byte, nFats: Byte, nrsv: Byte, nRoot: Byte, tsect: seq<Byte>, fsize: seq<Byte>, info: Byte)
    requires |tsect| == |fsize| == 4
    ensures var w := BootSector(csize, nFats, nrsv, nRoot, tsect, fsize, info);
            && w[13] == csize && w[16] == nFats && LdWord(w, 11) == 512
            && LdWord(w, 14) == nrsv && LdWord(w, 17) == nRoot && LdWord(w, 48) == info
            && LdWord(w, 19) == LdWord(w, 22) == LdWord(w, 42) == 0
            && LdDword(w, 32) == LdDword(tsect, 0) && LdDword(w, 36) == LdDword(fsize, 0)
            && CheckBoot(w).FatBoot?
  {
    var w := BootSector(csize, nFats, nrsv, nRoot, tsect, fsize, info);
    assert LdWord(w, 510) == 0xAA55 && w[0] == 0xEB;
    assert forall i :: 0 <= i < 8 ==> w[82..90][i] == FAT32_MARK[i];
  }

  /** A drive of `n` sectors with boot sector `w` and nothing else on it. */
  function DriveWith(w: Sector, n: nat): (m: seq<Sector>)
    ensures |m| == n && (n > 0 ==> m[0] == w)
  {
    if n == 0 then [] else [w] + ZeroSectors(n - 1)
  }

  /** The 32-bit product of FAT size and FAT count can wrap to 0: the volume is
      mounted with its data area inside the first FAT. */
  lemma WrappedFatMounts()
    ensures var m := MountDrive(DriveWith(BootSector(1, 2, 1, 16, [100, 0, 0, 0], [0, 0, 0, 0x80], 0), 100));
            m.Some? && m.value.database < m.value.fatbase + m.value.fsize && !m.value.WellFormed()
  {
    hide BootSector, LdWord, CheckBoot, DriveWith;
    BootFields(1, 2, 1, 16, [100, 0, 0, 0], [0, 0, 0, 0x80], 0);
    assert LdDword([100, 0, 0, 0], 0) == 100 && LdDword([0, 0, 0, 0x80], 0) == 0x8000_0000;
    assert BitAnd(1, 0) == 0;
  }

  /** A FAT32 volume with one reserved sector and FSInfo in use is mounted with
      the FSInfo sector on top of the first FAT sector. */
  lemma FsInfoOnFatMounts()
    ensures var m := MountDrive(DriveWith(BootSector(1, 1, 1, 0, [0, 0, 2, 0], [0, 5, 0, 0], 1), 0x2_0000));
            m.Some? && m.value.fsInfo && m.value.volbase + 1 == m.value.fatbase && !m.value.WellFormed()
  {
    hide BootSector, LdWord, CheckBoot, DriveWith;
    BootFields(1, 1, 1, 0, [0, 0, 2, 0], [0, 5, 0, 0], 1);
    assert LdDword([0, 0, 2, 0], 0) == 0x2_0000 && LdDword([0, 5, 0, 0], 0) == 0x500;
    assert BitAnd(1, 0) == 0;
  }

  /** A volume that claims more sectors than the drive has is mounted, with
      clusters behind the end of the drive. */
  lemma OversizedMounts()
    ensures var m := MountDrive(DriveWith(BootSector(1, 1, 1, 16, [100, 0, 0, 0], [1, 0, 0, 0], 0), 50));
            && m.Some? && !m.value.WellFormed()
            && exists c :: m.value.IsCluster(c) && m.value.ClusterSector(c) >= m.value.total
  {
    hide BootSector, LdWord, CheckBoot, DriveWith, BitAnd;
    BootFields(1, 1, 1, 16, [100, 0, 0, 0], [1, 0, 0, 0], 0);
    assert LdDword([100, 0, 0, 0], 0) == 100 && LdDword([1, 0, 0, 0], 0) == 1;
    NoBits(1);
    var g := MountDrive(DriveWith(BootSector(1, 1, 1, 16, [100, 0, 0, 0], [1, 0, 0, 0], 0), 50)).value;
    assert g.nFatent == 99 && g.database == 3 && g.csize == 1;
    assert g.IsCluster(98) && g.ClusterSector(98) == 99;
  }

  /** Free count and hint as mount takes them from an FSInfo sector. */
  function LoadFsInfo(s: Sector): (nat, nat) {
    if LdWord(s, 510) == 0xAA55 && LdDword(s, 0) == 0x41615252 && LdDword(s, 484) == 0x61417272
    then (LdDword(s, 488), LdDword(s, 492))
    else (DISK_ERROR, DISK_ERROR)
  }

  /** The FSInfo sector byte by byte: "RRaA", "rrAa" at 484 and 55 AA mark it; free
      count and hint are at 488 and 492. */
  lemma FsInfoBytes(s: Sector)
    ensures LoadFsInfo(s) ==
            if && s[0..4] == [0x52, 0x52, 0x61, 0x41] && s[484..488] == [0x72, 0x72, 0x41, 0x61]
               && s[510..512] == [0x55, 0xAA]
            then (Field(s, 488, 4), Field(s, 492, 4)) else (0xFFFF_FFFF, 0xFFFF_FFFF)
  {
    hide LdDword, Field;
    EndMark(s);
    Mark(s, 0, [0x52, 0x52, 0x61, 0x41]);
    Mark(s, 484, [0x72, 0x72, 0x41, 0x61]);
    assert LdDword([0x52, 0x52, 0x61, 0x41], 0) == 0x4161_5252 by { MarkValues(); }
    assert LdDword([0x72, 0x72, 0x41, 0x61], 0) == 0x6141_7272 by { MarkValues(); }
    Fields(s, 488);
    Fields(s, 492);
  }

  lemma MarkValues()
    ensures LdDword([0x52, 0x52, 0x61, 0x41], 0) == 0x4161_5252
    ensures LdDword([0x72, 0x72, 0x41, 0x61], 0) == 0x6141_7272
  {
  }

  lemma Mark(s: Sector, i: nat, b: seq<Byte>)
    requires i + 4 <= 512 && |b| == 4
    ensures LdDword(s, i) == LdDword(b, 0) <==> s[i..i + 4] == b
  {
    if LdDword(s, i) == LdDword(b, 0) {
      Digits(s[i], s[i + 1], s[i + 2], s[i + 3], b[0], b[1], b[2], b[3]);
    }
    assert s[i..i + 4] == [s[i], s[i + 1], s[i + 2], s[i + 3]];
  }

  lemma Digits(a0: Byte, a1: Byte, a2: Byte, a3: Byte, b0: Byte, b1: Byte, b2: Byte, b3: Byte)
    requires a0 as int + 256 * (a1 as int) + 0x1_0000 * (a2 as int) + 0x100_0000 * (a3 as int) ==
             b0 as int + 256 * (b1 as int) + 0x1_0000 * (b2 as int) + 0x100_0000 * (b3 as int)
    ensures a0 == b0 && a1 == b1 && a2 == b2 && a3 == b3
  {
    Pair(a0 as int + 256 * (a1 as int), a2 as int + 256 * (a3 as int),
         b0 as int + 256 * (b1 as int), b2 as int + 256 * (b3 as int), 0x1_0000);
    Pair(a0, a1, b0, b1, 256);
    Pair(a2, a3, b2, b3, 256);
  }

  lemma Pair(x: nat, y: nat, u: nat, v: nat, d: nat)
    requires x < d && u < d && x + d * y == u + d * v
    ensures x == u && y == v
  {
    RemainderUnique(x + d * y, d, y, x);
    RemainderUnique(x + d * y, d, v, u);
  }

  /** A flush and a mount hand on the allocator's counters: whatever sector holds
      them, mounting reads them from it, and the flushed one does. */
  lemma FsInfoRoundTrip(free: nat, last: nat)
    requires free < DWORD_VALUES && last < DWORD_VALUES
    ensures LoadFsInfo(FsInfoSector(free, last)) == (free, last)
    ensures forall s: Sector :: FsInfoHolds(s, free, last) ==> LoadFsInfo(s) == (free, last)
  {
    hide FsInfoSector, LdWord, LdDword;
  }
}
