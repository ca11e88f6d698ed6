/** An open file: a byte array with a cursor, kept in a cluster chain and one
    private sector buffer. */
module FileObjects {
  import opened Bytes
  import opened Layout
  import opened Chains
  import opened Volumes
  import opened FatCodec
  import opened FileData

  /** Sectors as the file means them: the volume under the file's dirty buffer. */
  ghost function Image(st: seq<Sector>, dirty: bool, s: nat, w: Sector): (r: seq<Sector>)
    ensures |r| == |st|
  {
    if dirty && s < |st| then st[s := w] else st
  }

  /** The chain is a chain of the FAT, holds the file's bytes, and together
      with the free clusters makes up the pool. */
  ghost predicate CoreOf(g: Geometry, t: Table, chain: seq<nat>, pool: set<nat>, sclust: nat, objsize: nat) {
    && IsChain(t, chain)
    && FreeSet(t) + Elems(chain) == pool
    && sclust == (if chain == [] then 0 else chain[0])
    && objsize <= 512 * Capacity(g, chain) && objsize < DWORD_VALUES
  }

  /** Nothing outside the pool changed: neither a sector off its clusters nor a
      FAT entry of another cluster. */
  ghost predicate Kept(g: Geometry, pool: set<nat>, st: seq<Sector>, t: Table, su: seq<Sector>, u: Table) {
    && |su| == |st| && |u| == |t|
    && (forall s :: 0 <= s < |st| && g.ClearOf(pool, s) ==> su[s] == st[s])
    && (forall c :: 0 <= c < |t| && c !in pool ==> u[c] == t[c])
  }

  /** An attribute byte with the archive bit set. */
  function Archived(a: Byte): Byte {
    if a as int / 32 % 2 == 1 then a else a + 32
  }

  /** Two sectors that differ at most in what the entry at offset `o` says of its
      file's contents: archive bit, access date, start cluster, time stamp and
      size. Name, kind, creation time and every other entry are the same. */
  ghost predicate SameButEntry(e: Sector, r: Sector, o: nat) {
    && o + 32 <= 512
    && (forall i :: 0 <= i < 512 && i != o + 11 && !(o + 18 <= i < o + 32) ==> r[i] == e[i])
    && (r[o + 11] == e[o + 11] || r[o + 11] == Archived(e[o + 11]))
  }

  /** Nothing outside the pool changed but such an entry in sector `ds`. */
  ghost predicate KeptBut(g: Geometry, pool: set<nat>, ds: nat, o: nat, st: seq<Sector>, t: Table, su: seq<Sector>,
                          u: Table) {
    && |su| == |st| && |u| == |t|
    && (forall s :: 0 <= s < |st| && s != ds && g.ClearOf(pool, s) ==> su[s] == st[s])
    && (forall c :: 0 <= c < |t| && c !in pool ==> u[c] == t[c])
    && ds < |st| && SameButEntry(st[ds], su[ds], o)
  }

  lemma KeptIsKeptBut(g: Geometry, pool: set<nat>, ds: nat, o: nat, st: seq<Sector>, t: Table, su: seq<Sector>,
                      u: Table)
    requires Kept(g, pool, st, t, su, u) && ds < |st| && g.ClearOf(pool, ds) && o + 32 <= 512
    ensures KeptBut(g, pool, ds, o, st, t, su, u) && su[ds] == st[ds]
  {
    hide Geometry.ClearOf;
  }

  lemma WholeMove(k: nat, cc: nat)
    ensures 512 * cc % 512 == 0 && 512 * cc / 512 == cc && 512 * k / 512 == k
    ensures 512 * k + 512 * cc == 512 * (k + cc) && (512 * k + 512 * cc) % 512 == 0
  {
  }

  /** Writing sectors of the pool keeps everything else. */
  lemma BlitKept(g: Geometry, pool: set<nat>, st: seq<Sector>, t: Table, s: nat, data: seq<Sector>)
    requires s + |data| <= |st| && forall i :: s <= i < s + |data| ==> !g.ClearOf(pool, i)
    ensures Kept(g, pool, st, t, Blit(st, s, data), t)
  {
    hide Geometry.ClearOf;
  }

  lemma KeptChain(g: Geometry, pool: set<nat>, st: seq<Sector>, t: Table, su: seq<Sector>, u: Table, sv: seq<Sector>,
                  v: Table)
    requires Kept(g, pool, st, t, su, u) && Kept(g, pool, su, u, sv, v)
    ensures Kept(g, pool, st, t, sv, v)
  {
    hide Geometry.ClearOf;
  }

  lemma KeptSame(g: Geometry, pool: set<nat>, st: seq<Sector>, t: Table)
    ensures Kept(g, pool, st, t, st, t)
  {
  }

  lemma KeptButChain(g: Geometry, pool: set<nat>, ds: nat, o: nat, st: seq<Sector>, t: Table, su: seq<Sector>, u: Table,
                     sv: seq<Sector>, v: Table)
    requires KeptBut(g, pool, ds, o, st, t, su, u) && KeptBut(g, pool, ds, o, su, u, sv, v)
    ensures KeptBut(g, pool, ds, o, st, t, sv, v)
  {
    hide Geometry.ClearOf;
  }

  lemma KeptNothing(g: Geometry, pool: set<nat>, ds: nat, o: nat, st: seq<Sector>, t: Table)
    requires ds < |st| && o + 32 <= 512
    ensures Kept(g, pool, st, t, st, t) && KeptBut(g, pool, ds, o, st, t, st, t)
  {
  }

  /** `chain` is the chain of the file the entry at `o` tells of, and long enough. */
  ghost predicate EntryFits(g: Geometry, t: Table, e: seq<Byte>, o: nat, chain: seq<nat>)
    requires o + 32 <= |e|
  {
    && IsChain(t, chain) && LoadClust(g, e, o) == (if chain == [] then 0 else chain[0])
    && LdDword(e, o + 28) <= 512 * Capacity(g, chain)
  }

  class FileObject {
    const fs: Volume
    const buf: array<Byte>
    const canRead: bool
    const canWrite: bool
    const dirSect: nat     // sector of the directory entry
    const dirOfs: nat      // its offset in that sector
    var sclust: nat        // first cluster; 0: none
    var objsize: nat       // file size
    var fptr: nat          // read/write position
    var clust: nat         // cluster of the byte before fptr (not used at 0)
    var sect: nat          // sector in buf; 0: none
    var dirty: bool        // buf has to be written back
    var modified: bool     // the directory entry has to be updated
    var err: FResult       // a failed operation stops later ones
    ghost var chain: seq<nat>
    ghost const pool: set<nat>  // the clusters this file holds or could be given

    ghost predicate InPool(s: nat) {
      exists c :: c in pool && fs.geo.InCluster(c, s)
    }

    /** What holds even after a failed operation. */
    ghost predicate Base()
      reads this, buf, fs, fs.win
    {
      && fs.Valid()
      && buf != fs.win && buf.Length == 512
      && (sect != 0 ==> InPool(sect))
      && (dirty ==> sect != 0)
      && fs.geo.ClearOf(pool, fs.winsect)
      && fs.geo.ClearOf(pool, dirSect)
      && dirSect < fs.geo.total && !fs.geo.InFat(dirSect) && !fs.geo.Shadow(dirSect)
      && dirOfs % 32 == 0 && dirOfs + 32 <= 512
      && !fs.stale
    }

    ghost predicate Core()
      reads this, buf, fs, fs.win
      requires Base()
    {
      CoreOf(fs.geo, fs.Table(), chain, pool, sclust, objsize)
    }

    /** A clean buffer repeats its sector. */
    ghost predicate Coherent()
      reads this, buf, fs, fs.win
      requires Base()
    {
      !dirty && sect != 0 && sect < fs.geo.total ==> buf[..] == fs.Store()[sect]
    }

    /** Cluster and buffer belong to the position. */
    ghost predicate Settled()
      reads this, fs
    {
      && fptr <= objsize && fs.geo.csize > 0
      && (fptr > 0 ==> ClusterIndex(fs.geo, fptr) < |chain| && clust == chain[ClusterIndex(fs.geo, fptr)])
      && (fptr % 512 != 0 ==> sect == SectAt(fs.geo, chain, fptr / 512))
    }

    ghost predicate Valid()
      reads this, buf, fs, fs.win
    {
      && Base()
      && (err.Ok? ==> Core() && Coherent() && Settled() && (modified || (!dirty && EntryAgrees(fs.Store()[dirSect]))))
    }

    /** The directory entry tells the file's first cluster and size. */
    ghost predicate EntryAgrees(e: Sector)
      reads this
      requires dirOfs + 32 <= 512
    {
      LoadClust(fs.geo, e, dirOfs) == sclust && LdDword(e, dirOfs + 28) == objsize
    }

    ghost function Content(): (r: seq<Byte>)
      reads this, buf, fs, fs.win
      requires Base()
      ensures |r| == objsize
    {
      FileBytes(fs.geo, Image(fs.Store(), dirty, sect, buf[..]), chain, objsize)
    }

    /** Opens the file whose directory entry shows in the window at `ofs`. Opening
        checks no chain; on an entry that `chain` fits, the file is valid. */
    constructor (fs: Volume, ofs: nat, read: bool, write: bool, ghost chain: seq<nat>)
      requires fs.Valid() && ofs % 32 == 0 && ofs + 32 <= 512
      requires fs.winsect < fs.geo.total && !fs.geo.InFat(fs.winsect) && !fs.geo.Shadow(fs.winsect) && !fs.stale
      requires fs.geo.ClearOf(FreeSet(fs.Table()) + Elems(chain), fs.winsect)
      ensures Base() && err.Ok? && fresh(buf)
      ensures EntryFits(fs.geo, fs.Table(), fs.win[..], ofs, chain) ==> Valid()
      ensures this.fs == fs && this.chain == chain && canRead == read && canWrite == write
      ensures dirSect == fs.winsect && dirOfs == ofs
      ensures fptr == 0 && objsize == LdDword(fs.win[..], ofs + 28) && sclust == LoadClust(fs.geo, fs.win[..], ofs)
      ensures Content() == FileBytes(fs.geo, fs.Store(), chain, objsize)
    {
      hide Volume.Valid, Volume.Fat, Volume.Store, Entries, FileBytes, LoadClust, LdDword;
      fs.GeoFacts();
      this.fs := fs;
      this.chain := chain;
      pool := FreeSet(fs.Table()) + Elems(chain);
      canRead, canWrite := read, write;
      dirSect, dirOfs := fs.winsect, ofs;
      sclust := LoadClust(fs.geo, fs.win[..], ofs);
      objsize := LdDword(fs.win[..], ofs + 28);
      fptr, clust, sect := 0, 0, 0;
      dirty, modified, err := false, false, Ok;
      buf := new Byte[512](_ => 0);
      new;
      fs.WinShows();
      fs.EntryCounts();
    }

    lemma PoolSector(s: nat)
      requires Base() && InPool(s)
      ensures fs.geo.database <= s < fs.geo.total && s != fs.winsect && s != dirSect
    {
      fs.GeoFacts();
      var c :| c in pool && fs.geo.InCluster(c, s);
      fs.geo.ClusterInData(c, s);
    }

    // ---- the buffer -------------------------------------------------------

    /** Writes a dirty buffer back. */
    method Flush() returns (res: FResult)
      requires Base()
      modifies this`dirty, fs`media, fs`faults
      ensures Base() && fs.faults >= old(fs.faults)
      ensures fs.Fat() == old(fs.Fat())
      ensures res.Ok? ==> !dirty && fs.Store() == Image(old(fs.Store()), old(dirty), sect, buf[..])
      ensures res.Ok? ==> Image(fs.Store(), dirty, sect, buf[..]) == old(Image(fs.Store(), dirty, sect, buf[..]))
      ensures res.Ok? ==> (old(Coherent()) ==> Coherent())
      ensures res.Ok? ==> Kept(fs.geo, pool, old(fs.Store()), old(fs.Table()), fs.Store(), fs.Table())
      ensures !res.Ok? ==> res.DiskErr? && fs.faults > old(fs.faults) && dirty
    {
      hide Volume.Valid, Volume.Fat, Volume.Store;
      res := Ok;
      if dirty {
        PoolSector(sect);
        assert !fs.geo.ClearOf(pool, sect);
        var ok := fs.WriteData(sect, [buf[..]]);
        if !ok { return DiskErr; }
        dirty := false;
      }
    }

    /** Fills the clean buffer with sector `s` of the pool. */
    method Load(s: nat) returns (res: FResult)
      requires Base() && !dirty && InPool(s)
      modifies this`sect, buf, fs`faults
      ensures Base() && fs.faults >= old(fs.faults)
      ensures fs.Fat() == old(fs.Fat()) && fs.Store() == old(fs.Store())
      ensures res.Ok? ==> sect == s < fs.geo.total && buf[..] == fs.Store()[s]
      ensures !res.Ok? ==> res.DiskErr? && fs.faults > old(fs.faults)
    {
      hide Volume.Valid, Volume.Fat, Volume.Store;
      res := Ok;
      PoolSector(s);
      var ok, data := fs.ReadData(s, 1);
      forall i | 0 <= i < 512 { buf[i] := data[0][i]; }
      assert buf[..] == data[0];
      if !ok { return DiskErr; }
      sect := s;
    }

    /** `clust` is the cluster of the byte at `fptr`. */
    ghost predicate Entered()
      reads this, fs
    {
      && fs.geo.csize > 0 && ClusterNo(fs.geo, fptr) < |chain|
      && clust == chain[ClusterNo(fs.geo, fptr)]
    }

    lemma ChainFacts()
      requires Base() && Core()
      ensures fs.geo.WellFormed() && fs.geo.csize > 0 && PowerOfTwo(fs.geo.csize)
      ensures AllClusters(fs.geo, chain) && Distinct(chain)
      ensures forall i :: 0 <= i < |chain| ==> chain[i] in pool
    {
    }

    /** A sector of the file lies in the pool. */
    lemma FileSector(k: nat)
      requires Base() && Core() && k < Capacity(fs.geo, chain)
      ensures k / fs.geo.csize < |chain|
      ensures InPool(SectAt(fs.geo, chain, k))
      ensures fs.geo.database <= SectAt(fs.geo, chain, k) < fs.geo.total
    {
      hide CoreOf, Geometry.InCluster, Geometry.WellFormed, SectAt, FileObject.Base, AllClusters, Distinct;
      ChainFacts();
      SectInCluster(fs.geo, chain, k);
      assert chain[k / fs.geo.csize] in pool;
    }

    /** Where a position on a sector boundary stands in the chain. */
    lemma Position(k: nat, j: nat)
      requires Base() && Core() && Settled() && fptr == 512 * k && j == ClusterNo(fs.geo, fptr)
      ensures BitAnd(k, fs.geo.csize - 1) == PlaceInCluster(fs.geo, k)
      ensures k <= Capacity(fs.geo, chain) && j <= |chain|
      ensures fptr < objsize ==> j < |chain|
      ensures PlaceInCluster(fs.geo, k) != 0 ==> Entered()
      ensures PlaceInCluster(fs.geo, k) == 0 && j < |chain| ==> k < Capacity(fs.geo, chain)
      ensures PlaceInCluster(fs.geo, k) == 0 && j == |chain| ==> k == Capacity(fs.geo, chain)
      ensures fptr > 0 && PlaceInCluster(fs.geo, k) == 0 ==> 0 < j && clust == chain[j - 1]
      ensures fptr == 0 ==> j == 0 && PlaceInCluster(fs.geo, k) == 0
    {
      hide FreeSet, Elems, Distinct, Volume.Table, Volume.Valid, BitAnd, SectAt, FileObject.InPool;
      hide Geometry.ClearOf, IsChain, Geometry.WellFormed;
      fs.GeoFacts();
      var c := fs.geo.csize;
      MaskCluster(k, c);
      DivBound(k, c, |chain|);
      if fptr > 0 { BoundaryStep(fs.geo, fptr); }
      DivBound(k, c, |chain| + 1);
      if k == c * |chain| { RemainderUnique(k, c, |chain|, 0); }
    }

    /** What the FAT says after cluster `j - 1` of the chain. */
    lemma LinkAt(j: nat)
      requires Base() && Core() && 0 < j <= |chain|
      ensures fs.geo.IsCluster(chain[j - 1])
      ensures if j < |chain| then fs.Table()[chain[j - 1]] == chain[j] && fs.geo.IsCluster(chain[j])
              else fs.Table()[chain[j - 1]] >= fs.geo.nFatent
    {
    }

    // ---- reading ----------------------------------------------------------

    /** On a sector boundary: steps to the cluster of the next byte. */
    method EnterForRead() returns (res: FResult)
      requires Base() && Core() && Settled() && fptr % 512 == 0 && fptr < objsize
      modifies this`clust, fs`wflag, fs`media, fs`faults, fs`winsect, fs`stale, fs.win
      ensures Base() && fs.faults >= old(fs.faults)
      ensures fs.Fat() == old(fs.Fat()) && fs.Store() == old(fs.Store())
      ensures res.Ok? ==> Entered()
      ensures !res.Ok? ==> res.DiskErr? && fs.faults > old(fs.faults)
    {
      hide Volume.Valid, Volume.Fat, Volume.Store, Entries, FileObject.InPool, Geometry.ClearOf, CoreOf;
      hide FileObject.Settled, ClusterIndex, SectAt;
      hide Geometry.WellFormed, BitAnd, PowerOfTwo, ClusterNo, PlaceInCluster;
      fs.GeoFacts();
      fs.EntryCounts();
      ghost var j := ClusterNo(fs.geo, fptr);
      Position(fptr / 512, j);
      var csect := BitAnd(fptr / 512, fs.geo.csize - 1);
      if csect == 0 {
        HeadCluster();
        var clst;
        if fptr == 0 {
          clst := sclust;
        } else {
          LinkAt(j);
          clst := fs.GetFat(clust);
          WindowClear(old(fs.winsect), fs.winsect);
        }
        if clst == DISK_ERROR { return DiskErr; }
        assert clst == chain[j];  // so no internal error on a sound chain
        clust := clst;
      }
      res := Ok;
    }

    lemma HeadCluster()
      requires Base() && Core()
      ensures chain != [] ==> sclust == chain[0] && fs.geo.IsCluster(sclust)
      ensures chain == [] ==> sclust == 0 && objsize == 0
    {
    }

    /** Moving the window within the FAT keeps it off the pool. */
    lemma WindowClear(w0: nat, w: nat)
      requires fs.Valid() && fs.geo.ClearOf(pool, w0)
      requires w == w0 || fs.geo.InFat(w) || w == DISK_ERROR
      ensures fs.geo.ClearOf(pool, w)
    {
      fs.GeoFacts();
      forall c | c in pool ensures !fs.geo.InCluster(c, w) {
        if fs.geo.InCluster(c, w) { fs.geo.ClusterInData(c, w); }
      }
    }

    /** The sector the code computes from `clust` is the file's sector. */
    lemma CurrentSector(k: nat)
      requires Base() && Core() && Entered() && fptr / 512 == k
      ensures k < Capacity(fs.geo, chain)
      ensures fs.geo.ClusterSector(clust) != 0
      ensures fs.geo.ClusterSector(clust) + PlaceInCluster(fs.geo, k) == SectAt(fs.geo, chain, k)
      ensures PlaceInCluster(fs.geo, k) < fs.geo.csize
      ensures BitAnd(k, fs.geo.csize - 1) == PlaceInCluster(fs.geo, k)
      ensures InPool(SectAt(fs.geo, chain, k))
    {
      hide FileObject.Base, CoreOf, FileObject.InPool, Geometry.WellFormed, Distinct, Geometry.InCluster;
      ChainFacts();
      DivBound(k, fs.geo.csize, |chain|);
      FileSector(k);
      FirstSector(fs.geo, chain, k);
      MaskCluster(k, fs.geo.csize);
    }

    /** A run inside one cluster lies in the pool, off the window. */
    lemma PoolRun(k: nat, m: nat)
      requires Base() && Core() && k < Capacity(fs.geo, chain) && 0 < m && PlaceInCluster(fs.geo, k) + m <= fs.geo.csize
      ensures fs.geo.database <= SectAt(fs.geo, chain, k) && SectAt(fs.geo, chain, k) + m <= fs.geo.total
      ensures !(SectAt(fs.geo, chain, k) <= fs.winsect < SectAt(fs.geo, chain, k) + m)
      ensures forall i :: SectAt(fs.geo, chain, k) <= i < SectAt(fs.geo, chain, k) + m ==> !fs.geo.ClearOf(pool, i)
    {
      hide CoreOf, FileObject.InPool, Geometry.WellFormed, Distinct, SectAt, Capacity, Volume.Valid;
      ChainFacts();
      RunInCluster(fs.geo, chain, k, m);
      assert chain[k / fs.geo.csize] in pool;
      forall i | SectAt(fs.geo, chain, k) <= i < SectAt(fs.geo, chain, k) + m ensures !fs.geo.ClearOf(pool, i) {
        assert fs.geo.InCluster(chain[k / fs.geo.csize], i);
      }
    }

    /** The longest run of whole sectors of `n` bytes that stays in the current
        cluster. */
    method RunAhead(n: nat) returns (s: nat, cc: nat)
      requires Base() && Core() && Entered() && fptr % 512 == 0 && 512 <= n
      ensures 0 < cc && 512 * cc <= n && s == SectAt(fs.geo, chain, fptr / 512)
      ensures PlaceInCluster(fs.geo, fptr / 512) + cc <= fs.geo.csize && fptr / 512 < Capacity(fs.geo, chain)
      ensures 512 * (cc + 1) <= n ==> PlaceInCluster(fs.geo, fptr / 512) + cc == fs.geo.csize
      ensures fs.geo.database <= s && s + cc <= fs.geo.total && !(s <= fs.winsect < s + cc)
      ensures forall i :: s <= i < s + cc ==> !fs.geo.ClearOf(pool, i)
    {
      hide FileObject.Base, CoreOf, FileObject.InPool, Geometry.ClusterSector, Geometry.WellFormed;
      hide ClusterNo, PlaceInCluster, SectAt, Capacity, BitAnd, PowerOfTwo;
      CurrentSector(fptr / 512);
      var csect := BitAnd(fptr / 512, fs.geo.csize - 1);
      s := fs.geo.ClusterSector(clust) + csect;
      cc := n / 512;
      if csect + cc > fs.geo.csize { cc := fs.geo.csize - csect; }
      PoolRun(fptr / 512, cc);
    }

    /** Reads sectors and puts the dirty one over what the drive gave. */
    method ReadSectors(s: nat, cc: nat) returns (res: FResult, piece: seq<Byte>)
      requires Base() && fs.geo.database <= s && s + cc <= fs.geo.total && !(s <= fs.winsect < s + cc)
      modifies fs`faults
      ensures Base() && fs.faults >= old(fs.faults)
      ensures fs.Fat() == old(fs.Fat()) && fs.Store() == old(fs.Store())
      ensures res.Ok? ==> piece == Join(Image(fs.Store(), dirty, sect, buf[..])[s..s + cc])
      ensures !res.Ok? ==> res.DiskErr? && fs.faults > old(fs.faults)
    {
      hide Volume.Valid, Volume.Fat, Volume.Store, FileObject.InPool, Geometry.ClearOf, Join, Blit, Image;
      var ok, data := fs.ReadData(s, cc);
      if !ok { return DiskErr, []; }
      piece := Join(data);
      if dirty && s <= sect < s + cc {
        piece := Blit(piece, 512 * (sect - s), buf[..]);
      }
      DirtyOver(fs.Store(), dirty, sect, buf[..], s, cc, piece);
      res := Ok;
    }

    /** Whole sectors of one cluster straight into the caller's buffer. */
    method ReadDirect(n: nat) returns (res: FResult, piece: seq<Byte>)
      requires Base() && Core() && Entered() && fptr % 512 == 0 && 512 <= n && fptr + n <= objsize
      modifies this`fptr, fs`faults
      ensures Base() && fs.faults >= old(fs.faults)
      ensures fs.Fat() == old(fs.Fat()) && fs.Store() == old(fs.Store())
      ensures res.Ok? ==> 0 < |piece| <= n && fptr == old(fptr) + |piece|
      ensures res.Ok? ==> piece == Content()[old(fptr)..fptr] && Settled()
      ensures !res.Ok? ==> res.DiskErr? && fs.faults > old(fs.faults)
    {
      hide Volume.Valid, Volume.Fat, Volume.Store, Entries, FileObject.InPool, Geometry.ClearOf, CoreOf;
      hide ClusterNo, PlaceInCluster, SectAt, FileBytes, Capacity, Join, BitAnd, PowerOfTwo;
      hide Geometry.ClusterSector, Geometry.WellFormed, ClusterIndex, Image;
      hide AllClusters, Distinct;
      ghost var k := fptr / 512;
      ChainFacts();
      BufferShape();
      var s, cc := RunAhead(n);
      res, piece := ReadSectors(s, cc);
      if !res.Ok? { return; }
      WholeMove(k, cc);
      DirectPiece(k, cc);
      fptr := fptr + 512 * cc;
    }

    /** A run of whole sectors at the position is a slice of the content, and the
        position behind it stays in the cluster. */
    lemma DirectPiece(k: nat, cc: nat)
      requires Base() && Core() && Entered() && fptr == 512 * k && 0 < cc && 512 * (k + cc) <= objsize
      requires PlaceInCluster(fs.geo, k) + cc <= fs.geo.csize && k < Capacity(fs.geo, chain)
      ensures fs.geo.csize > 0 && ClusterIndex(fs.geo, 512 * (k + cc)) == ClusterNo(fs.geo, fptr)
      ensures SectAt(fs.geo, chain, k) + cc <= fs.geo.total
      ensures Join(Image(fs.Store(), dirty, sect, buf[..])[SectAt(fs.geo, chain, k)..SectAt(fs.geo, chain, k) + cc])
              == Content()[512 * k..512 * (k + cc)]
    {
      hide Volume.Valid, Volume.Fat, Volume.Store, Entries, FileObject.InPool, Geometry.ClearOf, CoreOf;
      hide ClusterNo, PlaceInCluster, SectAt, FileBytes, Capacity, Join, Geometry.WellFormed, ClusterIndex, Image;
      hide AllClusters, Distinct;
      ChainFacts();
      WholeMove(k, cc);
      ReadRun(fs.geo, Image(fs.Store(), dirty, sect, buf[..]), chain, objsize, k, cc);
      StayInCluster(fs.geo, 512 * k, 512 * (k + cc));
    }

    lemma BufferShape()
      requires Base()
      ensures fs.Valid() && buf.Length == 512 && buf != fs.win
    {
    }

    /** On a sector boundary: gets the current sector into the buffer. */
    method FetchSector() returns (res: FResult)
      requires Base() && Core() && Coherent() && Entered()
      modifies this`sect, this`dirty, buf, fs`media, fs`faults
      ensures Base() && fs.faults >= old(fs.faults)
      ensures fs.Fat() == old(fs.Fat())
      ensures res.Ok? ==> Coherent() && sect == SectAt(fs.geo, chain, fptr / 512)
      ensures res.Ok? ==> Kept(fs.geo, pool, old(fs.Store()), old(fs.Table()), fs.Store(), fs.Table())
      ensures res.Ok? && !old(dirty) ==> !dirty && fs.Store() == old(fs.Store())
      ensures res.Ok? ==> Image(fs.Store(), dirty, sect, buf[..]) == old(Image(fs.Store(), dirty, sect, buf[..]))
      ensures !res.Ok? ==> res.DiskErr? && fs.faults > old(fs.faults)
    {
      hide Volume.Valid, Volume.Fat, Volume.Store, Entries, FileObject.InPool, Geometry.ClearOf, CoreOf;
      hide SectAt, Geometry.ClusterSector, ClusterNo, PlaceInCluster, BitAnd;
      CurrentSector(fptr / 512);
      var s := fs.geo.ClusterSector(clust) + BitAnd(fptr / 512, fs.geo.csize - 1);
      res := Ok;
      if sect != s {
        res := Flush();
        if !res.Ok? { return; }
        res := Load(s);
        if !res.Ok? { return; }
      }
      sect := s;
    }

    /** Bytes from the buffer, up to the end of its sector. */
    method ReadBuffered(n: nat) returns (piece: seq<Byte>)
      requires Base() && Core() && Coherent() && Entered() && sect == SectAt(fs.geo, chain, fptr / 512)
      requires 0 < n && fptr + n <= objsize
      modifies this`fptr
      ensures Base() && 0 < |piece| <= n && fptr == old(fptr) + |piece|
      ensures piece == Content()[old(fptr)..fptr] && Settled()
    {
      hide Volume.Valid, Volume.Fat, Volume.Store, FileObject.InPool, Geometry.ClearOf, CoreOf;
      hide SectAt, FileBytes, ClusterIndex, Capacity, ClusterNo;
      CurrentSector(fptr / 512);
      FileSector(fptr / 512);
      BufferShape();
      var rcnt := 512 - fptr % 512;
      if rcnt > n { rcnt := n; }
      piece := buf[fptr % 512..fptr % 512 + rcnt];
      ghost var image := Image(fs.Store(), dirty, sect, buf[..]);
      assert image[sect] == buf[..];
      SectorSlice(fs.geo, image, chain, objsize, fptr, rcnt);
      StayInCluster(fs.geo, fptr, fptr + rcnt);
      fptr := fptr + rcnt;
    }

    /** One round of the read loop: some bytes at the position, none skipped. */
    method ReadStep(n: nat) returns (res: FResult, piece: seq<Byte>)
      requires Base() && Core() && Coherent() && Settled() && 0 < n && fptr + n <= objsize
      modifies this`clust, this`sect, this`dirty, this`fptr, buf
      modifies fs`wflag, fs`media, fs`faults, fs`winsect, fs`stale, fs.win
      ensures Base() && fs.faults >= old(fs.faults)
      ensures fs.Fat() == old(fs.Fat())
      ensures res.Ok? ==> Core() && Coherent() && Settled() && Content() == old(Content())
      ensures res.Ok? ==> 0 < |piece| <= n && fptr == old(fptr) + |piece| && piece == Content()[old(fptr)..fptr]
      ensures res.Ok? ==> Kept(fs.geo, pool, old(fs.Store()), old(fs.Table()), fs.Store(), fs.Table())
      ensures res.Ok? && !old(dirty) ==> !dirty && fs.Store() == old(fs.Store())
      ensures !res.Ok? ==> res.DiskErr? && fs.faults > old(fs.faults)
    {
      hide Volume.Valid, Volume.Fat, Volume.Store, Entries, CoreOf, FileObject.InPool, Geometry.ClearOf;
      hide FileBytes, SectAt, ClusterIndex, Image, ClusterNo;
      if fptr % 512 == 0 {
        res := EnterForRead();
        if !res.Ok? { return res, []; }
        if n / 512 > 0 {
          res, piece := ReadDirect(n);
          return;
        }
        res := FetchSector();
        if !res.Ok? { return res, []; }
      } else {
        InsideSector(fs.geo, fptr);
      }
      piece := ReadBuffered(n);
      res := Ok;
    }

    method Read(btr: nat) returns (res: FResult, data: seq<Byte>)
      requires Valid()
      modifies this`clust, this`sect, this`dirty, this`fptr, this`err, buf
      modifies fs`wflag, fs`media, fs`faults, fs`winsect, fs`stale, fs.win
      ensures Valid() && fs.faults >= old(fs.faults)
      ensures fs.Fat() == old(fs.Fat())
      ensures !old(err).Ok? ==> res == old(err)
      ensures old(err).Ok? && !canRead ==> res.Denied?
      ensures !old(err).Ok? || !canRead ==> unchanged(this, buf, fs, fs.win)
      ensures old(err).Ok? && canRead ==> res.Ok? || (res.DiskErr? && fs.faults > old(fs.faults) && err.DiskErr?)
      ensures res.Ok? ==> err.Ok? && Content() == old(Content()) && fptr == old(fptr) + |data|
      ensures res.Ok? ==> |data| == (if btr < objsize - old(fptr) then btr else objsize - old(fptr))
      ensures res.Ok? ==> data == Content()[old(fptr)..fptr]
      ensures res.Ok? ==> InClusters(data, old(fptr))
      ensures res.Ok? ==> Kept(fs.geo, pool, old(fs.Store()), old(fs.Table()), fs.Store(), fs.Table())
    {
      hide Volume.Valid, Volume.Fat, Volume.Store, Entries, CoreOf, FileObject.InPool, Geometry.ClearOf;
      hide FileBytes, SectAt, ClusterIndex, Image, ClusterNo, FileObject.InClusters;
      data := [];
      hide Kept;
      KeptSame(fs.geo, pool, fs.Store(), fs.Table());
      if !err.Ok? { return err, []; }
      if !canRead { return Denied, []; }
      SettledBound();
      var n: nat := objsize - fptr;
      if btr < n { n := btr; }
      ghost var want := n;
      while n > 0
        invariant Base() && fs.faults >= old(fs.faults) && err.Ok?
        invariant fs.Fat() == old(fs.Fat())
        invariant Core() && Coherent() && Settled() && Content() == old(Content())
        invariant fptr == old(fptr) + |data| && fptr + n <= objsize
        invariant |data| + n == want
        invariant data == Content()[old(fptr)..fptr]
        invariant Kept(fs.geo, pool, old(fs.Store()), old(fs.Table()), fs.Store(), fs.Table())
        invariant !old(dirty) ==> !dirty && fs.Store() == old(fs.Store())
      {
        var piece;
        ghost var before, su, u := Content(), fs.Store(), fs.Table();
        res, piece := ReadStep(n);
        if !res.Ok? {
          Abort(res);
          return res, [];
        }
        KeptChain(fs.geo, pool, old(fs.Store()), old(fs.Table()), su, u, fs.Store(), fs.Table());
        Pieces(before, old(fptr), fptr - |piece|, fptr);
        data := data + piece;
        n := n - |piece|;
      }
      if fptr <= objsize { PieceInClusters(old(fptr), fptr); }
      res := Ok;
    }

    /** The bytes at offset `p` of the file's clusters, laid end to end. */
    ghost predicate InClusters(data: seq<Byte>, p: nat)
      reads this, buf, fs, fs.win
      requires Base()
    {
      var st := Image(fs.Store(), dirty, sect, buf[..]);
      && OnDrive(fs.geo, st, chain) && p + |data| <= |ChainData(fs.geo, st, chain)|
      && data == ChainData(fs.geo, st, chain)[p..p + |data|]
    }

    lemma PieceInClusters(p: nat, q: nat)
      requires Base() && Core() && p <= q <= objsize
      ensures InClusters(Content()[p..q], p)
    {
      hide Volume.Valid, Volume.Store, FileObject.InPool, Geometry.ClearOf, FileBytes, ChainData, CoreOf, OnDrive;
      ContentIsClusters();
    }

    /** The content is what the file's clusters hold, end to end, up to its size;
        with clusters that follow one another, a slice of the drive. */
    lemma ContentIsClusters()
      requires Base() && Core()
      ensures var st := Image(fs.Store(), dirty, sect, buf[..]);
              && OnDrive(fs.geo, st, chain) && objsize <= |ChainData(fs.geo, st, chain)|
              && Content() == ChainData(fs.geo, st, chain)[..objsize]
      ensures chain == Consecutive(sclust, |chain|) && !dirty && chain != [] ==>
                var s, n := fs.geo.database + fs.geo.csize * (sclust - 2), fs.geo.csize * |chain|;
                && 0 <= s && s + n <= |fs.Store()| && objsize <= 512 * n
                && Content() == Join(fs.Store()[s..s + n])[..objsize]
    {
      hide Volume.Valid, Volume.Store, Volume.Table, FileObject.InPool, Geometry.ClearOf, FileBytes, Join, ChainData;
      hide Geometry.WellFormed, SectAt, FreeSet, Elems;
      ChainFacts();
      FileIsClusters(fs.geo, Image(fs.Store(), dirty, sect, buf[..]), chain, objsize);
      if chain == Consecutive(sclust, |chain|) && !dirty && chain != [] {
        assert fs.geo.IsCluster(chain[0]) && fs.geo.IsCluster(chain[|chain| - 1]);
        RunOnDrive(fs.geo, sclust, |chain|);
        ConsecutiveFile(fs.geo, fs.Store(), sclust, |chain|, objsize);
      }
    }

    lemma Pieces(s: seq<Byte>, a: nat, b: nat, c: nat)
      requires a <= b <= c <= |s|
      ensures s[a..b] + s[b..c] == s[a..c]
    {
    }

    lemma SettledBound()
      requires Settled()
      ensures fptr <= objsize
    {
    }

    /** Records an error: later operations on the file refuse to run. */
    method Abort(res: FResult)
      requires Base() && !res.Ok?
      modifies this`err
      ensures err == res && Valid()
    {
      err := res;
    }

    // ---- growing ----------------------------------------------------------

    /** Asks for the cluster after position `j` of the chain, stretching the
        chain at its end; `p` is the cluster before it, 0 for an empty chain. */
    method Advance(ghost j: nat, p: nat) returns (clst: nat)
      requires Base() && Core() && j <= |chain|
      requires if j == 0 then chain == [] && p == 0 else p == chain[j - 1]
      modifies this`sclust, this`chain, fs`wflag, fs`media, fs`faults, fs`winsect, fs`stale, fs.win
      modifies fs`freeClst, fs`lastClst, fs`fsiDirty
      ensures Base() && fs.faults >= old(fs.faults) && fs.Store() == old(fs.Store())
      ensures clst == DISK_ERROR ==> fs.faults > old(fs.faults)
      ensures clst != DISK_ERROR ==> Core() && old(chain) <= chain && (old(fs.CountOk()) ==> fs.CountOk())
      ensures 2 <= clst != DISK_ERROR ==> j < |chain| && clst == chain[j] && fs.geo.IsCluster(clst)
      ensures 2 <= clst != DISK_ERROR ==> |chain| == if j < |old(chain)| then |old(chain)| else j + 1
      ensures clst < 2 ==> j == |chain| && chain == old(chain) && sclust == old(sclust) && fs.Table() == old(fs.Table())
      ensures clst != DISK_ERROR ==> Content() == old(Content())
      ensures clst != DISK_ERROR ==> Kept(fs.geo, pool, old(fs.Store()), old(fs.Table()), fs.Store(), fs.Table())
      ensures clst == 0 && old(fs.CountOk()) ==> FreeSet(fs.Table()) == {}
      ensures clst == 1 ==> Corrupt(fs.Table())
    {
      hide Volume.Valid, Volume.Fat, Volume.Store, Entries, FileObject.InPool, Geometry.ClearOf;
      hide FreeSet, Elems, IsChain, CreateReply, CreateTable, Capacity, CoreOf, FileBytes, Image;
      fs.EntryCounts();
      ghost var t := fs.Table();
      AdvanceLemma(j, p, fs.freeClst, fs.lastClst);
      CoreFacts();
      ghost var w := fs.winsect;
      clst := fs.CreateChain(p);
      WindowClear(w, fs.winsect);
      if clst >= 2 && clst != DISK_ERROR {
        if p == 0 { sclust := clst; }
        BytesPrefix(fs.geo, Image(fs.Store(), dirty, sect, buf[..]), chain, chain + [clst], objsize);
        if j == |chain| { chain := chain + [clst]; }
      }
    }

    lemma CoreResized(n: nat)
      requires Base() && Core() && n <= 512 * Capacity(fs.geo, chain) && n < DWORD_VALUES
      ensures CoreOf(fs.geo, fs.Table(), chain, pool, sclust, n)
    {
    }

    lemma CoreFacts()
      requires Base() && Core()
      ensures objsize <= 512 * Capacity(fs.geo, chain) && fs.geo.csize > 0 && objsize < DWORD_VALUES
    {
    }

    lemma AdvanceLemma(j: nat, p: nat, free: nat, last: nat)
      requires Base() && Core() && j <= |chain|
      requires if j == 0 then chain == [] && p == 0 else p == chain[j - 1]
      ensures fs.geo.nFatent >= 3 && (p == 0 <==> j == 0)
      ensures var t := fs.Table();
              var r, u := CreateReply(t, free, last, p), CreateTable(t, fs.geo.Eoc(), free, last, p);
              && (forall c :: 0 <= c < |t| && c !in pool ==> u[c] == t[c]) &&
              if j < |chain| then r == chain[j] && u == t && fs.geo.IsCluster(r)
              else if r >= 2 then
                fs.geo.IsCluster(r) && CoreOf(fs.geo, u, chain + [r], pool, if p == 0 then r else sclust, objsize)
              else
                && u == t
                && (r == 0 && CountRight(t, free) ==> FreeSet(t) == {})
                && (r == 1 ==> Corrupt(t))
    {
      hide Volume.Valid, Volume.Table, CreateReply, CreateTable, IsChain, FreeSet, FileObject.InPool, Geometry.ClearOf;
      fs.EntryCounts();
      if j > 0 { LinkAt(j); }
      if j < |chain| {
        FollowRequest(fs.Table(), fs.geo.Eoc(), free, last, chain, j);
      } else {
        StretchRequest(fs.Table(), fs.geo.Eoc(), free, last, chain);
        NoneFree(fs.Table());
        CapacityGrows(fs.geo, chain, CreateReply(fs.Table(), free, last, p));
      }
    }

    // ---- writing ----------------------------------------------------------

    /** On a sector boundary: steps to the cluster of the next byte, stretching
        the chain if it ends here. `full`: no cluster was left. */
    method EnterForWrite() returns (res: FResult, full: bool)
      requires Base() && Core() && Settled() && fptr % 512 == 0
      modifies this`clust, this`sclust, this`chain, fs`wflag, fs`media, fs`faults, fs`winsect, fs`stale, fs.win
      modifies fs`freeClst, fs`lastClst, fs`fsiDirty
      ensures Base() && fs.faults >= old(fs.faults) && fs.Store() == old(fs.Store())
      ensures res.Ok? ==> Core() && old(chain) <= chain && Content() == old(Content())
      ensures res.Ok? ==> (old(fs.CountOk()) ==> fs.CountOk())
      ensures res.Ok? && !full ==> Entered()
      ensures res.Ok? ==> Kept(fs.geo, pool, old(fs.Store()), old(fs.Table()), fs.Store(), fs.Table())
      ensures res.Ok? && full ==> Settled() && (old(fs.CountOk()) ==> FreeSet(fs.Table()) == {})
      ensures res.Ok? && full ==> fptr == 512 * Capacity(fs.geo, chain)
      ensures !res.Ok? ==> (res.DiskErr? && fs.faults > old(fs.faults)) || (res.IntErr? && Corrupt(fs.Table()))
    {
      hide Volume.Valid, Volume.Fat, Volume.Store, Entries, FileObject.InPool, Geometry.ClearOf, CoreOf;
      hide ClusterIndex, ClusterNo, PlaceInCluster, SectAt, FileBytes, Image, Geometry.WellFormed, BitAnd;
      hide PowerOfTwo, Capacity, CountRight;
      fs.EntryCounts();
      full := false;
      res := Ok;
      ghost var j := ClusterNo(fs.geo, fptr);
      Position(fptr / 512, j);
      var csect := BitAnd(fptr / 512, fs.geo.csize - 1);
      if csect == 0 {
        HeadCluster();
        var clst;
        if fptr == 0 {
          clst := sclust;
          if clst == 0 { clst := Advance(0, 0); }
        } else {
          clst := Advance(j, clust);
        }
        if clst == 0 { return Ok, true; }
        if clst == 1 { return IntErr, false; }
        if clst == DISK_ERROR { return DiskErr, false; }
        clust := clst;
      }
    }

    /** Writes sectors and refreshes the buffer if its sector is among them. */
    method WriteSectors(s: nat, secs: seq<Sector>) returns (res: FResult)
      requires Base() && Coherent() && !dirty
      requires fs.geo.database <= s && s + |secs| <= fs.geo.total && !(s <= fs.winsect < s + |secs|)
      modifies this`dirty, buf, fs`media, fs`faults
      ensures Base() && !dirty && fs.faults >= old(fs.faults) && fs.Fat() == old(fs.Fat())
      ensures res.Ok? ==> Coherent() && fs.Store() == Blit(old(fs.Store()), s, secs)
      ensures !res.Ok? ==> res.DiskErr? && fs.faults > old(fs.faults)
    {
      hide Volume.Valid, Volume.Fat, Volume.Store, FileObject.InPool, Geometry.ClearOf, Blit;
      var ok := fs.WriteData(s, secs);
      if !ok { return DiskErr; }
      if s <= sect < s + |secs| {
        forall i | 0 <= i < 512 { buf[i] := secs[sect - s][i]; }
        assert buf[..] == secs[sect - s];
        dirty := false;
      }
      res := Ok;
    }

    /** Steps over `cnt` bytes just written, growing the file if they end past it. */
    method MoveOn(cnt: nat)
      requires Base() && Core() && Coherent() && Entered() && fptr <= objsize
      requires 0 < cnt && fptr + cnt <= 512 * Capacity(fs.geo, chain) && fptr + cnt < DWORD_VALUES
      requires if fptr % 512 + cnt <= 512 then sect == SectAt(fs.geo, chain, fptr / 512) || (fptr + cnt) % 512 == 0
               else fptr % 512 == 0 && cnt % 512 == 0 && PlaceInCluster(fs.geo, fptr / 512) + cnt / 512 <= fs.geo.csize
      modifies this`fptr, this`objsize
      ensures Base() && Core() && Coherent() && Settled()
      ensures fptr == old(fptr) + cnt && objsize == if fptr > old(objsize) then fptr else old(objsize)
    {
      hide Volume.Valid, Volume.Fat, Volume.Store, Entries, FileObject.InPool, Geometry.ClearOf, CoreOf;
      hide ClusterNo, ClusterIndex, PlaceInCluster, SectAt, Capacity;
      CoreFacts();
      StayInCluster(fs.geo, fptr, fptr + cnt);
      CoreResized(if fptr + cnt > objsize then fptr + cnt else objsize);
      fptr := fptr + cnt;
      if fptr > objsize { objsize := fptr; }
    }

    /** Whole sectors of one cluster straight from the caller's data. */
    method WriteDirect(d: seq<Byte>) returns (res: FResult, cnt: nat)
      requires Base() && Core() && Coherent() && Entered() && !dirty && fptr % 512 == 0 && fptr <= objsize
      requires 512 <= |d| && fptr + |d| < DWORD_VALUES
      modifies this`fptr, this`objsize, this`dirty, buf, fs`media, fs`faults
      ensures Base() && fs.faults >= old(fs.faults) && fs.Fat() == old(fs.Fat())
      ensures res.Ok? ==> Core() && Coherent() && Settled()
      ensures res.Ok? ==> 0 < cnt <= |d| && fptr == old(fptr) + cnt
      ensures res.Ok? ==> Content() == Splice(old(Content()), old(fptr), d[..cnt])
      ensures res.Ok? ==> Kept(fs.geo, pool, old(fs.Store()), old(fs.Table()), fs.Store(), fs.Table())
      ensures !res.Ok? ==> res.DiskErr? && fs.faults > old(fs.faults)
    {
      hide Volume.Valid, Volume.Fat, Volume.Store, Entries, FileObject.InPool, Geometry.ClearOf, CoreOf;
      hide ClusterNo, ClusterIndex, PlaceInCluster, SectAt, FileBytes, Capacity, BitAnd, PowerOfTwo;
      hide Geometry.ClusterSector, Geometry.WellFormed, Chop, Splice;
      hide AllClusters, Distinct, Kept, Blit;
      ghost var k := fptr / 512;
      ChainFacts();
      CoreFacts();
      var s, cc := RunAhead(|d|);
      cnt := 512 * cc;
      WholeMove(k, cc);
      assert fptr == 512 * k;
      BlitKept(fs.geo, pool, fs.Store(), fs.Table(), s, Chop(d[..cnt], cc));
      PatchRun(fs.geo, fs.Store(), chain, objsize, k, d[..cnt], cc);
      res := WriteSectors(s, Chop(d[..cnt], cc));
      if !res.Ok? { return res, 0; }
      MoveOn(cnt);
    }

    /** The buffer stands for the current sector: it repeats it, or the file has
        no byte there yet. */
    ghost predicate Ready()
      reads this, buf, fs, fs.win
      requires Base()
    {
      && sect == SectAt(fs.geo, chain, fptr / 512)
      && (Coherent() || (!dirty && fptr % 512 == 0 && fptr == objsize))
    }

    /** On a sector boundary: gets the current sector into the buffer, without
        reading it on the growing edge. */
    method FillForWrite() returns (res: FResult)
      requires Base() && Core() && Coherent() && Entered() && !dirty && fptr % 512 == 0 && fptr <= objsize
      modifies this`sect, buf, fs`faults
      ensures Base() && fs.faults >= old(fs.faults)
      ensures fs.Fat() == old(fs.Fat()) && fs.Store() == old(fs.Store())
      ensures res.Ok? ==> Ready() && Content() == old(Content())
      ensures !res.Ok? ==> res.DiskErr? && fs.faults > old(fs.faults)
    {
      hide Volume.Valid, Volume.Fat, Volume.Store, Entries, FileObject.InPool, Geometry.ClearOf, CoreOf;
      hide SectAt, Geometry.ClusterSector, ClusterNo, PlaceInCluster, BitAnd, FileBytes;
      CurrentSector(fptr / 512);
      FileSector(fptr / 512);
      var s := fs.geo.ClusterSector(clust) + BitAnd(fptr / 512, fs.geo.csize - 1);
      if sect != s && fptr < objsize {
        res := Load(s);
        if !res.Ok? { return; }
      }
      sect := s;
      res := Ok;
    }

    /** Bytes into the buffer, up to the end of its sector. */
    method WriteBuffered(d: seq<Byte>) returns (cnt: nat)
      requires Base() && Core() && Entered() && Ready() && fptr <= objsize
      requires 0 < |d| && fptr + |d| < DWORD_VALUES
      modifies this`fptr, this`objsize, this`dirty, buf
      ensures Base() && Core() && Coherent() && Settled()
      ensures 0 < cnt <= |d| && fptr == old(fptr) + cnt
      ensures Content() == Splice(old(Content()), old(fptr), d[..cnt])
    {
      hide Volume.Valid, Volume.Fat, Volume.Store, Entries, FileObject.InPool, Geometry.ClearOf, CoreOf;
      hide ClusterNo, ClusterIndex, SectAt, FileBytes, Capacity, Geometry.ClusterSector, Geometry.WellFormed;
      hide Splice, Blit, AllClusters, Distinct, PlaceInCluster;
      ghost var k, o, p := fptr / 512, fptr % 512, fptr;
      CurrentSector(k);
      FileSector(k);
      ChainFacts();
      CoreFacts();
      cnt := 512 - fptr % 512;
      if cnt > |d| { cnt := |d|; }
      ghost var image := Image(fs.Store(), dirty, sect, buf[..]);
      StoreBytes(fptr % 512, d[..cnt]);
      PatchSector(fs.geo, image, chain, objsize, k, o, d[..cnt], buf[..]);
      SectorEnd(k, cnt);
      MoveOn(cnt);
    }

    /** Puts bytes in the buffer and marks it dirty. */
    method StoreBytes(o: nat, d: seq<Byte>)
      requires Base() && 0 < sect < fs.geo.total && o + |d| <= 512
      modifies this`dirty, buf
      ensures Base() && dirty && buf[..] == Blit(old(buf[..]), o, d)
      ensures Image(fs.Store(), dirty, sect, buf[..]) ==
              Image(old(fs.Store()), old(dirty), sect, old(buf[..]))[sect := buf[..]]
    {
      hide Volume.Valid, Volume.Fat, Volume.Store, FileObject.InPool, Geometry.ClearOf;
      ghost var w := buf[..];
      forall i | 0 <= i < |d| { buf[o + i] := d[i]; }
      dirty := true;
      assert buf[..] == Blit(w, o, d);
    }

    lemma SectorEnd(k: nat, cnt: nat)
      requires fs.geo.csize > 0 && k < Capacity(fs.geo, chain)
      ensures 512 * k + 512 <= 512 * Capacity(fs.geo, chain)
    {
    }

    /** One round of the write loop: some bytes at the position, or a full volume. */
    method WriteStep(d: seq<Byte>) returns (res: FResult, full: bool, cnt: nat)
      requires Base() && Core() && Coherent() && Settled() && 0 < |d| && fptr + |d| < DWORD_VALUES
      modifies this`clust, this`sclust, this`chain, this`sect, this`dirty, this`fptr, this`objsize, buf
      modifies fs`wflag, fs`media, fs`faults, fs`winsect, fs`stale, fs.win
      modifies fs`freeClst, fs`lastClst, fs`fsiDirty
      ensures Base() && fs.faults >= old(fs.faults)
      ensures res.Ok? ==> Core() && Coherent() && Settled() && (old(fs.CountOk()) ==> fs.CountOk())
      ensures res.Ok? && !full ==> 0 < cnt <= |d| && fptr == old(fptr) + cnt &&
                                   Content() == Splice(old(Content()), old(fptr), d[..cnt])
      ensures res.Ok? && full ==> cnt == 0 && fptr == old(fptr) && Content() == old(Content()) &&
                                  fptr == 512 * Capacity(fs.geo, chain) &&
                                  (old(fs.CountOk()) ==> FreeSet(fs.Table()) == {})
      ensures res.Ok? ==> Kept(fs.geo, pool, old(fs.Store()), old(fs.Table()), fs.Store(), fs.Table())
      ensures !res.Ok? ==> (res.DiskErr? && fs.faults > old(fs.faults)) || (res.IntErr? && Corrupt(fs.Table()))
    {
      hide Volume.Valid, Volume.Fat, Volume.Store, Entries, CoreOf, FileObject.InPool, Geometry.ClearOf;
      hide FileBytes, SectAt, ClusterIndex, ClusterNo, Image, Splice, CountRight, FreeSet;
      full, cnt := false, 0;
      if fptr % 512 == 0 {
        res, full := EnterForWrite();
        if !res.Ok? || full { return; }
        res := Flush();
        if !res.Ok? { return; }
        if |d| / 512 > 0 {
          res, cnt := WriteDirect(d);
          return;
        }
        res := FillForWrite();
        if !res.Ok? { return; }
      } else {
        InsideSector(fs.geo, fptr);
      }
      cnt := WriteBuffered(d);
      res := Ok;
    }

    /** The write loop over the first `n` bytes of `data`. */
    method WriteLoop(data: seq<Byte>, n: nat) returns (res: FResult, bw: nat)
      requires Base() && Core() && Coherent() && Settled() && n <= |data| && fptr + n < DWORD_VALUES
      modifies this`clust, this`sclust, this`chain, this`sect, this`dirty, this`fptr, this`objsize, buf
      modifies fs`wflag, fs`media, fs`faults, fs`winsect, fs`stale, fs.win
      modifies fs`freeClst, fs`lastClst, fs`fsiDirty
      ensures Base() && fs.faults >= old(fs.faults) && bw <= n && old(fptr) <= old(objsize)
      ensures res.Ok? ==> Core() && Coherent() && Settled() && (old(fs.CountOk()) ==> fs.CountOk())
      ensures res.Ok? ==> Content() == Splice(old(Content()), old(fptr), data[..bw]) && fptr == old(fptr) + bw
      ensures res.Ok? && bw < n && old(fs.CountOk()) ==> FreeSet(fs.Table()) == {}
      ensures res.Ok? && bw < n ==> fptr == 512 * Capacity(fs.geo, chain)
      ensures res.Ok? ==> Kept(fs.geo, pool, old(fs.Store()), old(fs.Table()), fs.Store(), fs.Table())
      ensures !res.Ok? ==> (res.DiskErr? && fs.faults > old(fs.faults)) || (res.IntErr? && Corrupt(fs.Table()))
    {
      hide Volume.Valid, Volume.Fat, Volume.Store, Entries, CoreOf, FileObject.InPool, Geometry.ClearOf;
      hide FileBytes, SectAt, ClusterIndex, Image, Splice, CountRight, FreeSet;
      bw := 0;
      hide Kept;
      KeptSame(fs.geo, pool, fs.Store(), fs.Table());
      SettledBound();
      SpliceNone(Content(), fptr, data);
      var btw := n;
      while btw > 0
        invariant Base() && fs.faults >= old(fs.faults)
        invariant Core() && Coherent() && Settled() && (old(fs.CountOk()) ==> fs.CountOk())
        invariant bw + btw == n <= |data| && fptr == old(fptr) + bw && 0 <= btw
        invariant Content() == Splice(old(Content()), old(fptr), data[..bw])
        invariant Kept(fs.geo, pool, old(fs.Store()), old(fs.Table()), fs.Store(), fs.Table())
      {
        ghost var su, u := fs.Store(), fs.Table();
        var full, cnt;
        res, full, cnt := WriteStep(data[bw..bw + btw]);
        if !res.Ok? { return; }
        KeptChain(fs.geo, pool, old(fs.Store()), old(fs.Table()), su, u, fs.Store(), fs.Table());
        if full { break; }
        SpliceMore(old(Content()), old(fptr), data, bw, btw, cnt);
        bw := bw + cnt;
        btw := btw - cnt;
      }
      res := Ok;
    }

    method Write(data: seq<Byte>) returns (res: FResult, bw: nat)
      requires Valid() && |data| < DWORD_VALUES
      modifies this`clust, this`sclust, this`chain, this`sect, this`dirty
      modifies this`fptr, this`objsize, this`err, this`modified, buf
      modifies fs`wflag, fs`media, fs`faults, fs`winsect, fs`stale, fs.win
      modifies fs`freeClst, fs`lastClst, fs`fsiDirty
      ensures Valid() && fs.faults >= old(fs.faults)
      ensures !old(err).Ok? ==> res == old(err) && bw == 0
      ensures old(err).Ok? && !canWrite ==> res.Denied? && bw == 0
      ensures !old(err).Ok? || !canWrite ==> unchanged(this, buf, fs, fs.win)
      ensures old(err).Ok? && canWrite ==> res == err
      ensures bw <= |data| && (res.Ok? ==> old(fptr) <= old(objsize))
      ensures res.Ok? ==> Content() == Splice(old(Content()), old(fptr), data[..bw]) && fptr == old(fptr) + bw
      ensures res.Ok? ==> (old(fs.CountOk()) ==> fs.CountOk()) && modified
      ensures res.Ok? && old(fs.CountOk()) && bw < |data| ==>
                FreeSet(fs.Table()) == {} || (fptr == DISK_ERROR && old(fptr) + |data| >= DWORD_VALUES)
      ensures res.Ok? && bw < |data| ==> fptr == DISK_ERROR || fptr == 512 * Capacity(fs.geo, chain)
      ensures res.Ok? ==> Kept(fs.geo, pool, old(fs.Store()), old(fs.Table()), fs.Store(), fs.Table())
      ensures old(err).Ok? && canWrite && !res.Ok? ==>
                (res.DiskErr? && fs.faults > old(fs.faults)) || (res.IntErr? && Corrupt(fs.Table()))
    {
      hide Volume.Valid, Volume.Fat, Volume.Store, Entries, CoreOf, FileObject.InPool, Geometry.ClearOf;
      hide FileBytes, SectAt, ClusterIndex, Image, Splice, CountRight, FreeSet;
      bw := 0;
      if !err.Ok? { return err, 0; }
      if !canWrite { return Denied, 0; }
      SettledBound();
      CoreFacts();
      var btw := |data|;
      if fptr + btw >= DWORD_VALUES { btw := DISK_ERROR - fptr; }
      res, bw := WriteLoop(data, btw);
      if res.Ok? {
        modified := true;
      } else {
        Abort(res);
      }
    }

    // ---- seeking ----------------------------------------------------------

    /** Follows the chain from cluster number `j`; a file open for writing is
        stretched. 0: no cluster was left. */
    method FollowOrStretch(ghost j: nat, clst0: nat) returns (clst: nat)
      requires Base() && Core() && j < |chain| && clst0 == chain[j]
      requires !canWrite ==> j + 1 < |chain|
      modifies this`sclust, this`chain
      modifies fs`wflag, fs`media, fs`faults, fs`winsect, fs`stale, fs.win
      modifies fs`freeClst, fs`lastClst, fs`fsiDirty
      ensures Base() && fs.faults >= old(fs.faults) && fs.Store() == old(fs.Store())
      ensures clst == DISK_ERROR ==> fs.faults > old(fs.faults)
      ensures clst != DISK_ERROR ==> Core() && old(chain) <= chain && Content() == old(Content())
      ensures clst != DISK_ERROR ==> (old(fs.CountOk()) ==> fs.CountOk())
      ensures clst != DISK_ERROR ==> Kept(fs.geo, pool, old(fs.Store()), old(fs.Table()), fs.Store(), fs.Table())
      ensures 2 <= clst != DISK_ERROR ==> j + 1 < |chain| && clst == chain[j + 1] && fs.geo.IsCluster(clst)
      ensures clst == 0 ==> canWrite && |chain| == j + 1 && (old(fs.CountOk()) ==> FreeSet(fs.Table()) == {})
      ensures clst == 1 ==> Corrupt(fs.Table())
    {
      hide Volume.Valid, Volume.Fat, Volume.Store, Entries, FileObject.InPool, Geometry.ClearOf;
      hide CoreOf, FileBytes, CountRight, FreeSet;
      if canWrite {
        clst := Advance(j + 1, clst0);
      } else {
        LinkAt(j + 1);
        clst := fs.GetFat(clst0);
        WindowClear(old(fs.winsect), fs.winsect);
      }
    }

    /** The seek loop: from the start of cluster number `j0` on to `ofs` bytes
        further, or to the end of the last cluster there is. */
    method SeekForward(ghost j0: nat, ofs0: nat) returns (res: FResult, nsect: nat)
      requires Base() && Core() && j0 < |chain| && clust == chain[j0] && 0 < ofs0
      requires fptr == ClusterTop(fs.geo, j0)
      requires canWrite || fptr + ofs0 <= objsize
      modifies this`clust, this`sclust, this`chain, this`fptr
      modifies fs`wflag, fs`media, fs`faults, fs`winsect, fs`stale, fs.win
      modifies fs`freeClst, fs`lastClst, fs`fsiDirty
      ensures Base() && fs.faults >= old(fs.faults) && fs.Store() == old(fs.Store())
      ensures res.Ok? ==> Core() && old(chain) <= chain && Content() == old(Content())
      ensures res.Ok? ==> (old(fs.CountOk()) ==> fs.CountOk())
      ensures res.Ok? ==> Kept(fs.geo, pool, old(fs.Store()), old(fs.Table()), fs.Store(), fs.Table())
      ensures res.Ok? ==> Landed(nsect) && 0 < fptr <= old(fptr) + ofs0
      ensures res.Ok? && fptr < old(fptr) + ofs0 ==> canWrite && (old(fs.CountOk()) ==> FreeSet(fs.Table()) == {})
      ensures res.Ok? && fptr < old(fptr) + ofs0 ==> fptr == 512 * Capacity(fs.geo, chain)
      ensures !res.Ok? ==> (res.DiskErr? && fs.faults > old(fs.faults)) || (res.IntErr? && Corrupt(fs.Table()))
    {
      hide Volume.Valid, Volume.Fat, Volume.Store, Entries, FileObject.InPool, Geometry.ClearOf;
      hide CoreOf, FileBytes, CountRight, FreeSet, ClusterTop, ClusterIndex, SectAt, Capacity;
      hide Geometry.ClusterSector, Geometry.WellFormed, Geometry.ClusterBytes;
      fs.EntryCounts();
      fs.GeoFacts();
      ghost var j: nat := j0;
      var ofs: nat := ofs0;
      var clst := clust;
      var bcs := fs.geo.ClusterBytes();
      WholeSectors(fs.geo);
      while ofs > bcs
        invariant Base() && fs.faults >= old(fs.faults) && fs.Store() == old(fs.Store())
        invariant Core() && old(chain) <= chain && Content() == old(Content())
        invariant (old(fs.CountOk()) ==> fs.CountOk())
        invariant Kept(fs.geo, pool, old(fs.Store()), old(fs.Table()), fs.Store(), fs.Table())
        invariant j < |chain| && clst == clust == chain[j] && 0 < ofs
        invariant fptr == ClusterTop(fs.geo, j) && fptr + ofs == old(fptr) + ofs0
        decreases ofs
      {
        NextTop(fs.geo, j, |chain|);
        CoreFacts();
        CapacityTop(fs.geo, chain);
        ofs := ofs - bcs;
        fptr := fptr + bcs;
        clst := FollowOrStretch(j, clst);
        if clst == 0 {
          CapacityTop(fs.geo, chain);
          ofs := 0;
          break;
        }
        if clst == DISK_ERROR { return DiskErr, 0; }
        if clst <= 1 { return IntErr, 0; }
        clust := clst;
        j := j + 1;
      }
      nsect := Land(j, ofs);
      res := Ok;
    }

    /** The last leg of a seek: `ofs` bytes into cluster number `j`, or none
        when the position is already at its end. */
    method Land(ghost j: nat, ofs: nat) returns (nsect: nat)
      requires Base() && Core() && j < |chain| && clust == chain[j] && ofs <= fs.geo.ClusterBytes()
      requires fptr == ClusterTop(fs.geo, j) + if ofs == 0 then fs.geo.ClusterBytes() else 0
      modifies this`fptr
      ensures Base() && Core() && Landed(nsect) && fptr == old(fptr) + ofs
    {
      hide Volume.Valid, Volume.Fat, Volume.Store, Entries, FileObject.InPool, Geometry.ClearOf;
      hide CoreOf, ClusterTop, ClusterIndex, SectAt, Capacity, Geometry.ClusterSector, Geometry.WellFormed;
      hide Geometry.ClusterBytes;
      fs.GeoFacts();
      WholeSectors(fs.geo);
      ghost var r := if ofs > 0 then ofs else fs.geo.ClusterBytes();
      ClusterPosition(fs.geo, chain, j, r);
      SectorPosition(fs.geo, chain, j, r);
      ClusterSectorPositive(j);
      nsect := 0;
      fptr := fptr + ofs;
      if ofs % 512 != 0 {
        nsect := fs.geo.ClusterSector(clust);
        assert nsect != 0;  // so no internal error
        nsect := nsect + ofs / 512;
      }
    }

    lemma ClusterSectorPositive(j: nat)
      requires Base() && Core() && j < |chain|
      ensures fs.geo.ClusterSector(chain[j]) > 0
    {
      hide Geometry.WellFormed, Volume.Valid, CoreOf, FileObject.InPool, Geometry.ClearOf;
      LinkAt(j + 1);
      fs.GeoFacts();
      fs.geo.ClusterNotZero(chain[j]);
    }

    /** `clust` is the cluster of the byte before the position and `ns` the
        sector the position is inside of. */
    ghost predicate Landed(ns: nat)
      reads this, fs
    {
      && fs.geo.csize > 0 && 0 < fptr <= 512 * Capacity(fs.geo, chain)
      && ClusterIndex(fs.geo, fptr) < |chain| && clust == chain[ClusterIndex(fs.geo, fptr)]
      && ns == if fptr % 512 != 0 then SectAt(fs.geo, chain, fptr / 512) else 0
    }

    /** Chain part of a seek to `ofs`, from the current cluster when it lies at
        or before the target, else from the start of the file. */
    method SeekChain(ofs: nat) returns (res: FResult, nsect: nat)
      requires Base() && Core() && Settled() && (canWrite || ofs <= objsize)
      modifies this`clust, this`sclust, this`chain, this`fptr
      modifies fs`wflag, fs`media, fs`faults, fs`winsect, fs`stale, fs.win
      modifies fs`freeClst, fs`lastClst, fs`fsiDirty
      ensures Base() && fs.faults >= old(fs.faults) && fs.Store() == old(fs.Store())
      ensures res.Ok? ==> Core() && old(chain) <= chain && Content() == old(Content())
      ensures res.Ok? ==> (old(fs.CountOk()) ==> fs.CountOk())
      ensures res.Ok? ==> Kept(fs.geo, pool, old(fs.Store()), old(fs.Table()), fs.Store(), fs.Table())
      ensures res.Ok? ==> fptr <= ofs && if fptr == 0 then nsect == 0 && chain == old(chain) else Landed(nsect)
      ensures res.Ok? && fptr < ofs ==> canWrite && (old(fs.CountOk()) ==> FreeSet(fs.Table()) == {})
      ensures res.Ok? && fptr < ofs ==> fptr == 512 * Capacity(fs.geo, chain)
      ensures !res.Ok? ==> (res.DiskErr? && fs.faults > old(fs.faults)) || (res.IntErr? && Corrupt(fs.Table()))
    {
      hide Volume.Valid, Volume.Fat, Volume.Store, Entries, FileObject.InPool, Geometry.ClearOf;
      hide CoreOf, FileBytes, CountRight, FreeSet, ClusterTop, ClusterIndex, SectAt, Capacity, Geometry.ClusterSector;
      hide Geometry.WellFormed, Geometry.ClusterBytes, BitAnd, PowerOfTwo;
      fs.GeoFacts();
      fs.EntryCounts();
      HeadCluster();
      var ifptr := fptr;
      fptr := 0;
      res, nsect := Ok, 0;
      if ofs > 0 {
        var bcs := fs.geo.ClusterBytes();
        WholeSectors(fs.geo);
        NextTop(fs.geo, 0, 0);
        if ifptr > 0 && (ofs - 1) / bcs >= (ifptr - 1) / bcs {
          SeekStart(fs.geo, ifptr, ofs);
          fptr := ifptr - 1 - BitAnd(ifptr - 1, bcs - 1);
          res, nsect := SeekForward(ClusterIndex(fs.geo, ifptr), ofs - fptr);
        } else {
          var clst := sclust;
          if clst == 0 {
            clst := Advance(0, 0);
            if clst == 1 { return IntErr, 0; }
            if clst == DISK_ERROR { return DiskErr, 0; }
            if clst == 0 { CapacityTop(fs.geo, chain); }
          }
          clust := clst;
          if clst != 0 {
            res, nsect := SeekForward(0, ofs);
          }
        }
      }
    }

    method Lseek(ofs0: nat) returns (res: FResult)
      requires Valid() && ofs0 < DWORD_VALUES
      modifies this`clust, this`sclust, this`chain, this`fptr, this`objsize
      modifies this`modified, this`sect, this`dirty, this`err, buf
      modifies fs`wflag, fs`media, fs`faults, fs`winsect, fs`stale, fs.win
      modifies fs`freeClst, fs`lastClst, fs`fsiDirty
      ensures Valid() && fs.faults >= old(fs.faults)
      ensures !old(err).Ok? ==> res == old(err) && unchanged(this, buf, fs, fs.win)
      ensures old(err).Ok? ==> res == err
      ensures res.Ok? ==> objsize >= old(objsize) && objsize == if fptr > old(objsize) then fptr else old(objsize)
      ensures res.Ok? ==> Content()[..old(objsize)] == old(Content())
      ensures res.Ok? ==> (old(fs.CountOk()) ==> fs.CountOk())
      ensures res.Ok? && !canWrite ==> fptr == (if ofs0 < old(objsize) then ofs0 else old(objsize))
      ensures res.Ok? ==> fptr <= ofs0
      ensures res.Ok? && canWrite && old(fs.CountOk()) && fptr < ofs0 ==> FreeSet(fs.Table()) == {}
      ensures res.Ok? && canWrite && fptr < ofs0 ==> fptr == 512 * Capacity(fs.geo, chain)
      ensures res.Ok? && ofs0 <= old(objsize) ==> fptr == ofs0
      ensures res.Ok? ==> Kept(fs.geo, pool, old(fs.Store()), old(fs.Table()), fs.Store(), fs.Table())
      ensures old(err).Ok? && !res.Ok? ==>
                (res.DiskErr? && fs.faults > old(fs.faults)) || (res.IntErr? && Corrupt(fs.Table()))
    {
      hide Volume.Valid, Volume.Fat, Volume.Store, Entries, FileObject.InPool, Geometry.ClearOf;
      hide CoreOf, FileBytes, CountRight, FreeSet, ClusterIndex, SectAt, Capacity, Image;
      hide Kept;
      if !err.Ok? { return err; }
      HeadCluster();
      CoreFacts();
      var ofs := ofs0;
      if ofs > objsize && !canWrite { ofs := objsize; }
      var nsect;
      res, nsect := SeekChain(ofs);
      if res.Ok? {
        HeadCluster();
        CoreFacts();
        ghost var su, u := fs.Store(), fs.Table();
        res := SeekFinish(nsect);
        if res.Ok? { KeptChain(fs.geo, pool, old(fs.Store()), old(fs.Table()), su, u, fs.Store(), fs.Table()); }
      }
      if !res.Ok? { Abort(res); }
    }

    /** Bytes the file could have if it got every free cluster. */
    ghost function Limit(): nat { ClusterTop(fs.geo, |pool|) }

    /** The chain stays within that limit, and reaches it when none is free. */
    lemma WithinLimit()
      requires Base() && Core()
      ensures objsize <= 512 * Capacity(fs.geo, chain) <= Limit()
      ensures FreeSet(fs.Table()) == {} ==> 512 * Capacity(fs.geo, chain) == Limit()
    {
      hide Volume.Valid, Volume.Table, FileObject.InPool, Geometry.ClearOf, ClusterTop, Geometry.WellFormed;
      CapacityTop(fs.geo, chain);
      ElemsSize(chain);
      SubsetSize(Elems(chain), pool);
      TopMonotone(fs.geo, |chain|, |pool|);
    }

    /** Extends the size if the position is past it, and loads the sector the
        position is inside of. */
    method SeekFinish(nsect: nat) returns (res: FResult)
      requires Base() && Core() && Coherent() && fptr < DWORD_VALUES
      requires if fptr == 0 then nsect == 0 else Landed(nsect)
      modifies this`objsize, this`modified, this`sect, this`dirty, buf, fs`media, fs`faults
      ensures Base() && fs.faults >= old(fs.faults) && fs.Fat() == old(fs.Fat())
      ensures res.Ok? ==> Core() && Coherent() && Settled()
      ensures res.Ok? ==> objsize == if fptr > old(objsize) then fptr else old(objsize)
      ensures res.Ok? ==> Content()[..old(objsize)] == old(Content())
      ensures res.Ok? ==> if fptr > old(objsize) then modified else modified == old(modified)
      ensures res.Ok? && !old(dirty) ==> !dirty && fs.Store() == old(fs.Store())
      ensures res.Ok? ==> Kept(fs.geo, pool, old(fs.Store()), old(fs.Table()), fs.Store(), fs.Table())
      ensures !res.Ok? ==> res.DiskErr? && fs.faults > old(fs.faults)
    {
      hide Volume.Valid, Volume.Fat, Volume.Store, Entries, FileObject.InPool, Geometry.ClearOf;
      hide CoreOf, FileBytes, SectAt, Capacity, ClusterIndex, ClusterNo, Geometry.WellFormed;
      res := Ok;
      ghost var size := if fptr > objsize then fptr else objsize;
      BytesTake(fs.geo, Image(fs.Store(), dirty, sect, buf[..]), chain, objsize, size);
      TakeAll(Content());
      CoreFacts();
      if fptr > objsize {
        CoreResized(fptr);
        objsize := fptr;
        modified := true;
      }
      if fptr % 512 != 0 && nsect != sect {
        InsideSector(fs.geo, fptr);
        InsidePool();
        res := Flush();
        if !res.Ok? { return; }
        res := Load(nsect);
      }
    }

    lemma InsidePool()
      requires Base() && Core() && 0 < fptr <= objsize && fptr % 512 != 0
      ensures InPool(SectAt(fs.geo, chain, fptr / 512))
    {
      FileSector(fptr / 512);
    }

    // ---- truncating -------------------------------------------------------

    /** Cutting the chain at position `k`. */
    lemma CutLemma(k: nat)
      requires Base() && Core() && k < |chain| && fptr <= objsize && k == ClustersFor(fs.geo, fptr)
      ensures fs.geo.IsCluster(chain[k]) && (k > 0 ==> fs.geo.IsCluster(chain[k - 1]) && fs.Table()[chain[k - 1]] != 0)
      ensures var t, u := fs.Table(), Cut(fs.Table(), fs.geo.Eoc(), chain, k);
              && Removed(t, fs.geo.Eoc(), chain[k], if k == 0 then 0 else chain[k - 1]) == (u, true)
              && CoreOf(fs.geo, u, chain[..k], pool, if k == 0 then 0 else sclust, fptr)
              && FreeSet(u) == FreeSet(t) + Elems(chain[k..])
              && forall c :: 0 <= c < |t| && c !in pool ==> u[c] == t[c]
    {
      hide Volume.Valid, Volume.Table, IsChain, FreeSet, FileObject.InPool, Geometry.ClearOf, Removed, Cut, Distinct;
      fs.EntryCounts();
      ChainFacts();
      CoreFacts();
      if k > 0 { LinkAt(k); }
      LinkAt(k + 1);
      RemoveTail(fs.Table(), fs.geo.Eoc(), chain, k);
      ElemsSplit(chain, k);
      ClustersForLeast(fs.geo, fptr, k);
      assert forall c :: c in chain ==> c in pool;
    }

    /** Chain part of a truncation: cuts the chain behind the position. */
    method CutChain() returns (res: FResult)
      requires Base() && Core() && Settled() && fptr < objsize
      modifies this`sclust, this`chain
      modifies fs`wflag, fs`media, fs`faults, fs`winsect, fs`stale, fs.win
      modifies fs`freeClst, fs`fsiDirty
      ensures Base() && fs.faults >= old(fs.faults) && fs.Store() == old(fs.Store())
      ensures res.Ok? ==> |chain| == ClustersFor(fs.geo, fptr) && chain <= old(chain)
      ensures res.Ok? ==> CoreOf(fs.geo, fs.Table(), chain, pool, sclust, fptr)
      ensures res.Ok? ==> FreeSet(fs.Table()) == old(FreeSet(fs.Table())) + Elems(old(chain)[|chain|..])
      ensures res.Ok? ==> (old(fs.CountOk()) ==> fs.CountOk())
      ensures res.Ok? ==> Kept(fs.geo, pool, old(fs.Store()), old(fs.Table()), fs.Store(), fs.Table())
      ensures !res.Ok? ==> res.DiskErr? && fs.faults > old(fs.faults)
    {
      hide Volume.Valid, Volume.Fat, Volume.Store, Entries, FileObject.InPool, Geometry.ClearOf;
      hide CoreOf, CountRight, FreeSet, Elems, ClusterIndex, SectAt, Capacity, Geometry.WellFormed, Removed, Cut;
      fs.GeoFacts();
      fs.EntryCounts();
      ChainEnough();
      ghost var k, w := ClustersFor(fs.geo, fptr), fs.winsect;
      if fptr == 0 {
        HeadCluster();
        CutLemma(0);
        res := fs.RemoveChain(sclust, 0);
        WindowClear(w, fs.winsect);
        sclust := 0;
        if res.Ok? { chain := chain[..0]; }
      } else {
        LinkAt(k);
        if k < |chain| { CutLemma(k); }
        var ncl := fs.GetFat(clust);
        WindowClear(w, fs.winsect);
        res := Ok;
        if ncl == DISK_ERROR { return DiskErr; }
        assert ncl != 1;  // so no internal error
        if ncl < fs.geo.nFatent {
          w := fs.winsect;
          res := fs.RemoveChain(ncl, clust);
          WindowClear(w, fs.winsect);
          if res.Ok? { chain := chain[..k]; }
        } else {
          WholeChain(k);
        }
      }
    }

    lemma WholeChain(k: nat)
      requires Base() && Core() && k == |chain| && fptr <= objsize
      ensures chain[k..] == [] && FreeSet(fs.Table()) + Elems(chain[k..]) == FreeSet(fs.Table())
      ensures CoreOf(fs.geo, fs.Table(), chain, pool, sclust, fptr)
    {
      assert Elems(chain[k..]) == {};
    }

    lemma ChainEnough()
      requires Base() && Core() && fptr < objsize
      ensures ClustersFor(fs.geo, fptr) <= |chain| && |chain| > 0
      ensures fptr > 0 ==> ClustersFor(fs.geo, fptr) == ClusterIndex(fs.geo, fptr) + 1
    {
      hide ClusterIndex, FreeSet, Elems, IsChain, Volume.Table;
      CoreFacts();
      ClustersForLeast(fs.geo, fptr, |chain|);
      ClustersForLeast(fs.geo, objsize, |chain|);
    }

    method Truncate() returns (res: FResult)
      requires Valid()
      modifies this`sclust, this`chain, this`objsize, this`modified, this`dirty, this`err
      modifies fs`wflag, fs`media, fs`faults, fs`winsect, fs`stale, fs.win
      modifies fs`freeClst, fs`fsiDirty
      ensures Valid() && fs.faults >= old(fs.faults)
      ensures !old(err).Ok? ==> res == old(err)
      ensures old(err).Ok? && !canWrite ==> res.Denied?
      ensures !old(err).Ok? || !canWrite ==> unchanged(this, fs, fs.win)
      ensures old(err).Ok? && canWrite ==> res == err
      ensures old(err).Ok? && canWrite && !res.Ok? ==> res.DiskErr? && fs.faults > old(fs.faults)
      ensures res.Ok? ==> fptr <= old(objsize) && Content() == old(Content())[..fptr]
      ensures res.Ok? && fptr < old(objsize) ==> |chain| == ClustersFor(fs.geo, fptr) && chain <= old(chain)
      ensures res.Ok? && fptr < old(objsize) ==>
                FreeSet(fs.Table()) == old(FreeSet(fs.Table())) + Elems(old(chain)[|chain|..])
      ensures res.Ok? ==> (old(fs.CountOk()) ==> fs.CountOk())
      ensures res.Ok? ==> Kept(fs.geo, pool, old(fs.Store()), old(fs.Table()), fs.Store(), fs.Table())
    {
      hide Volume.Valid, Volume.Fat, Volume.Store, Entries, FileObject.InPool, Geometry.ClearOf;
      hide CoreOf, CountRight, FreeSet, Elems, ClusterIndex, ClustersFor, SectAt, Capacity, FileBytes;
      hide Kept;
      KeptSame(fs.geo, pool, fs.Store(), fs.Table());
      if !err.Ok? { return err; }
      if !canWrite { return Denied; }
      res := Ok;
      TakeAll(Content());
      if fptr < objsize {
        CoreFacts();
        BytesTake(fs.geo, Image(fs.Store(), dirty, sect, buf[..]), chain, fptr, objsize);
        ghost var before := chain;
        res := CutChain();
        objsize := fptr;
        modified := true;
        if res.Ok? {
          CutFacts(before);
          if dirty {
            ghost var su, u := fs.Store(), fs.Table();
            res := Flush();
            if res.Ok? {
              KeptChain(fs.geo, pool, old(fs.Store()), old(fs.Table()), su, u, fs.Store(), fs.Table());
            }
          }
        }
        if !res.Ok? { Abort(res); }
      }
    }

    /** A shorter chain that still holds the position keeps bytes and sectors. */
    lemma CutFacts(before: seq<nat>)
      requires Base() && CoreOf(fs.geo, fs.Table(), chain, pool, sclust, fptr) && chain <= before
      requires |chain| == ClustersFor(fs.geo, fptr)
      ensures FileBytes(fs.geo, Image(fs.Store(), dirty, sect, buf[..]), before, fptr) ==
              FileBytes(fs.geo, Image(fs.Store(), dirty, sect, buf[..]), chain, fptr)
      ensures fptr > 0 ==>
                var i := ClusterIndex(fs.geo, fptr);
                i < |chain| && before[i] == chain[i]
      ensures fptr % 512 != 0 ==> SectAt(fs.geo, before, fptr / 512) == SectAt(fs.geo, chain, fptr / 512)
    {
      hide SectAt, Volume.Valid, Volume.Table, IsChain, FreeSet, Image;
      fs.GeoFacts();
      BytesPrefix(fs.geo, Image(fs.Store(), dirty, sect, buf[..]), chain, before, fptr);
      if fptr % 512 != 0 { SectPrefix(fs.geo, chain, before, fptr / 512); }
    }

    // ---- syncing ----------------------------------------------------------

    /** Brings the drive up to date with the file: data, directory entry, FAT
        and FSInfo. `tm` is the time stamp. */
    method Sync(tm: nat) returns (res: FResult)
      requires Valid() && tm < DWORD_VALUES
      modifies this`dirty, this`modified
      modifies fs`wflag, fs`media, fs`faults, fs`winsect, fs`stale, fs`fsiDirty, fs.win
      ensures Valid() && fs.faults >= old(fs.faults)
      ensures !old(modified) ==>
                res.Ok? && fs.faults == old(fs.faults) && fs.Store() == old(fs.Store()) && fs.media == old(fs.media)
      ensures !res.Ok? ==> res.DiskErr? && fs.faults > old(fs.faults)
      ensures res.Ok? ==> !modified && fs.Table() == old(fs.Table())
      ensures res.Ok? && err.Ok? ==> Content() == old(Content())
      ensures res.Ok? && old(modified) ==> !dirty && !fs.wflag
      ensures res.Ok? && old(modified) ==>
                fs.Store() == old(Image(fs.Store(), dirty, sect, buf[..]))[dirSect :=
                  UpdatedEntry(fs.geo, old(fs.Store()[dirSect]), dirOfs, sclust, objsize, tm)]
      ensures res.Ok? && old(modified) ==>
                && dirSect < |fs.Store()| == |old(fs.Store())|
                && SyncedEntry(fs.geo, old(fs.Store())[dirSect], fs.Store()[dirSect], dirOfs, sclust, objsize, tm)
      ensures res.Ok? && old(modified) && err.Ok? ==> ReadBack(fs.geo, fs.media, dirSect, dirOfs) == Content()
      ensures res.Ok? ==>
                KeptBut(fs.geo, pool, dirSect, dirOfs, old(fs.Store()), old(fs.Table()), fs.Store(), fs.Table())
      ensures res.Ok? && old(modified) && fs.geo.fsInfo && old(fs.fsiDirty) && fs.faults == old(fs.faults) ==>
                FsInfoHolds(fs.media[fs.geo.volbase + 1], fs.freeClst, fs.lastClst)
    {
      hide Volume.Valid, Volume.Fat, Volume.Store, Entries, FileObject.InPool, Geometry.ClearOf, FsInfoHolds;
      hide CoreOf, SectAt, ClusterIndex, FileBytes, UpdatedEntry, ReadBack, LoadClust, LdDword, Kept, KeptBut;
      hide SyncedEntry;
      res := Ok;
      ghost var st, t := fs.Store(), fs.Table();
      EntryPlace();
      KeptNothing(fs.geo, pool, dirSect, dirOfs, st, t);
      if modified {
        if dirty {
          res := Flush();
          if !res.Ok? { return; }
        }
        ghost var su := fs.Store();
        KeptIsKeptBut(fs.geo, pool, dirSect, dirOfs, st, t, su, fs.Table());
        res := UpdateEntry(tm);
        if res.Ok? {
          EntryKeeps(fs.geo, su[dirSect], dirOfs, sclust, objsize, tm);
          SyncedBytes(fs.geo, st[dirSect], dirOfs, sclust, objsize, tm);
          OnlySector(fs.geo, pool, dirSect, dirOfs, su, fs.Table(), fs.Store());
          KeptButChain(fs.geo, pool, dirSect, dirOfs, st, t, su, t, fs.Store(), t);
        }
      }
    }

    lemma EntryPlace()
      requires Base()
      ensures fs.geo.ClearOf(pool, dirSect) && dirSect < |fs.Store()| && dirOfs + 32 <= 512
    {
    }

    /** Writes size, cluster and time into the directory entry and flushes the
        volume. */
    method UpdateEntry(tm: nat) returns (res: FResult)
      requires Valid() && modified && !dirty && tm < DWORD_VALUES
      modifies this`modified
      modifies fs`wflag, fs`media, fs`faults, fs`winsect, fs`stale, fs`fsiDirty, fs.win
      ensures Valid() && fs.faults >= old(fs.faults)
      ensures !res.Ok? ==> res.DiskErr? && fs.faults > old(fs.faults)
      ensures res.Ok? ==> !modified && !fs.wflag && fs.Fat() == old(fs.Fat())
      ensures res.Ok? && err.Ok? ==> Content() == old(Content())
      ensures res.Ok? ==> fs.Store() == old(fs.Store())[dirSect :=
                UpdatedEntry(fs.geo, old(fs.Store()[dirSect]), dirOfs, sclust, objsize, tm)]
      ensures res.Ok? && err.Ok? ==> ReadBack(fs.geo, fs.media, dirSect, dirOfs) == Content()
      ensures res.Ok? && fs.geo.fsInfo && old(fs.fsiDirty) && fs.faults == old(fs.faults) ==>
                FsInfoHolds(fs.media[fs.geo.volbase + 1], fs.freeClst, fs.lastClst)
    {
      hide Volume.Valid, Volume.Fat, Volume.Store, Entries, FileObject.InPool, Geometry.ClearOf, FsInfoHolds;
      hide CoreOf, SectAt, ClusterIndex, FileBytes, UpdatedEntry, ReadBack, LoadClust, LdDword;
      fs.GeoFacts();
      ghost var w := fs.winsect;
      res := fs.MoveWindow(dirSect);
      OffPool(w, fs.winsect);
      if res.Ok? {
        fs.WinShows();
        ghost var st := fs.Store();
        fs.StoreWin(UpdatedEntry(fs.geo, fs.win[..], dirOfs, sclust, objsize, tm));
        EntryStored(st, tm);
        w := fs.winsect;
        res := fs.SyncFs();
        OffPool(w, fs.winsect);
        modified := false;
        if res.Ok? && err.Ok? { Durable(); }
      }
    }

    /** Sectors below the data area, and none, are off the pool. */
    lemma OffPool(w0: nat, w: nat)
      requires fs.Valid() && fs.geo.ClearOf(pool, w0) && fs.geo.ClearOf(pool, dirSect)
      requires w == w0 || w == dirSect || w == DISK_ERROR || w == fs.geo.volbase + 1
      ensures fs.geo.ClearOf(pool, w)
    {
      fs.GeoFacts();
      forall c | c in pool ensures !fs.geo.InCluster(c, w) {
        if fs.geo.InCluster(c, w) { fs.geo.ClusterInData(c, w); }
      }
    }

    /** The directory entry lies off the file's sectors. */
    lemma EntryStored(st: seq<Sector>, tm: nat)
      requires Base() && (err.Ok? ==> Core()) && |st| == fs.geo.total && tm < DWORD_VALUES
      requires fs.Store() == st[dirSect := UpdatedEntry(fs.geo, st[dirSect], dirOfs, sclust, objsize, tm)]
      ensures err.Ok? ==> EntryAgrees(fs.Store()[dirSect])
      ensures err.Ok? ==> FileBytes(fs.geo, fs.Store(), chain, objsize) == FileBytes(fs.geo, st, chain, objsize)
      ensures sect != 0 ==> sect < |st| && fs.Store()[sect] == st[sect]
    {
      hide UpdatedEntry, SectAt, FileBytes, LoadClust, LdDword, Volume.Valid, Volume.Store, IsChain, FreeSet;
      hide Geometry.ClearOf;
      fs.GeoFacts();
      if sect != 0 { PoolSector(sect); }
      if err.Ok? {
        HeadCluster();
        CoreFacts();
        EntryHolds(fs.geo, st[dirSect], dirOfs, sclust, objsize, tm);
        forall k | 0 <= k < Capacity(fs.geo, chain) ensures SectAt(fs.geo, chain, k) != dirSect {
          FileSector(k);
          PoolSector(SectAt(fs.geo, chain, k));
        }
        BytesSame(fs.geo, st, fs.Store(), chain, objsize);
      }
    }

    lemma Durable()
      requires Base() && Core() && !dirty && !fs.wflag && EntryAgrees(fs.Store()[dirSect])
      ensures ReadBack(fs.geo, fs.media, dirSect, dirOfs) == Content()
    {
      hide ReadBack, LoadClust, LdDword, FatRegion, Entries, IsChain, FreeSet, Geometry.ClearOf, FileObject.InPool;
      DriveTells(fs.geo, fs.media, dirSect, dirOfs, chain, objsize);
    }

    /** Moves a freshly opened file to its end, as opening for append does. */
    method SeekEnd() returns (res: FResult)
      requires Valid() && err.Ok? && fptr == 0 && sect == 0 && !dirty
      modifies this`clust, this`sect, this`fptr, this`err, buf
      modifies fs`wflag, fs`media, fs`faults, fs`winsect, fs`stale, fs.win
      ensures Valid() && fs.faults >= old(fs.faults) && res == err
      ensures fs.Fat() == old(fs.Fat()) && fs.Store() == old(fs.Store())
      ensures res.Ok? ==> fptr == objsize && Content() == old(Content())
      ensures !res.Ok? ==> res.DiskErr? && fs.faults > old(fs.faults)
    {
      hide Volume.Valid, Volume.Fat, Volume.Store, Entries, FileObject.InPool, Geometry.ClearOf;
      hide CoreOf, FileBytes, ClusterIndex, SectAt, Geometry.WellFormed;
      res := Ok;
      if objsize > 0 {
        var ns;
        res, ns := FollowToEnd();
        if res.Ok? && fptr % 512 != 0 {
          InsidePool();
          InsideSector(fs.geo, fptr);
          res := Load(ns);
        }
        if !res.Ok? { Abort(res); }
      }
    }

    /** Follows the chain to the last byte of the file. */
    method FollowToEnd() returns (res: FResult, ns: nat)
      requires Base() && Core() && objsize > 0
      modifies this`clust, this`fptr
      modifies fs`wflag, fs`media, fs`faults, fs`winsect, fs`stale, fs.win
      ensures Base() && fs.faults >= old(fs.faults)
      ensures fs.Fat() == old(fs.Fat()) && fs.Store() == old(fs.Store())
      ensures res.Ok? ==> fptr == objsize && Landed(ns)
      ensures !res.Ok? ==> res.DiskErr? && fs.faults > old(fs.faults)
    {
      hide Volume.Valid, Volume.Fat, Volume.Store, Entries, FileObject.InPool, Geometry.ClearOf;
      hide CoreOf, FileBytes, ClusterTop, ClusterIndex, SectAt, Capacity, Geometry.ClusterSector;
      hide Geometry.WellFormed, Geometry.ClusterBytes, BitAnd, PowerOfTwo;
      fs.GeoFacts();
      fs.EntryCounts();
      HeadCluster();
      CoreFacts();
      WholeSectors(fs.geo);
      NextTop(fs.geo, 0, 0);
      CapacityTop(fs.geo, chain);
      NotEmpty();
      var bcs := fs.geo.ClusterBytes();
      var clst := sclust;
      var ofs: nat := objsize;
      ghost var j: nat := 0;
      res, ns := Ok, 0;
      while ofs > bcs
        invariant Base() && fs.faults >= old(fs.faults)
        invariant fs.Fat() == old(fs.Fat()) && fs.Store() == old(fs.Store())
        invariant Core() && j < |chain| && clst == chain[j] && 0 < ofs
        invariant ClusterTop(fs.geo, j) + ofs == objsize
        decreases ofs
      {
        NextTop(fs.geo, j, |chain|);
        LinkAt(j + 1);
        ghost var w := fs.winsect;
        clst := fs.GetFat(clst);
        WindowClear(w, fs.winsect);
        if clst == DISK_ERROR { return DiskErr, 0; }
        assert clst == chain[j + 1];  // so no internal error
        j := j + 1;
        ofs := ofs - bcs;
      }
      clust := clst;
      fptr := objsize - ofs;
      ns := Land(j, ofs);
    }

    lemma NotEmpty()
      requires Base() && Core() && objsize > 0
      ensures |chain| > 0
    {
      HeadCluster();
    }

    lemma ValidBase()
      requires Valid()
      ensures Base() && fs.Valid()
    {
    }
  }

  lemma TakeAll(s: seq<Byte>)
    ensures s[..|s|] == s
  {
  }

  lemma ElemsSplit(ch: seq<nat>, k: nat)
    requires k <= |ch|
    ensures Elems(ch) == Elems(ch[..k]) + Elems(ch[k..])
  {
    assert ch == ch[..k] + ch[k..];
  }

  /** One more round of a write. */
  lemma SpliceMore(s: seq<Byte>, p: nat, d: seq<Byte>, bw: nat, btw: nat, cnt: nat)
    requires p <= |s| && bw + btw <= |d| && cnt <= btw
    ensures Splice(Splice(s, p, d[..bw]), p + bw, d[bw..bw + btw][..cnt]) == Splice(s, p, d[..bw + cnt])
  {
    SpliceSplice(s, p, d[..bw], d[bw..bw + btw][..cnt]);
    assert d[..bw] + d[bw..bw + btw][..cnt] == d[..bw + cnt];
  }

  lemma SpliceNone(s: seq<Byte>, p: nat, d: seq<Byte>)
    requires p <= |s|
    ensures Splice(s, p, d[..0]) == s
  {
  }

  lemma NoneFree(t: Table)
    ensures |FreeSet(t)| == 0 ==> FreeSet(t) == {}
  {
  }

  lemma CapacityGrows(g: Geometry, ch: seq<nat>, c: nat)
    ensures Capacity(g, ch) <= Capacity(g, ch + [c])
  {
    assert g.csize * (|ch| + 1) == g.csize * |ch| + g.csize;
  }

  /** Sectors just read, with the dirty one put over them, are what the file
      means them to be. */
  lemma DirtyOver(st: seq<Sector>, dirty: bool, sect: nat, w: Sector, s: nat, m: nat, piece: seq<Byte>)
    requires s + m <= |st|
    requires piece == if dirty && s <= sect < s + m then Blit(Join(st[s..s + m]), 512 * (sect - s), w)
                      else Join(st[s..s + m])
    ensures piece == Join(Image(st, dirty, sect, w)[s..s + m])
  {
    var a := Join(Image(st, dirty, sect, w)[s..s + m]);
    forall i | 0 <= i < |a| ensures a[i] == piece[i] {
      if dirty && s <= sect < s + m {
        assert i / 512 == sect - s <==> 512 * (sect - s) <= i < 512 * (sect - s) + 512;
      }
    }
  }

  /** First cluster in a directory entry; FAT12/16 keep 16 bits. */
  function LoadClust(g: Geometry, e: seq<Byte>, o: nat): nat
    requires o + 32 <= |e|
  {
    LdWord(e, o + 26) + if g.fsType.FAT32? then 0x1_0000 * LdWord(e, o + 20) else 0
  }

  function StoreClust(g: Geometry, e: seq<Byte>, o: nat, cl: nat): (r: seq<Byte>)
    requires o + 32 <= |e|
    ensures |r| == |e|
  {
    var r := StWord(e, o + 26, cl);
    if g.fsType.FAT32? then StWord(r, o + 20, cl / 0x1_0000) else r
  }

  /** The start cluster is the number in bytes 26 and 27 of the entry, with the
      upper half in bytes 20 and 21 on FAT32 only. */
  lemma ClustFields(g: Geometry, e: seq<Byte>, o: nat)
    requires o + 32 <= |e|
    ensures LoadClust(g, e, o) ==
            Value(e[o + 26..o + 28] + if g.fsType.FAT32? then e[o + 20..o + 22] else [])
  {
    hide LdWord;
    var lo, hi := e[o + 26..o + 28], e[o + 20..o + 22];
    WordOf(e, o + 26);
    WordOf(e, o + 20);
    assert (lo + hi)[2..] == hi && (lo + hi)[..2] == lo && lo + [] == lo;
    WordValue(lo + hi);
    WordValue(lo);
    assert LdWord(lo + hi, 0) == LdWord(lo, 0) by { SameWord(lo + hi, lo); }
  }

  lemma SameWord(a: seq<Byte>, b: seq<Byte>)
    requires |a| >= 2 && |b| >= 2 && a[..2] == b[..2]
    ensures LdWord(a, 0) == LdWord(b, 0)
  {
    assert a[..2][0] == a[0] && a[..2][1] == a[1];
  }

  /** The start cluster survives its directory entry: FAT12/16 cluster numbers
      fit in 16 bits because mount bounds them. */
  lemma StartClusterRoundTrip(g: Geometry, e: seq<Byte>, o: nat, cl: nat)
    requires g.WellFormed() && o + 32 <= |e| && (cl == 0 || g.IsCluster(cl))
    ensures LoadClust(g, StoreClust(g, e, o, cl), o) == cl
    ensures forall i :: 0 <= i < |e| && !(o + 20 <= i < o + 22 || o + 26 <= i < o + 28) ==>
              StoreClust(g, e, o, cl)[i] == e[i]
  {
    var r := StWord(e, o + 26, cl);
    if g.fsType.FAT32? {
      var q := StWord(r, o + 20, cl / 0x1_0000);
      assert LdWord(q, o + 26) == LdWord(r, o + 26);
    }
  }

  /** The sector of a directory entry after a sync: archive bit set, start
      cluster, size and time stamps stored, access date cleared. */
  function UpdatedEntry(g: Geometry, e: Sector, o: nat, cl: nat, size: nat, tm: nat): (r: Sector)
    requires o + 32 <= 512
  {
    var e0: seq<Byte> := e[o + 11 := Archived(e[o + 11])];
    var e1 := StoreClust(g, e0, o, cl);
    var e2 := StDword(e1, o + 28, size);
    var e3 := StDword(e2, o + 22, tm);
    StWord(e3, o + 18, 0)
  }

  /** The entry at `o` of sector `r` after a sync, field by field: the archive
      bit 0x20 is set, the access date at 18 is zero, the time stamp is at 22, the
      start cluster at 26 and on FAT32 its upper half at 20, the size at 28. All
      else is as in `e`: name, the other attribute bits, bytes 12 to 17 with the
      creation time, and the rest of the sector. */
  ghost predicate SyncedEntry(g: Geometry, e: Sector, r: Sector, o: nat, cl: nat, size: nat, tm: nat) {
    && o + 32 <= 512
    && r[..o + 11] == e[..o + 11] && r[o + 32..] == e[o + 32..]
    && BitAnd(r[o + 11], 0x20) == 0x20
    && r[o + 11] as int - BitAnd(r[o + 11], 0x20) == e[o + 11] as int - BitAnd(e[o + 11], 0x20)
    && r[o + 12..o + 18] == e[o + 12..o + 18]
    && r[o + 18..o + 20] == [0, 0]
    && r[o + 20..o + 22] == (if g.fsType.FAT32? then LowBytes(cl / 0x1_0000, 2) else e[o + 20..o + 22])
    && r[o + 22..o + 26] == LowBytes(tm, 4)
    && r[o + 26..o + 28] == LowBytes(cl, 2)
    && r[o + 28..o + 32] == LowBytes(size, 4)
  }

  /** The four stores of a sync do that. */
  lemma SyncedBytes(g: Geometry, e: Sector, o: nat, cl: nat, size: nat, tm: nat)
    requires o + 32 <= 512
    ensures SyncedEntry(g, e, UpdatedEntry(g, e, o, cl, size, tm), o, cl, size, tm)
  {
    hide UpdatedEntry, LowBytes, BitAnd, Archived;
    SyncedFrame(g, e, o, cl, size, tm);
    SyncedClust(g, e, o, cl, size, tm);
    SyncedStamps(g, e, o, cl, size, tm);
    ArchiveBit(e[o + 11]);
  }

  lemma SyncedFrame(g: Geometry, e: Sector, o: nat, cl: nat, size: nat, tm: nat)
    requires o + 32 <= 512
    ensures var r := UpdatedEntry(g, e, o, cl, size, tm);
            && r[o + 11] == Archived(e[o + 11])
            && r[..o + 11] == e[..o + 11] && r[o + 32..] == e[o + 32..] && r[o + 12..o + 18] == e[o + 12..o + 18]
  {
    hide StWord, StDword, StoreClust, Archived;
    ClustBytes(g, e[o + 11 := Archived(e[o + 11])], o, cl);
    var r := UpdatedEntry(g, e, o, cl, size, tm);
    SamePart(r, e, o + 12, o + 18);
    SamePart(r, e, 0, o + 11);
    SamePart(r, e, o + 32, 512);
  }

  lemma SyncedClust(g: Geometry, e: Sector, o: nat, cl: nat, size: nat, tm: nat)
    requires o + 32 <= 512
    ensures var r := UpdatedEntry(g, e, o, cl, size, tm);
            && r[o + 20..o + 22] == (if g.fsType.FAT32? then LowBytes(cl / 0x1_0000, 2) else e[o + 20..o + 22])
            && r[o + 26..o + 28] == LowBytes(cl, 2)
  {
    hide StWord, StDword, StoreClust, Archived, LowBytes;
    var e0: seq<Byte> := e[o + 11 := Archived(e[o + 11])];
    var r := UpdatedEntry(g, e, o, cl, size, tm);
    ClustBytes(g, e0, o, cl);
    SamePart(r, StoreClust(g, e0, o, cl), o + 20, o + 22);
    SamePart(r, StoreClust(g, e0, o, cl), o + 26, o + 28);
    SamePart(e0, e, o + 20, o + 22);
  }

  lemma SyncedStamps(g: Geometry, e: Sector, o: nat, cl: nat, size: nat, tm: nat)
    requires o + 32 <= 512
    ensures var r := UpdatedEntry(g, e, o, cl, size, tm);
            && r[o + 18..o + 20] == [0, 0] && r[o + 22..o + 26] == LowBytes(tm, 4)
            && r[o + 28..o + 32] == LowBytes(size, 4)
  {
    hide StWord, StDword, StoreClust, Archived, LowBytes;
    var e1 := StoreClust(g, e[o + 11 := Archived(e[o + 11])], o, cl);
    var e2 := StDword(e1, o + 28, size);
    var e3 := StDword(e2, o + 22, tm);
    var r := UpdatedEntry(g, e, o, cl, size, tm);
    DwordBytes(e1, o + 28, size);
    DwordBytes(e2, o + 22, tm);
    WordBytes(e3, o + 18, 0);
    ZeroBytes();
    SamePart(r, e3, o + 22, o + 26);
    SamePart(r, e2, o + 28, o + 32);
  }

  lemma SamePart(a: seq<Byte>, b: seq<Byte>, i: nat, j: nat)
    requires i <= j <= |a| == |b| && forall k :: i <= k < j ==> a[k] == b[k]
    ensures a[i..j] == b[i..j]
    ensures i == 0 ==> a[..j] == b[..j]
    ensures j == |a| ==> a[i..] == b[i..]
  {
  }

  lemma ArchiveBit(a: Byte)
    ensures BitAnd(Archived(a), 0x20) == 0x20
    ensures Archived(a) as int - BitAnd(Archived(a), 0x20) == a as int - BitAnd(a, 0x20)
  {
    hide BitAnd;
    AttributeBits(a);
    AttributeBits(Archived(a));
  }

  lemma ZeroBytes()
    ensures LowBytes(0, 2) == [0, 0]
  {
    assert LowBytes(0, 2) == [0] + LowBytes(0, 1);
    assert LowBytes(0, 1) == [0] + LowBytes(0, 0);
  }

  /** Where the start cluster lies in the entry at `o`: its low half at 26, its
      high half, which FAT12 and FAT16 leave alone, at 20. */
  lemma ClustBytes(g: Geometry, e: seq<Byte>, o: nat, cl: nat)
    requires o + 32 <= |e|
    ensures StoreClust(g, e, o, cl)[o + 26..o + 28] == LowBytes(cl, 2)
    ensures StoreClust(g, e, o, cl)[o + 20..o + 22] ==
            if g.fsType.FAT32? then LowBytes(cl / 0x1_0000, 2) else e[o + 20..o + 22]
    ensures forall i :: 0 <= i < |e| && !(o + 20 <= i < o + 22 || o + 26 <= i < o + 28) ==>
              StoreClust(g, e, o, cl)[i] == e[i]
  {
    hide StWord, LowBytes;
    var r := StWord(e, o + 26, cl);
    WordBytes(e, o + 26, cl);
    if g.fsType.FAT32? {
      WordBytes(r, o + 20, cl / 0x1_0000);
      assert StoreClust(g, e, o, cl)[o + 26..o + 28] == r[o + 26..o + 28];
    } else {
      assert r[o + 20..o + 22] == e[o + 20..o + 22];
    }
  }

  /** A synced entry tells cluster and size, and nothing else in the sector but
      this entry's bookkeeping changed. */
  lemma EntryHolds(g: Geometry, e: Sector, o: nat, cl: nat, size: nat, tm: nat)
    requires g.WellFormed() && o + 32 <= 512 && (cl == 0 || g.IsCluster(cl)) && size < DWORD_VALUES
    ensures LoadClust(g, UpdatedEntry(g, e, o, cl, size, tm), o) == cl
    ensures LdDword(UpdatedEntry(g, e, o, cl, size, tm), o + 28) == size
    ensures forall i :: 0 <= i < 512 && !(o + 11 <= i < o + 32) ==> UpdatedEntry(g, e, o, cl, size, tm)[i] == e[i]
  {
    hide StWord, StDword, StoreClust, Geometry.WellFormed;
    var e0: seq<Byte> := e[o + 11 := Archived(e[o + 11])];
    StartClusterRoundTrip(g, e0, o, cl);
    var e1 := StoreClust(g, e0, o, cl);
    var e2 := StDword(e1, o + 28, size);
    var e3 := StDword(e2, o + 22, tm);
    var r := StWord(e3, o + 18, 0);
    assert forall i :: o + 26 <= i < o + 28 || o + 20 <= i < o + 22 ==> r[i] == e1[i];
    assert forall i :: o + 28 <= i < o + 32 ==> r[i] == e2[i];
  }

  /** Name and kind of the entry survive a sync, and so does the rest of the
      sector. */
  lemma EntryKeeps(g: Geometry, e: Sector, o: nat, cl: nat, size: nat, tm: nat)
    requires o + 32 <= 512
    ensures SameButEntry(e, UpdatedEntry(g, e, o, cl, size, tm), o)
  {
    hide StWord, StDword;
  }

  lemma OnlySector(g: Geometry, pool: set<nat>, ds: nat, o: nat, st: seq<Sector>, t: Table, su: seq<Sector>)
    requires ds < |st| == |su| && forall s :: 0 <= s < |st| && s != ds ==> su[s] == st[s]
    requires SameButEntry(st[ds], su[ds], o)
    ensures KeptBut(g, pool, ds, o, st, t, su, t)
  {
  }

  /** The clusters met following links from `c`. */
  ghost function Walk(t: Table, c: nat, fuel: nat): seq<nat>
    decreases fuel
  {
    if fuel == 0 || c < 2 || c >= |t| then [] else [c] + Walk(t, t[c], fuel - 1)
  }

  /** The bytes a fresh mount would find for a directory entry, from the drive
      alone: start cluster and size from the entry, clusters from the FAT. */
  ghost function ReadBack(g: Geometry, m: seq<Sector>, ds: nat, o: nat): seq<Byte>
    requires g.WellFormed() && |m| == g.total && ds < |m| && o + 32 <= 512
  {
    var t := Entries(g.fsType, FatRegion(g, m), g.nFatent);
    FileBytes(g, m, Walk(t, LoadClust(g, m[ds], o), |t|), LdDword(m[ds], o + 28))
  }

  lemma {:induction false} WalkChain(t: Table, ch: seq<nat>, fuel: nat)
    requires IsChain(t, ch) && ch != [] && |ch| <= fuel
    ensures Walk(t, ch[0], fuel) == ch
    decreases fuel
  {
    if |ch| == 1 {
      assert ch == [ch[0]];
      assert fuel > 1 ==> Walk(t, t[ch[0]], fuel - 1) == [];
    } else {
      var rest := ch[1..];
      assert rest[|rest| - 1] == ch[|ch| - 1];
      assert IsChain(t, rest);
      WalkChain(t, rest, fuel - 1);
      assert ch == [ch[0]] + rest;
    }
  }

  lemma ChainShort(t: Table, ch: seq<nat>)
    requires IsChain(t, ch) && |t| >= 2
    ensures |ch| <= |t|
  {
    ElemsSize(ch);
    SubsetSize(Elems(ch), Clusters(|t|));
  }

  /** With nothing left in the window or the buffer, the drive alone gives back
      the file. */
  lemma DriveTells(g: Geometry, m: seq<Sector>, ds: nat, o: nat, ch: seq<nat>, n: nat)
    requires g.WellFormed() && |m| == g.total && ds < |m| && o + 32 <= 512
    requires IsChain(Entries(g.fsType, FatRegion(g, m), g.nFatent), ch) && n <= 512 * Capacity(g, ch)
    requires LoadClust(g, m[ds], o) == (if ch == [] then 0 else ch[0]) && LdDword(m[ds], o + 28) == n
    ensures ReadBack(g, m, ds, o) == FileBytes(g, StoreRegion(g, m), ch, n)
  {
    hide FatRegion, StoreRegion, Entries, FileBytes, LoadClust, LdDword, Geometry.WellFormed, Capacity, IsChain, Walk;
    g.Bounds();
    var t := Entries(g.fsType, FatRegion(g, m), g.nFatent);
    WalkBack(t, ch);
    ChainClusters(g, t, ch);
    StoredBytes(g, m, ch, n);
  }

  /** So the drive holds the file in its clusters, end to end. */
  lemma DriveHolds(g: Geometry, m: seq<Sector>, ds: nat, o: nat, ch: seq<nat>, n: nat)
    requires g.WellFormed() && |m| == g.total && ds < |m| && o + 32 <= 512
    requires IsChain(Entries(g.fsType, FatRegion(g, m), g.nFatent), ch) && n <= 512 * Capacity(g, ch)
    requires LoadClust(g, m[ds], o) == (if ch == [] then 0 else ch[0]) && LdDword(m[ds], o + 28) == n
    ensures OnDrive(g, m, ch) && ReadBack(g, m, ds, o) == ChainData(g, m, ch)[..n]
  {
    hide FatRegion, StoreRegion, Entries, FileBytes, LoadClust, LdDword, Geometry.WellFormed, IsChain, ReadBack;
    g.Bounds();
    var t := Entries(g.fsType, FatRegion(g, m), g.nFatent);
    ChainClusters(g, t, ch);
    DriveTells(g, m, ds, o, ch, n);
    StoredBytes(g, m, ch, n);
    FileIsClusters(g, m, ch, n);
  }

  lemma ChainClusters(g: Geometry, t: Table, ch: seq<nat>)
    requires IsChain(t, ch) && |t| == g.nFatent
    ensures AllClusters(g, ch)
  {
  }

  lemma WalkBack(t: Table, ch: seq<nat>)
    requires IsChain(t, ch) && |t| >= 2
    ensures Walk(t, if ch == [] then 0 else ch[0], |t|) == ch
  {
    ChainShort(t, ch);
    if ch == [] {
      assert Walk(t, 0, |t|) == [];
    } else {
      WalkChain(t, ch, |t|);
    }
  }

  /** Data sectors mean the same on the drive and in the volume's own view. */
  lemma StoredBytes(g: Geometry, m: seq<Sector>, ch: seq<nat>, n: nat)
    requires g.WellFormed() && |m| == g.total && AllClusters(g, ch) && n <= 512 * Capacity(g, ch)
    ensures FileBytes(g, m, ch, n) == FileBytes(g, StoreRegion(g, m), ch, n)
  {
    hide SectAt, FileBytes, Geometry.WellFormed, Geometry.InCluster, Geometry.Shadow, Geometry.InFat, StoreRegion;
    forall k | 0 <= k < Capacity(g, ch)
      ensures SectAt(g, ch, k) < |m| && StoreRegion(g, m)[SectAt(g, ch, k)] == m[SectAt(g, ch, k)]
    {
      SectInCluster(g, ch, k);
      g.ClusterInData(ch[k / g.csize], SectAt(g, ch, k));
    }
    BytesSame(g, m, StoreRegion(g, m), ch, n);
  }
}
