/** An open directory: its cursor moves over the table through the volume's
    window, finds, registers and erases entries. */
module Directories {
  import opened Bytes
  import opened Layout
  import opened Chains
  import opened FatCodec
  import opened Volumes
  import opened FileData
  import opened DirWalk
  import opened DirTables
  import opened DirData
  import opened Names

  /** The table ends behind `p` and its chain could be stretched. */
  predicate AtEnd(t: Table, g: Geometry, p: Place) {
    Crosses(g, p) && Link(t, p.clust) >= g.nFatent
  }

  class Directory {
    const fs: Volume
    const sclust: nat     // first cluster; 0: root
    var dptr: nat         // offset of the current entry
    var clust: nat        // its cluster; 0: static table
    var sect: nat         // its sector; 0: the read has ended
    var attr: nat         // attributes of the last entry looked at
    var fn: Name          // the name in hand
    ghost var chain: seq<nat>

    constructor (fs: Volume, sclust: nat, fn: Name, ghost chain: seq<nat>)
      requires fs.Valid() && !fs.stale && DirOf(fs.geo, fs.Table(), sclust, chain)
      ensures Valid() && this.fs == fs && this.sclust == sclust && this.fn == fn && this.chain == chain
    {
      this.fs, this.sclust, this.fn, this.chain := fs, sclust, fn, chain;
      dptr, clust, sect, attr := 0, 0, 0, 0;
    }

    ghost predicate Valid()
      reads this, fs, fs.win
    {
      fs.Valid() && !fs.stale && DirOf(fs.geo, fs.Table(), sclust, chain)
    }

    ghost function List(): (rs: seq<Record>)
      reads this, fs, fs.win
      requires fs.Valid()
      ensures |rs| == Slots(fs.geo, chain)
    {
      Records(fs.geo, fs.Store(), chain)
    }

    function Here(): Place
      reads this
    {
      Place(dptr, clust, sect)
    }

    /** Goes to offset `ofs` of the table. */
    method Seek(ofs: nat) returns (res: FResult)
      requires fs.Valid()
      modifies this`dptr, this`clust, this`sect, fs`wflag, fs`media, fs`faults, fs`winsect, fs`stale, fs.win
      ensures fs.Valid() && fs.faults >= old(fs.faults) && (fs.stale ==> old(fs.stale))
      ensures fs.Fat() == old(fs.Fat()) && fs.Store() == old(fs.Store())
      ensures res.DiskErr? ==> fs.faults > old(fs.faults)
      ensures !res.DiskErr? ==>
                SeekTo(fs.Table(), fs.geo, sclust, ofs) == if res.Ok? then Moved(Here()) else Stuck(res)
    {
      hide Volume.Valid, Volume.Fat, Volume.Store, Entries, Geometry.WellFormed, ClusterNo, PlaceInCluster, ClusterTop;
      hide Nth, Geometry.ClusterBytes, Geometry.ClusterSector;
      if ofs >= MAX_DIR || ofs % ENTRY != 0 { return IntErr; }
      fs.GeoFacts();
      fs.EntryCounts();
      SectorsPositive(fs.Table(), fs.geo);
      NotCluster(fs.geo);
      dptr := ofs;
      var c, rest := sclust, ofs;
      if c == 0 && fs.geo.fsType.FAT32? { c := fs.geo.dirbase; }
      if c == 0 {
        if ofs / ENTRY >= fs.geo.nRootdir { return IntErr; }
        sect := fs.geo.dirbase;
      } else {
        ghost var start, j := c, 0;
        var csz := fs.geo.ClusterBytes();
        ClusterBytesPositive(fs.geo);
        NextTop(fs.geo, 0, 0);
        NthNext(fs.Table(), start, 0);
        while rest >= csz
          invariant fs.Valid() && fs.faults >= old(fs.faults) && (fs.stale ==> old(fs.stale))
          invariant fs.Fat() == old(fs.Fat()) && fs.Store() == old(fs.Store())
          invariant dptr == ofs && ClusterTop(fs.geo, j) + rest == ofs && c == Nth(fs.Table(), start, j) != 0
        {
          NthNext(fs.Table(), start, j);
          OffsetParts(fs.geo, ofs, j, rest);
          NextTop(fs.geo, j, 0);
          c := fs.GetFat(c);
          if c == DISK_ERROR { return DiskErr; }
          if c < 2 || c >= fs.geo.nFatent {
            NthDead(fs.Table(), start, j + 1, ClusterNo(fs.geo, ofs));
            return IntErr;
          }
          rest := rest - csz;
          j := j + 1;
        }
        OffsetParts(fs.geo, ofs, j, rest);
        sect := fs.geo.ClusterSector(c);
      }
      clust := c;
      if sect == 0 { return IntErr; }
      sect := sect + rest / 512;
      res := Ok;
    }

    /** Steps to the next entry; `stretch` lets the table grow by a cluster. */
    method Next(stretch: bool) returns (res: FResult)
      requires fs.Valid()
      modifies this`dptr, this`clust, this`sect, fs`wflag, fs`media, fs`faults, fs`winsect, fs`stale, fs.win
      modifies fs`freeClst, fs`lastClst, fs`fsiDirty
      ensures fs.Valid() && fs.faults >= old(fs.faults)
      ensures res.DiskErr? ==> fs.faults > old(fs.faults)
      ensures !(stretch && old(AtEnd(fs.Table(), fs.geo, Here()))) ==>
                && fs.Fat() == old(fs.Fat()) && fs.Store() == old(fs.Store()) && (fs.stale ==> old(fs.stale))
                && fs.freeClst == old(fs.freeClst) && fs.lastClst == old(fs.lastClst) && fs.fsiDirty == old(fs.fsiDirty)
                && (!res.DiskErr? ==>
                      StepFrom(fs.Table(), fs.geo, old(Here())) == if res.Ok? then Moved(Here()) else Stuck(res))
      ensures stretch && old(AtEnd(fs.Table(), fs.geo, Here())) && !res.DiskErr? ==>
                && Stretched(old(clust), res, clust, old(fs.Table()), old(fs.Store()), old(fs.freeClst),
                             old(fs.lastClst))
                && (res.Ok? ==> dptr == old(dptr) + ENTRY && sect == fs.geo.ClusterSector(clust))
                && (old(fs.CountOk()) ==> fs.CountOk()) && (fs.stale ==> old(fs.stale))
    {
      hide Volume.Valid, Volume.Fat, Volume.Store, Entries, Geometry.WellFormed, PlaceInCluster;
      hide Geometry.ClusterSector, BitAnd;
      hide CountRight, FreeSet, Directory.Stretched;
      fs.GeoFacts();
      var ofs := dptr + ENTRY;
      if ofs >= MAX_DIR { sect := 0; }
      if sect == 0 { return NoFile; }
      if ofs % 512 == 0 {
        MaskPlace(fs.geo, ofs / 512);
        sect := sect + 1;
        if clust == 0 {
          if ofs / ENTRY >= fs.geo.nRootdir { sect := 0; return NoFile; }
        } else if BitAnd(ofs / 512, fs.geo.csize - 1) == 0 {
          res := Cross(stretch);
          return;
        }
      }
      dptr := ofs;
      res := Ok;
    }

    /** The step into the cluster behind the current one. */
    method Cross(stretch: bool) returns (res: FResult)
      requires fs.Valid()
      modifies this`dptr, this`clust, this`sect, fs`wflag, fs`media, fs`faults, fs`winsect, fs`stale, fs.win
      modifies fs`freeClst, fs`lastClst, fs`fsiDirty
      ensures fs.Valid() && fs.faults >= old(fs.faults)
      ensures res.DiskErr? ==> fs.faults > old(fs.faults)
      ensures !(stretch && Link(old(fs.Table()), old(clust)) >= fs.geo.nFatent) ==>
                && fs.Fat() == old(fs.Fat()) && fs.Store() == old(fs.Store()) && (fs.stale ==> old(fs.stale))
                && fs.freeClst == old(fs.freeClst) && fs.lastClst == old(fs.lastClst) && fs.fsiDirty == old(fs.fsiDirty)
                && (!res.DiskErr? ==>
                      var d := Link(fs.Table(), old(clust));
                      if d <= 1 then res.IntErr? else if d >= fs.geo.nFatent then res.NoFile?
                      else res.Ok? && Here() == Place(old(dptr) + ENTRY, d, fs.geo.ClusterSector(d)))
      ensures stretch && Link(old(fs.Table()), old(clust)) >= fs.geo.nFatent && !res.DiskErr? ==>
                && Stretched(old(clust), res, clust, old(fs.Table()), old(fs.Store()), old(fs.freeClst),
                             old(fs.lastClst))
                && (res.Ok? ==> dptr == old(dptr) + ENTRY && sect == fs.geo.ClusterSector(clust))
                && (old(fs.CountOk()) ==> fs.CountOk()) && (fs.stale ==> old(fs.stale))
    {
      hide Volume.Valid, Volume.Fat, Volume.Store, Entries, Geometry.WellFormed, Geometry.ClusterSector;
      hide CreateReply, CreateTable, Blit, CountRight, FreeSet;
      fs.EntryCounts();
      var c := fs.GetFat(clust);
      if c <= 1 { return IntErr; }
      if c == DISK_ERROR { return DiskErr; }
      if c >= fs.geo.nFatent {
        if !stretch { sect := 0; return NoFile; }
        res, c := Stretch();
        if !res.Ok? { return; }
      }
      clust := c;
      sect := fs.geo.ClusterSector(c);
      dptr := dptr + ENTRY;
      res := Ok;
    }

    /** What stretching the table behind cluster `p` by cluster `c` does. */
    ghost predicate Stretched(p: nat, res: FResult, c: nat, t: Table, st: seq<Sector>, free: nat, last: nat)
      reads this, fs, fs.win
      requires fs.Valid()
    {
      && |t| >= 3 && |st| == fs.geo.total
      && var r := CreateReply(t, free, last, p);
      && fs.Table() == CreateTable(t, fs.geo.Eoc(), free, last, p)
      && res == (if r == 0 then Denied else if r == 1 then IntErr else Ok)
      && if res.Ok? then
           && c == r && fs.geo.IsCluster(r) && fs.geo.ClusterSector(r) + fs.geo.csize <= |st|
           && fs.Store() == Blit(st, fs.geo.ClusterSector(r), ZeroSectors(fs.geo.csize))
         else fs.Store() == st
    }

    /** Links a zeroed cluster behind the current one. */
    method Stretch() returns (res: FResult, c: nat)
      requires fs.Valid() && fs.geo.IsCluster(clust) && fs.Table()[clust] >= fs.geo.nFatent
      modifies fs`wflag, fs`media, fs`faults, fs`winsect, fs`stale, fs.win
      modifies fs`freeClst, fs`lastClst, fs`fsiDirty
      ensures fs.Valid() && fs.faults >= old(fs.faults) && (fs.stale && !res.DiskErr? ==> old(fs.stale))
      ensures res.DiskErr? ==> fs.faults > old(fs.faults)
      ensures !res.DiskErr? ==>
                Stretched(clust, res, c, old(fs.Table()), old(fs.Store()), old(fs.freeClst), old(fs.lastClst))
      ensures !res.DiskErr? && old(fs.CountOk()) ==> fs.CountOk()
    {
      hide Volume.Valid, Volume.Fat, Volume.Store, Entries, Geometry.WellFormed, Geometry.ClusterSector;
      hide CreateTable, Blit, Pick, CountRight, FreeSet;
      fs.EntryCounts();
      PickSound(fs.Table(), clust, fs.lastClst);
      c := fs.CreateChain(clust);
      if c == 0 { return Denied, c; }
      if c == 1 { return IntErr, c; }
      if c == DISK_ERROR { return DiskErr, c; }
      res := fs.ClearCluster(c);
    }

    // ---- entries ----------------------------------------------------------

    /** The cursor is on entry `i`. */
    ghost predicate At(i: nat)
      reads this, fs
    {
      i < Slots(fs.geo, chain) && Here() == Spot(fs.geo, chain, i)
    }

    lemma Facts()
      requires Valid()
      ensures fs.Valid() && fs.geo.WellFormed() && |fs.Table()| == fs.geo.nFatent && |fs.Store()| == fs.geo.total
      ensures DirOf(fs.geo, fs.Table(), sclust, chain) && 0 < Slots(fs.geo, chain)
    {
      hide Volume.Fat, Volume.Store, Entries, IsChain;
      RootFacts(fs.geo);
      assert chain != [] ==> fs.geo.csize * |chain| > 0;
    }

    /** Brings the current entry into the window. */
    method Show(ghost i: nat) returns (res: FResult, r: Record)
      requires Valid() && At(i)
      modifies fs`wflag, fs`media, fs`faults, fs`winsect, fs`stale, fs.win
      ensures Valid() && fs.Valid() && fs.faults >= old(fs.faults)
      ensures fs.Fat() == old(fs.Fat()) && fs.Store() == old(fs.Store())
      ensures res.Ok? ==> r == List()[i] && fs.winsect == sect && EntryShows(i)
      ensures !res.Ok? ==> res.DiskErr? && fs.faults > old(fs.faults)
    {
      hide Volume.Valid, Volume.Fat, Volume.Store, Entries, DirOf, Geometry.WellFormed, DirSect, Slots;
      hide Geometry.InFat, Geometry.Shadow;
      Facts();
      SpotInTable(fs.geo, fs.Table(), sclust, chain, i);
      SlotNumbers(fs.geo, i, 0);
      res := fs.MoveWindow(sect);
      if !res.Ok? { return res, Blank(); }
      fs.WinShows();
      fs.GeoFacts();
      r := fs.win[dptr % 512..dptr % 512 + ENTRY];
      assert dptr % 512 == ENTRY * (i % 16);
      PokeRecord(fs.geo, fs.Table(), sclust, chain, fs.Store(), i, Blank());
    }

    /** The window holds the sector of entry `i`. */
    ghost predicate EntryShows(i: nat)
      reads this, fs, fs.win
    {
      && fs.Valid() && fs.winsect == sect < fs.geo.total && !fs.geo.InFat(sect) && !fs.geo.Shadow(sect)
      && fs.win[..] == fs.Store()[sect]
    }

    /** Stores the current entry, which shows in the window. */
    method Poke(ghost i: nat, r: Record)
      requires Valid() && At(i) && EntryShows(i)
      modifies fs`wflag, fs.win
      ensures Valid() && fs.Fat() == old(fs.Fat())
      ensures List() == old(List())[i := r]
      ensures forall s :: 0 <= s < fs.geo.total && s != sect ==> fs.Store()[s] == old(fs.Store())[s]
    {
      hide Volume.Valid, Volume.Fat, Volume.Store, Entries, DirOf, Geometry.WellFormed, DirSect, Slots;
      hide Geometry.InFat, Geometry.Shadow;
      Facts();
      PokeRecord(fs.geo, fs.Table(), sclust, chain, fs.Store(), i, r);
      SlotNumbers(fs.geo, i, 0);
      assert PutEntryIn(fs.win[..], dptr / ENTRY, r) == PutEntryIn(fs.Store()[sect], i, r);
      fs.StoreWin(PutEntryIn(fs.win[..], dptr / ENTRY, r));
    }

    /** Rewinds to entry 0. */
    method Rewind() returns (res: FResult)
      requires Valid()
      modifies this`dptr, this`clust, this`sect, fs`wflag, fs`media, fs`faults, fs`winsect, fs`stale, fs.win
      ensures Valid() && fs.Valid() && fs.faults >= old(fs.faults)
      ensures fs.Fat() == old(fs.Fat()) && fs.Store() == old(fs.Store())
      ensures if res.Ok? then At(0) else res.DiskErr? && fs.faults > old(fs.faults)
    {
      hide Volume.Valid, Volume.Fat, Volume.Store, Entries, DirOf, Geometry.WellFormed, SeekTo, Spot, Slots;
      Facts();
      SeekOnTable(fs.Table(), fs.geo, sclust, chain, 0);
      res := Seek(0);
    }

    /** Steps from entry `i` of a table that must not grow. */
    method StepOn(ghost i: nat) returns (res: FResult)
      requires Valid() && At(i)
      modifies this`dptr, this`clust, this`sect, fs`wflag, fs`media, fs`faults, fs`winsect, fs`stale, fs.win
      modifies fs`freeClst, fs`lastClst, fs`fsiDirty
      ensures Valid() && fs.Valid() && fs.faults >= old(fs.faults)
      ensures fs.Fat() == old(fs.Fat()) && fs.Store() == old(fs.Store())
      ensures fs.freeClst == old(fs.freeClst) && fs.lastClst == old(fs.lastClst) && fs.fsiDirty == old(fs.fsiDirty)
      ensures res.DiskErr? ==> fs.faults > old(fs.faults)
      ensures !res.DiskErr? ==> if i + 1 < Slots(fs.geo, chain) then res.Ok? && At(i + 1) else res.NoFile?
    {
      hide Volume.Valid, Volume.Fat, Volume.Store, Entries, DirOf, Geometry.WellFormed, StepFrom, Spot, Slots;
      Facts();
      StepOnTable(fs.Table(), fs.geo, sclust, chain, i);
      res := Next(false);
    }

    /** Compares the current entry with the name in hand. */
    method Look(ghost i: nat) returns (res: FResult, hit: bool)
      requires Valid() && At(i)
      modifies this`attr, fs`wflag, fs`media, fs`faults, fs`winsect, fs`stale, fs.win
      ensures Valid() && fs.Valid() && fs.faults >= old(fs.faults)
      ensures fs.Fat() == old(fs.Fat()) && fs.Store() == old(fs.Store())
      ensures res.DiskErr? ==> fs.faults > old(fs.faults)
      ensures !res.DiskErr? ==> i < |List()| && res == if List()[i][0] == 0 then NoFile else Ok
      ensures res.Ok? ==> hit == Hit(List()[i], fn) && attr == List()[i][11] as int % 64
    {
      hide Volume.Valid, Volume.Fat, Volume.Store, Entries, Slots, Records, Directory.EntryShows, Spot, DirOf;
      var r;
      res, r := Show(i);
      if !res.Ok? { return res, false; }
      if r[0] == 0 { return NoFile, false; }
      attr := r[11] as int % 64;
      hit := r[11] as int / 8 % 2 == 0 && r[..11] == fn;
    }

    /** The answer to a lookup that ends at entry `k`, or past the table. */
    ghost predicate Answer(res: FResult, k: nat)
      reads this, fs, fs.win
      requires fs.Valid()
    {
      if k < |List()| then res.Ok? && At(k) && attr == List()[k][11] as int % 64 else res.NoFile?
    }

    /** One round of the lookup: an answer, or on to the next entry. */
    method LookOn(ghost i: nat) returns (res: FResult, more: bool)
      requires Valid() && At(i)
      modifies this`dptr, this`clust, this`sect, this`attr, fs`wflag, fs`media, fs`faults, fs`winsect, fs`stale, fs.win
      modifies fs`freeClst, fs`lastClst, fs`fsiDirty
      ensures Valid() && fs.Valid() && fs.faults >= old(fs.faults)
      ensures fs.Fat() == old(fs.Fat()) && fs.Store() == old(fs.Store())
      ensures fs.freeClst == old(fs.freeClst) && fs.lastClst == old(fs.lastClst) && fs.fsiDirty == old(fs.fsiDirty)
      ensures res.DiskErr? ==> fs.faults > old(fs.faults) && !more
      ensures !res.DiskErr? ==>
                if more then res.Ok? && At(i + 1) && DirTables.Find(List(), fn, i) == DirTables.Find(List(), fn, i + 1)
                else Answer(res, DirTables.Find(List(), fn, i))
    {
      hide Volume.Valid, Volume.Fat, Volume.Store, Entries, Slots, Records, Spot, Hit, DirTables.Find, DirOf;
      Facts();
      FindStep(List(), fn, i);
      var hit;
      more := false;
      res, hit := Look(i);
      if !res.Ok? || hit { return; }
      res := StepOn(i);
      more := res.Ok?;
    }

    /** Looks the name in hand up. */
    method Find() returns (res: FResult)
      requires Valid()
      modifies this`dptr, this`clust, this`sect, this`attr, fs`wflag, fs`media, fs`faults, fs`winsect, fs`stale, fs.win
      modifies fs`freeClst, fs`lastClst, fs`fsiDirty
      ensures Valid() && fs.faults >= old(fs.faults)
      ensures fs.Fat() == old(fs.Fat()) && fs.Store() == old(fs.Store())
      ensures fs.freeClst == old(fs.freeClst) && fs.lastClst == old(fs.lastClst) && fs.fsiDirty == old(fs.fsiDirty)
      ensures res.DiskErr? ==> fs.faults > old(fs.faults)
      ensures !res.DiskErr? ==> Answer(res, DirTables.Find(List(), fn, 0))
      ensures !res.DiskErr? ==> forall k: nat :: FirstNamed(List(), fn, k) <==> res.Ok? && At(k)
    {
      hide FirstNamed;
      hide Volume.Valid, Volume.Fat, Volume.Store, Entries, Slots, Records, Directory.Valid, Spot;
      hide DirTables.Find, DirOf, Directory.Answer;
      Facts();
      ghost var i, k := 0, DirTables.Find(List(), fn, 0);
      res := Rewind();
      if !res.Ok? { return; }
      var more := true;
      while more
        invariant Valid() && fs.Valid() && fs.faults >= old(fs.faults)
        invariant fs.Fat() == old(fs.Fat()) && fs.Store() == old(fs.Store())
        invariant fs.freeClst == old(fs.freeClst) && fs.lastClst == old(fs.lastClst) && fs.fsiDirty == old(fs.fsiDirty)
        invariant more ==> At(i) && DirTables.Find(List(), fn, i) == k
        invariant !more ==> if res.DiskErr? then fs.faults > old(fs.faults) else Answer(res, k)
        decreases Slots(fs.geo, chain) - i, more
      {
        res, more := LookOn(i);
        if more { i := i + 1; }
      }
      if !res.DiskErr? { AnswerIsFirst(res); }
    }

    /** The answer in the bytes of the table. */
    lemma AnswerIsFirst(res: FResult)
      requires Valid() && Answer(res, DirTables.Find(List(), fn, 0))
      ensures forall k: nat :: FirstNamed(List(), fn, k) <==> res.Ok? && At(k)
    {
      hide Volume.Valid, Records, DirSect, FirstNamed, DirTables.Find, DirOf, ClusterNo, Slots;
      forall k: nat ensures FirstNamed(List(), fn, k) <==> res.Ok? && At(k) { FindIsFirst(List(), fn, k); }
    }

    /** Clusters the table holds or could be given. */
    ghost function Pool(): set<nat>
      reads this, fs, fs.win
      requires fs.Valid()
    {
      FreeSet(fs.Table()) + Elems(chain)
    }

    /** Steps from entry `i` of a table that may grow. */
    method StepOrGrow(ghost i: nat) returns (res: FResult)
      requires Valid() && At(i)
      modifies this`dptr, this`clust, this`sect, this`chain, fs`wflag, fs`media, fs`faults, fs`winsect, fs`stale, fs.win
      modifies fs`freeClst, fs`lastClst, fs`fsiDirty
      ensures fs.Valid() && fs.faults >= old(fs.faults)
      ensures res.DiskErr? ==> fs.faults > old(fs.faults)
      ensures !res.DiskErr? ==> Valid() && Pool() == old(Pool()) && (old(fs.CountOk()) ==> fs.CountOk())
      ensures !res.DiskErr? ==>
                Undisturbed(fs.geo, old(Pool()), old(chain), old(fs.Store()), old(fs.Table()), fs.Store(), fs.Table())
      ensures res.Ok? ==> At(i + 1)
      ensures !res.DiskErr? && !(res.Ok? && i + 1 == |old(List())|) ==> chain == old(chain) && List() == old(List())
      ensures !res.DiskErr? && i + 1 < |old(List())| ==>
                res.Ok? && fs.Fat() == old(fs.Fat()) && fs.Store() == old(fs.Store()) && fs.freeClst == old(fs.freeClst)
      ensures res.Ok? && i + 1 == |old(List())| ==> List() == old(List()) + Blanks(16 * fs.geo.csize)
      ensures res.Ok? && i + 1 == |old(List())| ==> Grew(old(chain), old(fs.Store()), old(fs.Table()))
      ensures !res.DiskErr? && !res.Ok? ==> fs.Store() == old(fs.Store()) && fs.Table() == old(fs.Table())
      ensures !res.DiskErr? && i + 1 == |old(List())| ==>
                Refused(res, CanGrow(fs.geo, old(chain)), old(fs.Table()), old(fs.freeClst))
    {
      hide Volume.Valid, Volume.Fat, Volume.Store, Entries, DirOf, Geometry.WellFormed, StepFrom, Spot, Slots;
      hide CountRight;
      hide CreateReply, CreateTable, FreeSet, Records, Directory.Stretched, Undisturbed, OnlyGrown, IsChain;
      hide Crosses, Link;
      Facts();
      StepOnTable(fs.Table(), fs.geo, sclust, chain, i);
      SpotOffset(fs.geo, chain, i);
      ghost var t, st, free, last, here := fs.Table(), fs.Store(), fs.freeClst, fs.lastClst, Here();
      res := Next(true);
      if i + 1 == Slots(fs.geo, chain) && CanGrow(fs.geo, chain) {
        if !res.DiskErr? { chain := Enlarge(here, t, st, free, last, res); }
      } else {
        NothingDisturbed(fs.geo, Pool(), chain, st, t);
      }
    }

    /** The table grew by the current cluster, and nothing else changed. */
    ghost predicate Grew(ch: seq<nat>, st: seq<Sector>, t: Table)
      reads this, fs, fs.win
      requires fs.Valid()
    {
      ch != [] && chain == ch + [clust] && OnlyGrown(fs.geo, clust, ch[|ch| - 1], st, t, fs.Store(), fs.Table())
    }

    /** What the stretching call did to the table, entry by entry. */
    ghost method Enlarge(here: Place, t: Table, st: seq<Sector>, free: nat, last: nat, res: FResult)
      returns (ch: seq<nat>)
      requires fs.Valid() && |t| == fs.geo.nFatent && |st| == fs.geo.total && DirOf(fs.geo, t, sclust, chain)
      requires CanGrow(fs.geo, chain) && here.clust == chain[|chain| - 1]
      requires here.dptr + ENTRY == ENTRY * Slots(fs.geo, chain)
      requires Stretched(here.clust, res, clust, t, st, free, last)
      requires res.Ok? ==> dptr == here.dptr + ENTRY && sect == fs.geo.ClusterSector(clust)
      ensures DirOf(fs.geo, fs.Table(), sclust, ch)
      ensures FreeSet(fs.Table()) + Elems(ch) == FreeSet(t) + Elems(chain)
      ensures Undisturbed(fs.geo, FreeSet(t) + Elems(chain), chain, st, t, fs.Store(), fs.Table())
      ensures Refused(res, true, t, free)
      ensures if res.Ok? then
                && Slots(fs.geo, chain) < Slots(fs.geo, ch) && Here() == Spot(fs.geo, ch, Slots(fs.geo, chain))
                && Records(fs.geo, fs.Store(), ch) == Records(fs.geo, st, chain) + Blanks(16 * fs.geo.csize)
                && ch == chain + [clust] && OnlyGrown(fs.geo, clust, here.clust, st, t, fs.Store(), fs.Table())
              else ch == chain && fs.Table() == t && fs.Store() == st
    {
      hide Volume.Valid, Volume.Fat, Volume.Store, Entries, Geometry.WellFormed, Slots, Spot, Records;
      hide CreateReply, CreateTable, Pick, FreeSet, IsChain, Undisturbed, OnlyGrown, Geometry.ClusterSector, Blit;
      fs.GeoFacts();
      fs.EntryCounts();
      StretchRequest(t, fs.geo.Eoc(), free, last, chain);
      if res.Ok? {
        ch := chain + [clust];
        StretchRecords(fs.geo, t, fs.Table(), sclust, chain, clust, st);
        Growth(fs.geo, t, fs.Table(), sclust, chain, clust);
        ZeroedApart(fs.geo, FreeSet(t) + Elems(chain), chain, st, t, fs.Table(), clust);
        LastInTable(t, chain);
        RequestTouches(t, fs.geo.Eoc(), free, last, here.clust);
        ZeroedGrown(fs.geo, clust, here.clust, st, t, fs.Table());
      } else {
        ch := chain;
        NothingDisturbed(fs.geo, FreeSet(t) + Elems(chain), chain, st, t);
      }
    }

    /** Why a table did not grow. */
    ghost predicate Refused(res: FResult, grows: bool, t: Table, free: nat) {
      match res
      case Ok => grows
      case NoFile => !grows
      case Denied => grows && (free == 0 || FreeSet(t) == {})
      case IntErr => grows && Corrupt(t)
      case _ => false
    }

    /** One round of the search for a free entry: it is entry `i`, or on to the
        next one, which may be new. */
    method TryFree(ghost i: nat) returns (res: FResult, more: bool)
      requires Valid() && At(i)
      modifies this`dptr, this`clust, this`sect, this`chain, fs`wflag, fs`media, fs`faults, fs`winsect, fs`stale, fs.win
      modifies fs`freeClst, fs`lastClst, fs`fsiDirty
      ensures fs.Valid() && fs.faults >= old(fs.faults)
      ensures res.DiskErr? ==> fs.faults > old(fs.faults)
      ensures !res.DiskErr? ==> Valid() && Pool() == old(Pool()) && (old(fs.CountOk()) ==> fs.CountOk())
      ensures !res.DiskErr? ==>
                Undisturbed(fs.geo, old(Pool()), old(chain), old(fs.Store()), old(fs.Table()), fs.Store(), fs.Table())
      ensures i < |old(List())| && (!res.DiskErr? ==> (IsVacant(old(List())[i]) <==> res.Ok? && !more))
      ensures more ==> res.Ok?
      ensures res.Ok? ==> if more then At(i + 1) else At(i) && EntryShows(i)
      ensures !res.DiskErr? && !(more && i + 1 == |old(List())|) ==> chain == old(chain) && List() == old(List())
      ensures res.Ok? && (!more || i + 1 < |old(List())|) ==>
                fs.Fat() == old(fs.Fat()) && fs.Store() == old(fs.Store()) && fs.freeClst == old(fs.freeClst)
      ensures res.Ok? && more && i + 1 == |old(List())| ==>
                List() == old(List()) + Blanks(16 * fs.geo.csize) && Grew(old(chain), old(fs.Store()), old(fs.Table()))
      ensures !res.DiskErr? && !res.Ok? ==> fs.Store() == old(fs.Store()) && fs.Table() == old(fs.Table())
      ensures !res.DiskErr? && !res.Ok? ==> i + 1 == |old(List())|
      ensures !res.DiskErr? && (more || !res.Ok?) && i + 1 == |old(List())| ==>
                Refused(res, CanGrow(fs.geo, old(chain)), old(fs.Table()), old(fs.freeClst))
    {
      hide Volume.Valid, Volume.Fat, Volume.Store, Entries, Slots, Records, Spot, CountRight, DirOf, FreeSet;
      hide IsVacant, Undisturbed;
      hide Directory.EntryShows, Directory.Refused, CanGrow, Elems, OnlyGrown;
      Facts();
      NothingDisturbed(fs.geo, Pool(), chain, fs.Store(), fs.Table());
      VacantIsFree(List()[i]);
      var r;
      more := false;
      res, r := Show(i);
      if !res.Ok? { return; }
      if r[0] == DELETED || r[0] == 0 { return; }
      res := StepOrGrow(i);
      more := res.Ok?;
    }

    /** Finds the first free entry, in a grown table when there is none. */
    method Alloc() returns (res: FResult)
      requires Valid()
      modifies this`dptr, this`clust, this`sect, this`chain, fs`wflag, fs`media, fs`faults, fs`winsect, fs`stale, fs.win
      modifies fs`freeClst, fs`lastClst, fs`fsiDirty
      ensures fs.Valid() && fs.faults >= old(fs.faults)
      ensures res.DiskErr? ==> fs.faults > old(fs.faults)
      ensures !res.DiskErr? ==> Valid() && Pool() == old(Pool()) && (old(fs.CountOk()) ==> fs.CountOk())
      ensures !res.DiskErr? ==>
                Undisturbed(fs.geo, old(Pool()), old(chain), old(fs.Store()), old(fs.Table()), fs.Store(), fs.Table())
      ensures !res.DiskErr? ==>
                Allotted(res, old(List()), CanGrow(fs.geo, old(chain)), old(fs.Table()), old(fs.freeClst), List())
      ensures res.Ok? ==> At(Vacant(List(), 0)) && EntryShows(Vacant(List(), 0))
      ensures !res.DiskErr? && !(res.Ok? && Grew(old(chain), old(fs.Store()), old(fs.Table()))) ==>
                chain == old(chain) && fs.Store() == old(fs.Store()) && fs.Table() == old(fs.Table())
    {
      hide Volume.Valid, Volume.Fat, Volume.Store, Entries, DirOf, Geometry.WellFormed, Spot, Slots, Records, FreeSet;
      hide Undisturbed, Vacant, Directory.EntryShows, IsVacant, CountRight, CanGrow, Elems, Searching, OnlyGrown;
      Facts();
      NothingDisturbed(fs.geo, Pool(), chain, fs.Store(), fs.Table());
      ghost var rs, z := List(), 16 * fs.geo.csize;
      res := Rewind();
      if !res.Ok? { return; }
      ghost var i := 0;
      SearchStart(rs, z);
      while true
        invariant Valid() && fs.Valid() && fs.faults >= old(fs.faults) && At(i)
        invariant Pool() == old(Pool()) && (old(fs.CountOk()) ==> fs.CountOk())
        invariant Undisturbed(fs.geo, old(Pool()), old(chain), old(fs.Store()), old(fs.Table()), fs.Store(), fs.Table())
        invariant Searching(rs, z, i, List())
        invariant if i < |rs| then
                    && chain == old(chain) && fs.freeClst == old(fs.freeClst)
                    && fs.Fat() == old(fs.Fat()) && fs.Store() == old(fs.Store())
                  else CanGrow(fs.geo, old(chain)) && Grew(old(chain), old(fs.Store()), old(fs.Table()))
        decreases |rs| + 1 - i
      {
        var more;
        SearchStep(rs, z, i, List());
        res, more := TryFree(i);
        if !more {
          if res.NoFile? { res := Denied; }
          return;
        }
        i := i + 1;
      }
    }

    /** The outcome of asking for a free entry of table `rs`, which became `qs`. */
    ghost predicate Allotted(res: FResult, rs: seq<Record>, grows: bool, t: Table, free: nat, qs: seq<Record>) {
      match res
      case Ok =>
        && Vacant(qs, 0) < |qs|
        && (qs == rs || (Vacant(rs, 0) == |rs| && grows && qs == rs + Blanks(16 * fs.geo.csize)))
      case Denied =>
        && qs == rs && Vacant(rs, 0) == |rs|
        && (!grows || free == 0 || FreeSet(t) == {})
      case IntErr => qs == rs && Vacant(rs, 0) == |rs| && grows && Corrupt(t)
      case _ => false
    }

    /** Puts an entry for the name in hand into the first free place. */
    method Register() returns (res: FResult)
      requires Valid()
      modifies this`dptr, this`clust, this`sect, this`chain, fs`wflag, fs`media, fs`faults, fs`winsect, fs`stale, fs.win
      modifies fs`freeClst, fs`lastClst, fs`fsiDirty
      ensures fs.Valid() && fs.faults >= old(fs.faults)
      ensures res.DiskErr? ==> fs.faults > old(fs.faults)
      ensures !res.DiskErr? ==> Valid() && Pool() == old(Pool()) && (old(fs.CountOk()) ==> fs.CountOk())
      ensures !res.DiskErr? ==>
                Undisturbed(fs.geo, old(Pool()), old(chain), old(fs.Store()), old(fs.Table()), fs.Store(), fs.Table())
      ensures res.Ok? ==>
                List() == Registered(old(List()), 16 * fs.geo.csize, fn) && At(Vacant(old(List()), 0))
      ensures !res.DiskErr? && !res.Ok? ==>
                && List() == old(List())
                && Allotted(res, old(List()), CanGrow(fs.geo, old(chain)), old(fs.Table()), old(fs.freeClst), List())
                && fs.Store() == old(fs.Store()) && fs.Table() == old(fs.Table())
      ensures res.Ok? && !Grew(old(chain), old(fs.Store()), old(fs.Table())) ==>
                chain == old(chain) && OnlySect(old(fs.Store()), old(fs.Table()))
    {
      hide Volume.Valid, Volume.Fat, Volume.Store, Entries, DirOf, Geometry.WellFormed, Spot, Slots, Records, FreeSet;
      hide Undisturbed, Vacant, Directory.EntryShows, CountRight, CanGrow, Blanks, Fresh, Registered, OnlyGrown;
      Facts();
      ghost var rs, ch, st, t := List(), chain, fs.Store(), fs.Table();
      res := Alloc();
      if !res.Ok? { return; }
      Facts();
      ghost var v, su, u := Vacant(List(), 0), fs.Store(), fs.Table();
      SpotOffset(fs.geo, chain, v);
      RegisteredIs(rs, 16 * fs.geo.csize, fn, List());
      var r;
      res, r := Show(v);
      if !res.Ok? { return; }
      Poke(v, Fresh(fn));
      PokeUndisturbed(fs.geo, Pool(), ch, chain, st, t, su, u, fs.Store(), sclust, v);
      if chain != ch { PokeGrown(fs.geo, u, sclust, chain, v, ch[|ch| - 1], st, t, su, fs.Store()); }
    }

    /** All that changed is the sector of the current entry. */
    ghost predicate OnlySect(st: seq<Sector>, t: Table)
      reads this, fs, fs.win
      requires fs.Valid()
    {
      && fs.Table() == t && |st| == fs.geo.total
      && forall s :: 0 <= s < fs.geo.total && s != sect ==> fs.Store()[s] == st[s]
    }

    /** Marks the current entry deleted. */
    method Remove(ghost i: nat) returns (res: FResult)
      requires Valid() && At(i)
      modifies fs`wflag, fs`media, fs`faults, fs`winsect, fs`stale, fs.win
      ensures Valid() && fs.Valid() && fs.faults >= old(fs.faults) && fs.Fat() == old(fs.Fat())
      ensures if res.Ok? then List() == old(List())[i := Erased(old(List())[i])]
              else res.DiskErr? && fs.faults > old(fs.faults) && List() == old(List())
      ensures Undisturbed(fs.geo, Pool(), chain, old(fs.Store()), fs.Table(), fs.Store(), fs.Table())
      ensures OnlySect(old(fs.Store()), old(fs.Table()))
    {
      hide Volume.Valid, Volume.Fat, Volume.Store, Entries, DirOf, Geometry.WellFormed, Spot, Slots, Records, FreeSet;
      hide Undisturbed, Directory.EntryShows;
      Facts();
      ghost var st, t := fs.Store(), fs.Table();
      NothingDisturbed(fs.geo, Pool(), chain, st, t);
      SpotOffset(fs.geo, chain, i);
      var r;
      res, r := Show(i);
      if !res.Ok? { return; }
      Poke(i, r[0 := DELETED]);
      PokeUndisturbed(fs.geo, Pool(), chain, chain, st, t, st, t, fs.Store(), sclust, i);
    }
  }

  lemma LastInTable(t: Table, ch: seq<nat>)
    requires IsChain(t, ch) && ch != []
    ensures ch[|ch| - 1] < |t|
  {
  }

  lemma VacantIsFree(r: Record)
    ensures IsVacant(r) <==> r[0] == DELETED || r[0] == 0
  {
  }

  /** The search for a free entry of `rs` stands at `i`; the table is `qs` now. */
  ghost predicate Searching(rs: seq<Record>, z: nat, i: nat, qs: seq<Record>) {
    if i < |rs| then qs == rs && Vacant(rs, 0) == Vacant(rs, i)
    else i == |rs| == Vacant(rs, 0) && z > 0 && qs == rs + Blanks(z)
  }

  lemma SearchStart(rs: seq<Record>, z: nat)
    requires |rs| > 0
    ensures Searching(rs, z, 0, rs)
  {
  }

  lemma SearchStep(rs: seq<Record>, z: nat, i: nat, qs: seq<Record>)
    requires Searching(rs, z, i, qs)
    ensures i < |qs| && i <= |rs|
    ensures IsVacant(qs[i]) ==> Vacant(qs, 0) == i && (i < |rs| ==> qs == rs)
    ensures IsVacant(qs[i]) && i == |rs| ==> Vacant(rs, 0) == |rs| && qs == rs + Blanks(z)
    ensures !IsVacant(qs[i]) ==> i < |rs| && qs == rs
    ensures !IsVacant(qs[i]) && i + 1 < |rs| ==> Searching(rs, z, i + 1, qs)
    ensures !IsVacant(qs[i]) && i + 1 == |rs| ==> Vacant(rs, 0) == |rs|
    ensures !IsVacant(qs[i]) && i + 1 == |rs| && z > 0 ==> Searching(rs, z, i + 1, rs + Blanks(z))
  {
    hide IsVacant;
    BlankVacant();
    if i == |rs| {
      assert qs[|rs|] == Blank();
      assert forall k :: 0 <= k < |rs| ==> qs[k] == rs[k];
      VacantIs(qs, |rs|);
    }
  }

  lemma NothingDisturbed(g: Geometry, pool: set<nat>, ch: seq<nat>, st: seq<Sector>, t: Table)
    ensures Undisturbed(g, pool, ch, st, t, st, t)
  {
  }

  lemma RegisteredIs(rs: seq<Record>, z: nat, n: Name, qs: seq<Record>)
    requires Vacant(qs, 0) < |qs| && (qs == rs || (Vacant(rs, 0) == |rs| && qs == rs + Blanks(z)))
    ensures Registered(rs, z, n) == qs[Vacant(qs, 0) := Fresh(n)]
    ensures Vacant(qs, 0) == Vacant(rs, 0)
  {
    hide Fresh, IsVacant;
    if qs != rs {
      BlankVacant();
      assert qs[|rs|] == Blank();
      assert forall k :: 0 <= k < |rs| ==> qs[k] == rs[k];
      VacantIs(qs, |rs|);
    }
  }

  lemma SpotOffset(g: Geometry, ch: seq<nat>, i: nat)
    ensures Spot(g, ch, i).dptr == ENTRY * i && Spot(g, ch, i).sect == DirSect(g, ch, i / 16)
  {
  }

  lemma FindStep(rs: seq<Record>, n: Name, i: nat)
    requires i < |rs|
    ensures rs[i][0] == 0 ==> Find(rs, n, i) == |rs|
    ensures rs[i][0] != 0 ==> Find(rs, n, i) == if Hit(rs[i], n) then i else Find(rs, n, i + 1)
    ensures Find(rs, n, |rs|) == |rs|
  {
  }

  lemma NotCluster(g: Geometry)
    ensures forall c :: !g.IsCluster(c) ==> g.ClusterSector(c) == 0
    ensures !g.IsCluster(0)
  {
  }

  lemma ClusterBytesPositive(g: Geometry)
    requires g.csize > 0
    ensures g.ClusterBytes() > 0
  {
  }
}
