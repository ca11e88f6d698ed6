/** A mounted volume: the drive, the one-sector window over it, the packed FAT
    read and written through that window, and the cluster allocator on top. */
module Volumes {
  import opened Bytes
  import opened Layout
  import opened FatCodec
  import opened Chains

  /** The drive as the file system means it: media under a dirty window. */
  ghost function Overlay(m: seq<Sector>, dirty: bool, s: nat, w: Sector): (r: seq<Sector>)
    requires dirty ==> s < |m|
    ensures |r| == |m|
  {
    if dirty then m[s := w] else m
  }

  /** The first FAT's bytes. */
  ghost function FatRegion(g: Geometry, m: seq<Sector>): (f: seq<Byte>)
    requires g.WellFormed() && |m| == g.total
    ensures |f| == 512 * g.fsize
    ensures forall b :: 0 <= b < |f| ==> f[b] == m[g.fatbase + b / 512][b % 512]
  {
    seq(512 * g.fsize, b requires 0 <= b < 512 * g.fsize => m[g.fatbase + b / 512][b % 512])
  }

  /** Everything else that carries information of its own. */
  ghost function StoreRegion(g: Geometry, m: seq<Sector>): (r: seq<Sector>)
    ensures |r| == |m|
    ensures forall s :: 0 <= s < |m| ==> r[s] == if g.InFat(s) || g.Shadow(s) then ZeroSector() else m[s]
  {
    seq(|m|, s requires 0 <= s < |m| => if g.InFat(s) || g.Shadow(s) then ZeroSector() else m[s])
  }

  /** Shadow sectors do not show in either region. */
  lemma SameRegions(g: Geometry, m: seq<Sector>, k: seq<Sector>)
    requires g.WellFormed() && |m| == |k| == g.total
    requires forall s :: 0 <= s < |m| && !g.Shadow(s) ==> m[s] == k[s]
    ensures FatRegion(g, m) == FatRegion(g, k)
    ensures StoreRegion(g, m) == StoreRegion(g, k)
  {
  }

  /** The second FAT repeats the first, except under a dirty window. */
  ghost predicate MirrorHolds(g: Geometry, m: seq<Sector>, dirty: bool, w: nat)
    requires g.WellFormed() && |m| == g.total
  {
    g.nFats == 2 ==>
      forall s: nat :: g.InFat(s) && !(dirty && w == s) ==> m[s] == m[s + g.fsize]
  }

  /** Writing the window's sector leaves the mirror as it was elsewhere. */
  lemma MirrorPending(g: Geometry, m: seq<Sector>, w: nat, d: Sector)
    requires g.WellFormed() && |m| == g.total && w < |m| && !g.Shadow(w)
    ensures MirrorHolds(g, m, true, w) ==> MirrorHolds(g, m[w := d], true, w)
    ensures !g.InFat(w) || g.nFats != 2 ==> (MirrorHolds(g, m, true, w) ==> MirrorHolds(g, m[w := d], false, w))
  {
  }

  lemma MirrorUnder(g: Geometry, m: seq<Sector>, k: seq<Sector>, w: nat)
    requires g.WellFormed() && |m| == |k| == g.total && w < |m| && !g.Shadow(w)
    requires forall i :: 0 <= i < |m| && i != w ==> k[i] == m[i]
    ensures MirrorHolds(g, m, true, w) ==> MirrorHolds(g, k, true, w)
  {
  }

  /** Writing data sectors touches no FAT sector. */
  lemma DataRegions(g: Geometry, m: seq<Sector>, k: seq<Sector>, sect: nat, data: seq<Sector>, ok: bool)
    requires g.WellFormed() && |m| == |k| == g.total && g.database <= sect && sect + |data| <= g.total
    requires forall s :: 0 <= s < |m| && !(sect <= s < sect + |data|) ==> k[s] == m[s]
    requires ok ==> forall s :: sect <= s < sect + |data| ==> k[s] == data[s - sect]
    ensures FatRegion(g, k) == FatRegion(g, m)
    ensures ok ==> StoreRegion(g, k) == Blit(StoreRegion(g, m), sect, data)
  {
    if ok {
      var a, b := StoreRegion(g, k), Blit(StoreRegion(g, m), sect, data);
      assert forall s :: 0 <= s < |a| ==> a[s] == b[s];
    }
  }

  /** The FSInfo sector: signatures, free count and allocation hint. */
  function FsInfoSector(free: nat, last: nat): (r: Sector)
    ensures FsInfoHolds(r, free, last)
  {
    var s0 := StWord(ZeroSector(), 510, 0xAA55);
    var s1 := StDword(s0, 0, 0x41615252);
    var s2 := StDword(s1, 484, 0x61417272);
    var s3 := StDword(s2, 488, free);
    StDword(s3, 492, last)
  }

  /** What a mount reads from an FSInfo sector it accepts. */
  predicate FsInfoHolds(s: Sector, free: nat, last: nat) {
    && LdWord(s, 510) == 0xAA55 && LdDword(s, 0) == 0x41615252 && LdDword(s, 484) == 0x61417272
    && LdDword(s, 488) == free % DWORD_VALUES && LdDword(s, 492) == last % DWORD_VALUES
  }

  lemma WindowRegions(g: Geometry, m: seq<Sector>, s: nat, w: Sector)
    requires g.WellFormed() && |m| == g.total && s < |m| && !g.InFat(s) && !g.Shadow(s)
    ensures FatRegion(g, m[s := w]) == FatRegion(g, m)
    ensures StoreRegion(g, m[s := w]) == StoreRegion(g, m)[s := w]
  {
    var a, b := StoreRegion(g, m[s := w]), StoreRegion(g, m)[s := w];
    assert forall i :: 0 <= i < |a| ==> a[i] == b[i];
  }

  /** Storing byte `b` of the FAT through its sector. */
  lemma PokeRegion(g: Geometry, m: seq<Sector>, b: nat, v: Byte)
    requires g.WellFormed() && |m| == g.total && b < 512 * g.fsize
    ensures var s := g.fatbase + b / 512;
            var k := m[s := m[s][b % 512 := v]];
            FatRegion(g, k) == FatRegion(g, m)[b := v] && StoreRegion(g, k) == StoreRegion(g, m)
  {
    var s := g.fatbase + b / 512;
    var k := m[s := m[s][b % 512 := v]];
    var f, h := FatRegion(g, m), FatRegion(g, k);
    assert forall i :: 0 <= i < |f| ==> h[i] == f[b := v][i];
  }

  /** Between the two byte stores of a FAT12 entry, every other entry already
      has its final value. */
  lemma HalfPut(f: seq<Byte>, c: nat, v: nat, n: nat)
    requires Holds(FAT12, f, n) && c < n && c + c / 2 < |f|
    ensures var b := c + c / 2;
            var h := f[b := Low12(c, f[b], v)];
            forall d :: 0 <= d < n && d != c ==> Entries(FAT12, h, n)[d] == Entries(FAT12, f, n)[d]
  {
    var b := c + c / 2;
    var h := f[b := Low12(c, f[b], v)];
    forall d | 0 <= d < n && d != c
      ensures Holds(FAT12, f, d + 1) && Entry(FAT12, h, d) == Entry(FAT12, f, d)
    {
      Span12(d);
      Neighbours(c, d);
      Put12Shared(c, f[b], 0, v);
      Halves(f[d + d / 2], f[d + d / 2 + 1]);
      Halves(h[d + d / 2], h[d + d / 2 + 1]);
    }
  }

  class Volume {
    const geo: Geometry
    const win: array<Byte>
    var winsect: nat        // sector in the window; DISK_ERROR: none
    var wflag: bool         // the window is dirty
    var media: seq<Sector>  // what the drive holds
    var freeClst: nat       // free clusters; above nFatent - 2: not known
    var lastClst: nat       // last allocated cluster
    var fsiDirty: bool      // FSInfo needs an update
    ghost var faults: nat   // disk operations that failed so far
    ghost var stale: bool   // a failed write left a clean window that differs from the drive
    ghost const mirrored: bool  // both FATs agreed at mount

    /** A freshly mounted volume: sector `s`, the last one the mount read, shows
        in the clean window. */
    constructor (g: Geometry, m: seq<Sector>, s: nat, free: nat, last: nat)
      requires g.WellFormed() && |m| == g.total && s < |m|
      ensures Valid() && fresh(win) && geo == g && media == m && !wflag && !stale && faults == 0
      ensures winsect == s && win[..] == m[s] && freeClst == free && lastClst == last && !fsiDirty
      ensures mirrored == MirrorHolds(g, m, false, 0)
      ensures Fat() == FatRegion(g, m) && Store() == StoreRegion(g, m)
    {
      geo, media := g, m;
      winsect, wflag := s, false;
      freeClst, lastClst, fsiDirty := free, last, false;
      faults, stale := 0, false;
      mirrored := MirrorHolds(g, m, false, 0);
      var w := m[s];
      win := new Byte[512](i requires 0 <= i < 512 => w[i]);
      new;
      assert win[..] == m[s];
    }

    ghost predicate Valid()
      reads this, win
    {
      && geo.WellFormed() && |media| == geo.total
      && win.Length == 512
      && (wflag ==> winsect < |media| && !geo.Shadow(winsect) && !stale)
      && (stale ==> !geo.InFat(winsect))
      && (!wflag && !stale && winsect < |media| && !geo.Shadow(winsect) ==> win[..] == media[winsect])
      && (mirrored && faults == 0 ==> MirrorHolds(geo, media, wflag, winsect))
    }

    ghost function Shown(): (r: seq<Sector>)
      reads this, win
      requires Valid()
      ensures |r| == geo.total
    {
      Overlay(media, wflag, winsect, win[..])
    }

    ghost function Fat(): (f: seq<Byte>)
      reads this, win
      requires Valid()
      ensures |f| == 512 * geo.fsize
    {
      FatRegion(geo, Shown())
    }

    ghost function Table(): (t: Table)
      reads this, win
      requires Valid()
      ensures |t| == geo.nFatent
    {
      Entries(geo.fsType, Fat(), geo.nFatent)
    }

    ghost function Store(): (r: seq<Sector>)
      reads this, win
      requires Valid()
      ensures |r| == geo.total
    {
      StoreRegion(geo, Shown())
    }

    // ---- the drive --------------------------------------------------------

    /** Reads sectors; an out-of-range request fails, any other may. */
    method DiskRead(s: nat, n: nat) returns (ok: bool, data: seq<Sector>)
      modifies this`faults
      ensures |data| == n && DriveReads(media, s, n, ok, data) && (ok ==> faults == old(faults))
      ensures !ok ==> faults == old(faults) + 1
    {
      ok := *;
      if ok && s + n <= |media| {
        data := media[s..s + n];
      } else {
        ok := false;
        data := *;
        if |data| != n { data := seq(n, _ => ZeroSector()); }
        faults := faults + 1;
      }
    }

    /** Writes sectors; a failed write may leave anything in its sectors. */
    method DiskWrite(s: nat, data: seq<Sector>) returns (ok: bool)
      modifies this`media, this`faults
      ensures DriveWrites(old(media), media, s, data, ok) && (ok ==> faults == old(faults))
      ensures !ok ==> faults == old(faults) + 1
    {
      ok := *;
      if s + |data| > |media| {
        ok := false;
        faults := faults + 1;
      } else if ok {
        media := Blit(media, s, data);
      } else {
        var junk: seq<Sector> := *;
        if |junk| == |data| { media := Blit(media, s, junk); }
        faults := faults + 1;
      }
    }

    /** A read of data sectors past the window, as the file layer does it. */
    method ReadData(sect: nat, n: nat) returns (ok: bool, data: seq<Sector>)
      requires Valid() && geo.database <= sect && sect + n <= geo.total
      requires !(wflag && sect <= winsect < sect + n)
      modifies this`faults
      ensures Valid() && Fat() == old(Fat()) && Store() == old(Store())
      ensures |data| == n
      ensures ok ==> data == Store()[sect..sect + n] && faults == old(faults)
      ensures !ok ==> faults > old(faults)
    {
      hide MirrorHolds, FatRegion, StoreRegion;
      DataShown(sect, n);
      ok, data := DiskRead(sect, n);
    }

    /** Off the window, data sectors show as the drive holds them. */
    lemma DataShown(sect: nat, n: nat)
      requires Valid() && geo.database <= sect && sect + n <= geo.total
      requires !(wflag && sect <= winsect < sect + n)
      ensures media[sect..sect + n] == Store()[sect..sect + n]
    {
      hide MirrorHolds, FatRegion;
      var a, b := media[sect..sect + n], Store()[sect..sect + n];
      assert forall i :: 0 <= i < n ==> a[i] == b[i];
    }

    /** A write of data sectors past the window. */
    method WriteData(sect: nat, data: seq<Sector>) returns (ok: bool)
      requires Valid() && geo.database <= sect && sect + |data| <= geo.total
      requires stale || !(sect <= winsect < sect + |data|)
      modifies this`media, this`faults
      ensures Valid() && Fat() == old(Fat())
      ensures ok ==> Store() == Blit(old(Store()), sect, data) && faults == old(faults)
      ensures !ok ==> faults > old(faults)
    {
      hide FatRegion, StoreRegion, Blit;
      ghost var before, shown := media, Shown();
      ok := DiskWrite(sect, data);
      assert forall s :: 0 <= s < |media| && s < geo.database ==> media[s] == before[s];
      DataRegions(geo, shown, Shown(), sect, data, ok);
    }

    // ---- the window -------------------------------------------------------

    method SyncWindow() returns (res: FResult)
      requires Valid()
      modifies this`wflag, this`media, this`faults
      ensures Valid() && faults >= old(faults)
      ensures Fat() == old(Fat()) && Store() == old(Store())
      ensures wflag <==> !res.Ok?
      ensures !res.Ok? ==> res.DiskErr? && faults > old(faults)
    {
      hide FatRegion, StoreRegion, MirrorHolds;
      res := Ok;
      if wflag {
        ghost var before, shown := media, Shown();
        var ok := DiskWrite(winsect, [win[..]]);
        if ok {
          wflag := false;
          assert media == shown;
          MirrorPending(geo, before, winsect, win[..]);
          if geo.InFat(winsect) && geo.nFats == 2 {
            WriteMirror();
          }
        } else {
          res := DiskErr;
          assert Shown() == shown;
          MirrorUnder(geo, before, media, winsect);
        }
      }
    }

    /** Repeats a flushed FAT sector in the second FAT; the result is ignored. */
    method WriteMirror()
      requires geo.WellFormed() && |media| == geo.total && win.Length == 512 && !wflag && !stale
      requires geo.InFat(winsect) && geo.nFats == 2 && winsect < |media| && media[winsect] == win[..]
      requires mirrored && faults == 0 ==> MirrorHolds(geo, media, true, winsect)
      modifies this`media, this`faults
      ensures Valid() && faults >= old(faults)
      ensures FatRegion(geo, media) == FatRegion(geo, old(media))
      ensures StoreRegion(geo, media) == StoreRegion(geo, old(media))
    {
      hide FatRegion, StoreRegion;
      ghost var before := media;
      var _ := DiskWrite(winsect + geo.fsize, [win[..]]);
      SameRegions(geo, before, media);
    }

    method MoveWindow(sect: nat) returns (res: FResult)
      requires Valid()
      modifies this`wflag, this`media, this`faults, this`winsect, this`stale, win
      ensures Valid() && faults >= old(faults)
      ensures Fat() == old(Fat()) && Store() == old(Store())
      ensures res.Ok? ==> winsect == sect && (sect != old(winsect) ==> sect < |media| && !wflag && !stale)
      ensures res.Ok? && sect == old(winsect) ==> wflag == old(wflag) && stale == old(stale)
      ensures !res.Ok? ==> res.DiskErr? && faults > old(faults)
      ensures !res.Ok? ==> if wflag then winsect == old(winsect) else winsect == DISK_ERROR
      ensures winsect == sect || winsect == old(winsect) || winsect == DISK_ERROR
      ensures stale ==> old(stale)
    {
      hide Volume.Valid, Volume.Fat, Volume.Store;
      res := Ok;
      if sect != winsect {
        res := SyncWindow();
        if res.Ok? { res := FillWindow(sect); }
      }
    }

    /** Reads a sector into a clean window; a failed read leaves it empty. */
    method FillWindow(sect: nat) returns (res: FResult)
      requires Valid() && !wflag
      modifies this`faults, this`winsect, this`stale, win
      ensures Valid() && !wflag && !stale && faults >= old(faults)
      ensures Fat() == old(Fat()) && Store() == old(Store())
      ensures if res.Ok? then winsect == sect < |media|
              else res.DiskErr? && winsect == DISK_ERROR && faults > old(faults)
    {
      hide FatRegion, StoreRegion;
      var ok, data := DiskRead(sect, 1);
      forall i | 0 <= i < 512 { win[i] := data[0][i]; }
      stale := false;
      if ok {
        winsect := sect;
        res := Ok;
      } else {
        winsect := DISK_ERROR;
        res := DiskErr;
      }
      assert win[..] == data[0];
    }

    /** The FSInfo sector goes through the window but its write is not checked. */
    method WriteFsInfo()
      requires Valid() && !wflag && geo.fsInfo
      modifies this`media, this`faults, this`winsect, this`stale, this`fsiDirty, win
      ensures Valid() && faults >= old(faults)
      ensures Fat() == old(Fat()) && Store() == old(Store())
      ensures winsect == geo.volbase + 1 && !fsiDirty && !stale
      ensures faults == old(faults) ==> FsInfoHolds(media[geo.volbase + 1], freeClst, lastClst)
    {
      hide FsInfoSector, FsInfoHolds, FatRegion, StoreRegion;
      var info := FsInfoSector(freeClst, lastClst);
      forall i | 0 <= i < 512 { win[i] := info[i]; }
      winsect := geo.volbase + 1;
      stale := false;
      fsiDirty := false;
      assert win[..] == info;
      SendFsInfo();
    }

    /** Sends the window to the FSInfo sector; the result is ignored. */
    method SendFsInfo()
      requires Valid() && !wflag && geo.fsInfo
      modifies this`media, this`faults
      ensures Valid() && faults >= old(faults)
      ensures Fat() == old(Fat()) && Store() == old(Store())
      ensures faults == old(faults) ==> media[geo.volbase + 1] == win[..]
    {
      hide FatRegion, StoreRegion;
      ghost var before := media;
      var _ := DiskWrite(geo.volbase + 1, [win[..]]);
      assert forall i :: 0 <= i < |media| && !geo.Shadow(i) ==> before[i] == media[i];
      SameRegions(geo, before, media);
    }

    method SyncFs() returns (res: FResult)
      requires Valid()
      modifies this`wflag, this`media, this`faults, this`winsect, this`stale, this`fsiDirty, win
      ensures Valid() && faults >= old(faults)
      ensures Fat() == old(Fat()) && Store() == old(Store())
      ensures res.Ok? ==> !wflag
      ensures !res.Ok? ==> res.DiskErr? && faults > old(faults)
      ensures winsect == old(winsect) || winsect == geo.volbase + 1
      ensures stale ==> old(stale)
      ensures res.Ok? && geo.fsInfo && faults == old(faults) && old(fsiDirty) ==>
                !fsiDirty && FsInfoHolds(media[geo.volbase + 1], freeClst, lastClst)
    {
      hide Volume.Valid, Volume.Fat, Volume.Store;
      res := SyncWindow();
      if res.Ok? {
        if geo.fsInfo && fsiDirty {
          WriteFsInfo();
        }
        var synced: bool := *;
        if !synced {
          CountFault();
          res := DiskErr;
        }
      }
    }

    ghost method CountFault()
      requires Valid()
      modifies this`faults
      ensures Valid() && faults == old(faults) + 1
      ensures Fat() == old(Fat()) && Store() == old(Store())
    {
      faults := faults + 1;
    }

    // ---- FAT access -------------------------------------------------------

    /** Stores one byte of the FAT in the window. */
    method PokeFat(b: nat, v: Byte)
      requires Valid() && b < 512 * geo.fsize && winsect == geo.fatbase + b / 512
      modifies this`wflag, win
      ensures Valid() && wflag
      ensures Fat() == old(Fat())[b := v] && Store() == old(Store())
    {
      hide FatRegion, StoreRegion;
      ghost var shown := Shown();
      assert shown[winsect] == win[..];
      PokeRegion(geo, shown, b, v);
      win[b % 512] := v;
      wflag := true;
      ghost var w: seq<Byte> := shown[winsect];
      assert win[..] == w[b % 512 := v];
      assert Shown() == shown[winsect := win[..]];
    }

    /** The byte the window shows for offset `b` of the FAT. */
    method PeekFat(b: nat) returns (v: Byte)
      requires Valid() && b < 512 * geo.fsize && winsect == geo.fatbase + b / 512
      ensures v == Fat()[b]
    {
      v := win[b % 512];
      assert Shown()[winsect] == win[..];
    }

    method GetFat(clst: nat) returns (val: nat)
      requires Valid()
      modifies this`wflag, this`media, this`faults, this`winsect, this`stale, win
      ensures Valid() && faults >= old(faults)
      ensures Fat() == old(Fat()) && Store() == old(Store())
      ensures winsect == old(winsect) || geo.InFat(winsect) || winsect == DISK_ERROR
      ensures stale ==> old(stale)
      ensures val == DISK_ERROR ==> faults > old(faults)
      ensures val != DISK_ERROR ==> val == if geo.IsCluster(clst) then Table()[clst] else 1
      ensures val != DISK_ERROR && geo.IsCluster(clst) ==>
                val == BitField(Value(Fat()), FirstBit(geo.fsType, clst), Bits(geo.fsType))
    {
      if geo.IsCluster(clst) { TableIsBits(clst); }
      if clst < 2 || clst >= geo.nFatent {
        return 1;
      }
      match geo.fsType
      case FAT12 => val := GetFat12(clst);
      case FAT16 => val := GetFat16(clst);
      case FAT32 => val := GetFat32(clst);
    }

    /** The table's numbers as bits of the first FAT. */
    lemma TableIsBits(clst: nat)
      requires Valid() && clst < geo.nFatent
      ensures Table()[clst] == BitField(Value(Fat()), FirstBit(geo.fsType, clst), Bits(geo.fsType))
    {
      hide Volume.Valid, Volume.Fat, Entry, Value, BitField;
      EntryInFat(clst);
      EntryIsBits(geo.fsType, Fat(), clst);
    }

    /** Every byte of a cluster's entry lies in the first FAT. */
    lemma EntryInFat(clst: nat)
      requires Valid() && clst < geo.nFatent
      ensures Holds(geo.fsType, Fat(), geo.nFatent) && Holds(geo.fsType, Fat(), clst + 1)
      ensures geo.fsType.FAT12? ==> clst + clst / 2 + 1 < 512 * geo.fsize
      ensures geo.fsType.FAT16? ==> 2 * clst + 1 < 512 * geo.fsize
      ensures geo.fsType.FAT32? ==> 4 * clst + 3 < 512 * geo.fsize
    {
      Span12(clst);
    }

    method GetFat12(clst: nat) returns (val: nat)
      requires Valid() && geo.fsType.FAT12? && geo.IsCluster(clst)
      modifies this`wflag, this`media, this`faults, this`winsect, this`stale, win
      ensures Valid() && faults >= old(faults)
      ensures Fat() == old(Fat()) && Store() == old(Store())
      ensures winsect == old(winsect) || geo.InFat(winsect) || winsect == DISK_ERROR
      ensures stale ==> old(stale)
      ensures if val == DISK_ERROR then faults > old(faults) else val == Table()[clst]
    {
      hide Volume.Valid, Volume.Fat, Volume.Store;
      val := DISK_ERROR;
      EntryInFat(clst);
      var bc := clst + clst / 2;
      var res := MoveWindow(geo.fatbase + bc / 512);
      if !res.Ok? { return; }
      var lo := PeekFat(bc);
      bc := bc + 1;
      res := MoveWindow(geo.fatbase + bc / 512);
      if !res.Ok? { return; }
      var hi := PeekFat(bc);
      var wc := lo as int + 256 * (hi as int);
      val := if clst % 2 == 1 then wc / 16 else wc % 0x1000;
    }

    method GetFat16(clst: nat) returns (val: nat)
      requires Valid() && geo.fsType.FAT16? && geo.IsCluster(clst)
      modifies this`wflag, this`media, this`faults, this`winsect, this`stale, win
      ensures Valid() && faults >= old(faults)
      ensures Fat() == old(Fat()) && Store() == old(Store())
      ensures winsect == old(winsect) || geo.InFat(winsect) || winsect == DISK_ERROR
      ensures stale ==> old(stale)
      ensures if val == DISK_ERROR then faults > old(faults) else val == Table()[clst]
    {
      hide Volume.Valid, Volume.Fat, Volume.Store;
      val := DISK_ERROR;
      EntryInFat(clst);
      var res := MoveWindow(geo.fatbase + clst / 256);
      if !res.Ok? { return; }
      var lo := PeekFat(2 * clst);
      var hi := PeekFat(2 * clst + 1);
      val := lo as int + 256 * (hi as int);
    }

    method GetFat32(clst: nat) returns (val: nat)
      requires Valid() && geo.fsType.FAT32? && geo.IsCluster(clst)
      modifies this`wflag, this`media, this`faults, this`winsect, this`stale, win
      ensures Valid() && faults >= old(faults)
      ensures Fat() == old(Fat()) && Store() == old(Store())
      ensures winsect == old(winsect) || geo.InFat(winsect) || winsect == DISK_ERROR
      ensures stale ==> old(stale)
      ensures if val == DISK_ERROR then faults > old(faults) else val == Table()[clst]
    {
      hide Volume.Valid, Volume.Fat, Volume.Store, LdDword;
      val := DISK_ERROR;
      EntryInFat(clst);
      var res := MoveWindow(geo.fatbase + clst / 128);
      if !res.Ok? { return; }
      var w := PeekFatDword(4 * clst);
      val := w % 0x1000_0000;
    }

    method PeekFatDword(b: nat) returns (v: nat)
      requires Valid() && b + 3 < 512 * geo.fsize && b % 4 == 0 && winsect == geo.fatbase + b / 512
      ensures v == LdDword(Fat(), b)
    {
      hide Volume.Valid, Volume.Fat, Volume.Store;
      SameSector(b);
      var b0 := PeekFat(b);
      var b1 := PeekFat(b + 1);
      var b2 := PeekFat(b + 2);
      var b3 := PeekFat(b + 3);
      v := b0 as int + 256 * (b1 as int) + 0x1_0000 * (b2 as int) + 0x100_0000 * (b3 as int);
    }

    method PutFat(clst: nat, val: nat) returns (res: FResult)
      requires Valid()
      modifies this`wflag, this`media, this`faults, this`winsect, this`stale, win
      ensures Valid() && faults >= old(faults)
      ensures Store() == old(Store())
      ensures winsect == old(winsect) || geo.InFat(winsect) || winsect == DISK_ERROR
      ensures stale ==> old(stale)
      ensures res.Ok? ==> geo.IsCluster(clst) && Holds(geo.fsType, Fat(), clst + 1) &&
                          Fat() == PutEntry(geo.fsType, old(Fat()), clst, val) &&
                          Table() == old(Table())[clst := val % EntryValues(geo.fsType)]
      ensures res.Ok? ==>
                FieldSet(Value(old(Fat())), Value(Fat()), FirstBit(geo.fsType, clst), Bits(geo.fsType), val)
      ensures !res.Ok? ==> forall c :: 0 <= c < geo.nFatent && c != clst ==> Table()[c] == old(Table())[c]
      ensures res.IntErr? <==> !geo.IsCluster(clst)
      ensures res.IntErr? ==> Fat() == old(Fat()) && faults == old(faults)
      ensures !res.Ok? && !res.IntErr? ==> res.DiskErr? && faults > old(faults)
    {
      hide Volume.Valid, Volume.Fat, Volume.Store, Entries, Entry, PutEntry, Value, FieldSet;
      if clst < 2 || clst >= geo.nFatent {
        return IntErr;
      }
      EntryInFat(clst);
      PutIsBits(geo.fsType, Fat(), clst, val);
      match geo.fsType
      case FAT12 => res := PutFat12(clst, val);
      case FAT16 => res := PutFat16(clst, val);
      case FAT32 => res := PutFat32(clst, val);
    }

    method PutFat12(clst: nat, val: nat) returns (res: FResult)
      requires Valid() && geo.fsType.FAT12? && geo.IsCluster(clst)
      modifies this`wflag, this`media, this`faults, this`winsect, this`stale, win
      ensures Valid() && faults >= old(faults)
      ensures Store() == old(Store())
      ensures winsect == old(winsect) || geo.InFat(winsect) || winsect == DISK_ERROR
      ensures stale ==> old(stale)
      ensures res.Ok? ==> Fat() == PutEntry(geo.fsType, old(Fat()), clst, val)
      ensures res.Ok? ==> Table() == old(Table())[clst := val % EntryValues(geo.fsType)]
      ensures !res.Ok? ==> res.DiskErr? && faults > old(faults)
      ensures !res.Ok? ==> forall c :: 0 <= c < geo.nFatent && c != clst ==> Table()[c] == old(Table())[c]
    {
      hide Volume.Valid, Volume.Fat, Volume.Store, Entries, Entry, Low12, High12;
      EntryInFat(clst);
      PutIsUpdate(FAT12, Fat(), geo.nFatent, clst, val);
      ghost var fat := Fat();
      var bc := clst + clst / 2;
      res := MoveWindow(geo.fatbase + bc / 512);
      if !res.Ok? { return; }
      var p := PeekFat(bc);
      PokeFat(bc, Low12(clst, p, val));
      HalfPut(fat, clst, val, geo.nFatent);
      bc := bc + 1;
      res := MoveWindow(geo.fatbase + bc / 512);
      if !res.Ok? { return; }
      p := PeekFat(bc);
      PokeFat(bc, High12(clst, p, val));
    }

    method PutFat16(clst: nat, val: nat) returns (res: FResult)
      requires Valid() && geo.fsType.FAT16? && geo.IsCluster(clst)
      modifies this`wflag, this`media, this`faults, this`winsect, this`stale, win
      ensures Valid() && faults >= old(faults)
      ensures Store() == old(Store())
      ensures winsect == old(winsect) || geo.InFat(winsect) || winsect == DISK_ERROR
      ensures stale ==> old(stale)
      ensures res.Ok? ==> Fat() == PutEntry(geo.fsType, old(Fat()), clst, val)
      ensures res.Ok? ==> Table() == old(Table())[clst := val % EntryValues(geo.fsType)]
      ensures !res.Ok? ==> res.DiskErr? && faults > old(faults)
      ensures !res.Ok? ==> Fat() == old(Fat())
    {
      hide Volume.Valid, Volume.Fat, Volume.Store, Entries, Entry;
      EntryInFat(clst);
      PutIsUpdate(FAT16, Fat(), geo.nFatent, clst, val);
      ghost var fat := Fat();
      res := MoveWindow(geo.fatbase + clst / 256);
      if !res.Ok? { return; }
      PokeFat(2 * clst, val % 256);
      PokeFat(2 * clst + 1, val / 256 % 256);
      assert Fat() == StWord(fat, 2 * clst, val);
    }

    method PutFat32(clst: nat, val: nat) returns (res: FResult)
      requires Valid() && geo.fsType.FAT32? && geo.IsCluster(clst)
      modifies this`wflag, this`media, this`faults, this`winsect, this`stale, win
      ensures Valid() && faults >= old(faults)
      ensures Store() == old(Store())
      ensures winsect == old(winsect) || geo.InFat(winsect) || winsect == DISK_ERROR
      ensures stale ==> old(stale)
      ensures res.Ok? ==> Fat() == PutEntry(geo.fsType, old(Fat()), clst, val)
      ensures res.Ok? ==> Table() == old(Table())[clst := val % EntryValues(geo.fsType)]
      ensures !res.Ok? ==> res.DiskErr? && faults > old(faults)
      ensures !res.Ok? ==> Fat() == old(Fat())
    {
      hide Volume.Valid, Volume.Fat, Volume.Store, Entries, Entry;
      EntryInFat(clst);
      PutIsUpdate(FAT32, Fat(), geo.nFatent, clst, val);
      res := MoveWindow(geo.fatbase + clst / 128);
      if !res.Ok? { return; }
      var w := PeekFatDword(4 * clst);
      PokeFatDword(4 * clst, Merge32(w, val));
    }

    method PokeFatDword(b: nat, v: nat)
      requires Valid() && b + 3 < 512 * geo.fsize && b % 4 == 0 && winsect == geo.fatbase + b / 512
      modifies this`wflag, win
      ensures Valid() && wflag
      ensures Fat() == StDword(old(Fat()), b, v) && Store() == old(Store())
    {
      hide Volume.Valid, Volume.Fat, Volume.Store;
      SameSector(b);
      var v1 := v / 256;
      var v2 := v1 / 256;
      var v3 := v2 / 256;
      PokeFat(b, v % 256);
      PokeFat(b + 1, v1 % 256);
      PokeFat(b + 2, v2 % 256);
      PokeFat(b + 3, v3 % 256);
    }

    /** Puts `w` in the window, marked for writing back. */
    method StoreWin(w: Sector)
      requires Valid() && winsect < geo.total && !stale && !geo.InFat(winsect) && !geo.Shadow(winsect)
      modifies this`wflag, win
      ensures Valid() && wflag && win[..] == w
      ensures Fat() == old(Fat()) && Store() == old(Store())[winsect := w]
    {
      hide FatRegion, StoreRegion;
      ghost var shown := Shown();
      forall i | 0 <= i < 512 { win[i] := w[i]; }
      wflag := true;
      assert win[..] == w;
      assert Shown() == shown[winsect := w];
      WindowRegions(geo, shown, winsect, w);
    }

    /** What the window shows of a sector outside the FAT. */
    lemma WinShows()
      requires Valid() && winsect < geo.total && !stale && !geo.InFat(winsect) && !geo.Shadow(winsect)
      ensures win[..] == Store()[winsect]
    {
    }

    /** The mirror, with nothing pending and no disk operation failed: the
        second FAT reads as the same table as the first. */
    lemma SecondFatAgrees()
      requires Valid() && mirrored && faults == 0 && !wflag && geo.nFats == 2
      ensures media[geo.fatbase + geo.fsize..geo.fatbase + 2 * geo.fsize] == media[geo.fatbase..geo.fatbase + geo.fsize]
      ensures Table() == Entries(geo.fsType, FatRegion(geo, media), geo.nFatent)
    {
      var a := media[geo.fatbase + geo.fsize..geo.fatbase + 2 * geo.fsize];
      var b := media[geo.fatbase..geo.fatbase + geo.fsize];
      forall i | 0 <= i < geo.fsize ensures a[i] == b[i] {
        assert geo.InFat(geo.fatbase + i);
      }
    }

    /** With a clean window the bytes of the first FAT are its sectors in order. */
    lemma FatOnDrive(k: nat)
      requires Valid() && !wflag && k < geo.fsize
      ensures 512 * k + 512 <= |Fat()| && Fat()[512 * k..512 * k + 512] == media[geo.fatbase + k]
    {
      var f := Fat()[512 * k..512 * k + 512];
      forall i | 0 <= i < 512 ensures f[i] == media[geo.fatbase + k][i] {
        assert (512 * k + i) / 512 == k && (512 * k + i) % 512 == i;
      }
    }

    // ---- the allocator ----------------------------------------------------

    ghost predicate CountOk()
      reads this, win
      requires Valid()
    {
      CountRight(Table(), freeClst)
    }

    /** The wrap-around search: every cluster is tried once, from the one after
        `scl` round to `scl` itself. */
    method FindFree(scl: nat) returns (ncl: nat)
      requires Valid() && 1 <= scl < geo.nFatent && geo.nFatent >= 3
      modifies this`wflag, this`media, this`faults, this`winsect, this`stale, win
      ensures Valid() && faults >= old(faults)
      ensures Fat() == old(Fat()) && Store() == old(Store())
      ensures winsect == old(winsect) || geo.InFat(winsect) || winsect == DISK_ERROR
      ensures stale ==> old(stale)
      ensures ncl == DISK_ERROR ==> faults > old(faults)
      ensures ncl != DISK_ERROR ==> ncl == FirstFree(Table(), scl, 0)
    {
      hide Volume.Valid, Volume.Fat, Volume.Store, Entries, FirstFree, Candidate;
      EntryCounts();
      var n := geo.nFatent;
      ncl := scl;
      ghost var i := 0;
      SearchOn(Table(), scl, 0);
      while true
        invariant Valid() && faults >= old(faults)
        invariant Fat() == old(Fat()) && Store() == old(Store())
        invariant winsect == old(winsect) || geo.InFat(winsect) || winsect == DISK_ERROR
        invariant stale ==> old(stale)
        invariant 0 <= i <= n - 2 && (i == n - 2 ==> scl == 1)
        invariant ncl == if i == 0 then scl else Candidate(n, scl, i - 1)
        invariant FirstFree(Table(), scl, 0) == FirstFree(Table(), scl, i)
        decreases n - i
      {
        CandidateStep(n, scl, i, ncl);
        ncl := ncl + 1;
        if ncl >= n {
          ncl := 2;
          if ncl > scl { return 0; }
        }
        SearchOn(Table(), scl, i);
        var cs := GetFat(ncl);
        if cs == 0 { return; }
        if cs == 1 || cs == DISK_ERROR { return cs; }
        if ncl == scl { return 0; }
        i := i + 1;
      }
    }

    method CreateChain(clst: nat) returns (ncl: nat)
      requires Valid()
      modifies this`wflag, this`media, this`faults, this`winsect, this`stale, win
      modifies this`freeClst, this`lastClst, this`fsiDirty
      ensures Valid() && faults >= old(faults)
      ensures Store() == old(Store())
      ensures winsect == old(winsect) || geo.InFat(winsect) || winsect == DISK_ERROR
      ensures stale ==> old(stale)
      ensures ncl == DISK_ERROR ==> faults > old(faults)
      ensures geo.nFatent >= 3
      ensures ncl != DISK_ERROR ==>
                ncl == CreateReply(old(Table()), old(freeClst), old(lastClst), clst) &&
                Table() == CreateTable(old(Table()), geo.Eoc(), old(freeClst), old(lastClst), clst)
      ensures ncl != DISK_ERROR && old(CountOk()) ==> CountOk()
      ensures ncl != DISK_ERROR ==>
                if Allocates(old(Table()), old(freeClst), old(lastClst), clst) then
                  && fsiDirty && lastClst == ncl
                  && freeClst == if old(freeClst) <= geo.nFatent - 2 then old(freeClst) - 1 else old(freeClst)
                else (freeClst, lastClst, fsiDirty) == (old(freeClst), old(lastClst), old(fsiDirty))
      ensures old(fsiDirty) || (freeClst, lastClst) != (old(freeClst), old(lastClst)) ==> fsiDirty
    {
      hide Volume.Valid, Volume.Fat, Volume.Store, Entries, FirstFree, FreeSet;
      EntryCounts();
      var scl;
      if clst == 0 {
        scl := lastClst;
        if scl == 0 || scl >= geo.nFatent { scl := 1; }
      } else {
        var cs := GetFat(clst);
        if cs < 2 { return 1; }
        if cs == DISK_ERROR { return cs; }
        if cs < geo.nFatent { return cs; }
        scl := clst;
      }
      if freeClst == 0 { return 0; }
      ncl := ChooseCluster(scl, clst);
      if ncl == 0 || ncl == 1 || ncl == DISK_ERROR { return; }
      PickSound(Table(), clst, lastClst);
      ncl := TakeCluster(ncl, clst);
    }

    lemma GeoFacts()
      requires Valid()
      ensures geo.WellFormed() && geo.total <= DISK_ERROR && geo.csize > 0 && win.Length == 512
      ensures PowerOfTwo(geo.csize)
    {
    }

    lemma EntryCounts()
      requires Valid()
      ensures 3 <= geo.nFatent < EntryValues(geo.fsType) && geo.Eoc() >= geo.nFatent
      ensures DISK_ERROR % EntryValues(geo.fsType) == geo.Eoc()
      ensures geo.Eoc() < DISK_ERROR && geo.nFatent < DISK_ERROR
    {
    }

    /** The choice between the cluster next to the chain's end and a search. */
    method ChooseCluster(scl0: nat, clst: nat) returns (ncl: nat)
      requires Valid() && 1 <= scl0 < geo.nFatent && geo.nFatent >= 3
      requires if clst == 0 then scl0 == (if lastClst == 0 || lastClst >= geo.nFatent then 1 else lastClst)
               else 2 <= clst && scl0 == clst
      modifies this`wflag, this`media, this`faults, this`winsect, this`stale, win
      ensures Valid() && faults >= old(faults)
      ensures Fat() == old(Fat()) && Store() == old(Store())
      ensures winsect == old(winsect) || geo.InFat(winsect) || winsect == DISK_ERROR
      ensures stale ==> old(stale)
      ensures ncl == DISK_ERROR ==> faults > old(faults)
      ensures ncl != DISK_ERROR ==> ncl == Pick(Table(), clst, lastClst)
    {
      hide Volume.Valid, Volume.Fat, Volume.Store, Entries, FirstFree, FreeSet;
      EntryCounts();
      var scl := scl0;
      ncl := 0;
      if scl == clst {
        ncl := scl + 1;
        if ncl >= geo.nFatent { ncl := 2; }
        var cs := GetFat(ncl);
        if cs == 1 || cs == DISK_ERROR { return cs; }
        if cs != 0 {
          cs := lastClst;
          if cs >= 2 && cs < geo.nFatent { scl := cs; }
          ncl := 0;
        }
      }
      if ncl == 0 {
        ncl := FindFree(scl);
      }
    }

    /** Marks free cluster `ncl` as a chain end and links it after `clst`. */
    method TakeCluster(ncl: nat, clst: nat) returns (r: nat)
      requires Valid() && geo.IsCluster(ncl) && Table()[ncl] == 0 && freeClst != 0
      requires clst == 0 || (geo.IsCluster(clst) && Table()[clst] != 0)
      modifies this`wflag, this`media, this`faults, this`winsect, this`stale, win
      modifies this`freeClst, this`lastClst, this`fsiDirty
      ensures Valid() && faults >= old(faults)
      ensures Store() == old(Store())
      ensures winsect == old(winsect) || geo.InFat(winsect) || winsect == DISK_ERROR
      ensures stale ==> old(stale)
      ensures r == ncl || (r == DISK_ERROR && faults > old(faults))
      ensures r == ncl != DISK_ERROR ==> Table() == Grown(old(Table()), geo.Eoc(), ncl, clst) && lastClst == ncl
      ensures r == ncl != DISK_ERROR && old(CountOk()) ==> CountOk()
      ensures r == ncl != DISK_ERROR ==>
                fsiDirty && freeClst == if old(freeClst) <= geo.nFatent - 2 then old(freeClst) - 1 else old(freeClst)
      ensures old(fsiDirty) || (freeClst, lastClst) != (old(freeClst), old(lastClst)) ==> fsiDirty
    {
      hide Volume.Valid, Volume.Fat, Volume.Store, Entries, FreeSet;
      EntryCounts();
      GrownFree(Table(), geo.Eoc(), ncl, clst);
      FreeBound(Table());
      var res := MarkAndLink(ncl, clst);
      if res.Ok? {
        NoteAllocated(ncl);
        r := ncl;
      } else {
        r := DISK_ERROR;  // the only failure left: both numbers are clusters
      }
    }

    method MarkAndLink(ncl: nat, clst: nat) returns (res: FResult)
      requires Valid() && geo.IsCluster(ncl)
      requires clst == 0 || geo.IsCluster(clst)
      modifies this`wflag, this`media, this`faults, this`winsect, this`stale, win
      ensures Valid() && faults >= old(faults)
      ensures Store() == old(Store())
      ensures winsect == old(winsect) || geo.InFat(winsect) || winsect == DISK_ERROR
      ensures stale ==> old(stale)
      ensures res.Ok? || (res.DiskErr? && faults > old(faults))
      ensures res.Ok? ==> Table() == Grown(old(Table()), geo.Eoc(), ncl, clst)
    {
      hide Volume.Valid, Volume.Fat, Volume.Store, Entries, Holds, PutEntry, FieldSet, BitField, Value, FirstBit;
      EntryCounts();
      res := PutFat(ncl, DISK_ERROR);
      if res.Ok? && clst != 0 {
        res := PutFat(clst, ncl);
      }
    }

    method NoteAllocated(ncl: nat)
      requires Valid() && freeClst != 0
      modifies this`freeClst, this`lastClst, this`fsiDirty
      ensures Valid() && Fat() == old(Fat()) && Store() == old(Store())
      ensures lastClst == ncl && fsiDirty
      ensures freeClst == if old(freeClst) <= geo.nFatent - 2 then old(freeClst) - 1 else old(freeClst)
    {
      lastClst := ncl;
      if freeClst <= geo.nFatent - 2 { freeClst := freeClst - 1; }
      fsiDirty := true;
    }

    method RemoveChain(clst0: nat, pclst: nat) returns (res: FResult)
      requires Valid()
      modifies this`wflag, this`media, this`faults, this`winsect, this`stale, win
      modifies this`freeClst, this`fsiDirty
      ensures Valid() && faults >= old(faults)
      ensures Store() == old(Store())
      ensures winsect == old(winsect) || geo.InFat(winsect) || winsect == DISK_ERROR
      ensures stale ==> old(stale)
      ensures res.DiskErr? ==> faults > old(faults)
      ensures !geo.IsCluster(clst0) || (pclst != 0 && !geo.IsCluster(pclst)) ==>
                res.IntErr? && Table() == old(Table())
      ensures geo.IsCluster(clst0) && (pclst == 0 || geo.IsCluster(pclst)) && !res.DiskErr? ==>
                (Table(), res.Ok?) == Removed(old(Table()), geo.Eoc(), clst0, pclst)
      ensures !res.DiskErr? && old(CountOk()) && (pclst == 0 || (geo.IsCluster(pclst) && old(Table())[pclst] != 0)) ==>
                CountOk()
      ensures geo.nFatent >= 2
      ensures if old(freeClst) > geo.nFatent - 2 then freeClst == old(freeClst)
              else old(freeClst) <= freeClst <= geo.nFatent - 2
      ensures old(fsiDirty) || freeClst != old(freeClst) ==> fsiDirty
      ensures res.Ok? || res.IntErr? || res.DiskErr?
    {
      hide Volume.Valid, Volume.Fat, Volume.Store, Entries, Sweep, FreeSet;
      EntryCounts();
      if clst0 < 2 || clst0 >= geo.nFatent { return IntErr; }
      if pclst != 0 {
        if geo.IsCluster(pclst) && Table()[pclst] != 0 { MarkEnd(Table(), pclst, geo.Eoc()); }
        res := PutFat(pclst, DISK_ERROR);
        if !res.Ok? { return; }
      }
      res := SweepChain(clst0);
    }

    /** The removal loop. It ends on every table: each round turns a used
        entry into a free one. */
    method SweepChain(clst0: nat) returns (res: FResult)
      requires Valid() && geo.IsCluster(clst0)
      modifies this`wflag, this`media, this`faults, this`winsect, this`stale, win
      modifies this`freeClst, this`fsiDirty
      ensures Valid() && faults >= old(faults)
      ensures Store() == old(Store())
      ensures winsect == old(winsect) || geo.InFat(winsect) || winsect == DISK_ERROR
      ensures stale ==> old(stale)
      ensures res.Ok? || res.IntErr? || res.DiskErr?
      ensures res.DiskErr? ==> faults > old(faults)
      ensures !res.DiskErr? ==> (Table(), res.Ok?) == Sweep(old(Table()), clst0)
      ensures !res.DiskErr? && old(CountOk()) ==> CountOk()
      ensures if old(freeClst) > geo.nFatent - 2 then freeClst == old(freeClst)
              else old(freeClst) <= freeClst <= geo.nFatent - 2
      ensures old(fsiDirty) || freeClst != old(freeClst) ==> fsiDirty
    {
      hide Volume.Valid, Volume.Fat, Volume.Store, Entries, FreeSet, UsedSet, CountRight;
      EntryCounts();
      var clst: nat := clst0;
      while true
        invariant Valid() && faults >= old(faults)
        invariant Store() == old(Store())
        invariant winsect == old(winsect) || geo.InFat(winsect) || winsect == DISK_ERROR
        invariant stale ==> old(stale)
        invariant geo.IsCluster(clst)
        invariant Sweep(Table(), clst) == Sweep(old(Table()), clst0)
        invariant old(CountOk()) ==> CountOk()
        invariant if old(freeClst) > geo.nFatent - 2 then freeClst == old(freeClst)
                  else old(freeClst) <= freeClst <= geo.nFatent - 2
        invariant old(fsiDirty) || freeClst != old(freeClst) ==> fsiDirty
        decreases UsedSet(Table())
      {
        var nxt := GetFat(clst);
        if nxt == 0 { break; }
        if nxt == 1 { return IntErr; }
        if nxt == DISK_ERROR { return DiskErr; }
        res := FreeCluster(clst);
        if !res.Ok? { return; }
        clst := nxt;
        if clst >= geo.nFatent { break; }
      }
      res := Ok;
    }

    method FreeCluster(clst: nat) returns (res: FResult)
      requires Valid() && geo.IsCluster(clst) && Table()[clst] != 0
      modifies this`wflag, this`media, this`faults, this`winsect, this`stale, win
      modifies this`freeClst, this`fsiDirty
      ensures Valid() && faults >= old(faults)
      ensures Store() == old(Store())
      ensures winsect == old(winsect) || geo.InFat(winsect) || winsect == DISK_ERROR
      ensures stale ==> old(stale)
      ensures res.Ok? || (res.DiskErr? && faults > old(faults))
      ensures res.Ok? ==> Table() == old(Table())[clst := 0]
      ensures res.Ok? ==> clst in UsedSet(old(Table())) && UsedSet(Table()) == UsedSet(old(Table())) - {clst}
      ensures res.Ok? && old(CountOk()) ==> CountOk()
      ensures freeClst == old(freeClst) || (freeClst == old(freeClst) + 1 <= geo.nFatent - 2)
      ensures old(fsiDirty) || freeClst != old(freeClst) ==> fsiDirty
    {
      hide Volume.Valid, Volume.Fat, Volume.Store, Entries, FreeSet, UsedSet, PutEntry, Holds;
      EntryCounts();
      UsedHere(Table(), clst);
      FreeOne(Table(), clst);
      FreeBound(Table());
      res := PutFat(clst, 0);
      if !res.Ok? { return; }
      if freeClst < geo.nFatent - 2 { NoteFreed(); }
    }

    method NoteFreed()
      requires Valid()
      modifies this`freeClst, this`fsiDirty
      ensures Valid() && Fat() == old(Fat()) && Store() == old(Store())
      ensures freeClst == old(freeClst) + 1 && fsiDirty
    {
      freeClst := freeClst + 1;
      fsiDirty := true;
    }

    // ---- the free count ---------------------------------------------------

    method GetFree() returns (res: FResult, nclst: nat)
      requires Valid()
      modifies this`wflag, this`media, this`faults, this`winsect, this`stale, win
      modifies this`freeClst, this`fsiDirty
      ensures Valid() && faults >= old(faults)
      ensures Fat() == old(Fat()) && Store() == old(Store())
      ensures res.Ok? || (res.IntErr? && Corrupt(Table())) ||
              (res.DiskErr? && faults > old(faults))
      ensures res.Ok? ==> nclst == freeClst
      ensures res.Ok? && old(freeClst) > geo.nFatent - 2 ==>
                nclst == if geo.fsType.FAT12? then |FreeSet(Table())| else Zeros(Table(), geo.nFatent)
      ensures old(freeClst) <= geo.nFatent - 2 ==> res.Ok? && freeClst == old(freeClst)
      ensures res.Ok? && old(CountOk()) && (geo.fsType.FAT12? || (Table()[0] != 0 && Table()[1] != 0)) ==>
                CountOk() && nclst == |FreeSet(Table())|
    {
      hide Volume.Valid, Volume.Fat, Volume.Store, Entries, FreeSet;
      EntryCounts();
      if freeClst <= geo.nFatent - 2 {
        return Ok, freeClst;
      }
      RawScanExact(Table());
      if geo.fsType.FAT12? {
        res, nclst := ScanEntries();
      } else {
        res, nclst := ScanRaw();
      }
      if res.Ok? { StoreFree(nclst); }
    }

    method StoreFree(nfree: nat)
      requires Valid()
      modifies this`freeClst, this`fsiDirty
      ensures Valid() && Fat() == old(Fat()) && Store() == old(Store())
      ensures freeClst == nfree && fsiDirty
    {
      freeClst := nfree;
      fsiDirty := true;
    }

    /** FAT12: the count through the entry reader. */
    method ScanEntries() returns (res: FResult, nfree: nat)
      requires Valid()
      modifies this`wflag, this`media, this`faults, this`winsect, this`stale, win
      ensures Valid() && faults >= old(faults)
      ensures Fat() == old(Fat()) && Store() == old(Store())
      ensures winsect == old(winsect) || geo.InFat(winsect) || winsect == DISK_ERROR
      ensures stale ==> old(stale)
      ensures res.Ok? || (res.IntErr? && Corrupt(Table())) ||
              (res.DiskErr? && faults > old(faults))
      ensures res.Ok? ==> nfree == |FreeSet(Table())|
    {
      hide Volume.Valid, Volume.Fat, Volume.Store, Entries, FreeSet, Zeros;
      EntryCounts();
      nfree := 0;
      var clst: nat := 2;
      while true
        invariant Valid() && faults >= old(faults)
        invariant Fat() == old(Fat()) && Store() == old(Store())
        invariant winsect == old(winsect) || geo.InFat(winsect) || winsect == DISK_ERROR
        invariant stale ==> old(stale)
        invariant 2 <= clst < geo.nFatent
        invariant nfree + Zeros(Table(), 2) == Zeros(Table(), clst)
        decreases geo.nFatent - clst
      {
        ZerosNext(Table(), clst);
        var stat := GetFat(clst);
        if stat == DISK_ERROR { return DiskErr, 0; }
        if stat == 1 { return IntErr, 0; }
        if stat == 0 { nfree := nfree + 1; }
        clst := clst + 1;
        if clst >= geo.nFatent { break; }
      }
      ZerosAll(Table());
      res := Ok;
    }

    /** FAT16 and FAT32: the count straight over the FAT's sectors, which also
        meets the two reserved entries. */
    method ScanRaw() returns (res: FResult, nfree: nat)
      requires Valid() && !geo.fsType.FAT12?
      modifies this`wflag, this`media, this`faults, this`winsect, this`stale, win
      ensures Valid() && faults >= old(faults)
      ensures Fat() == old(Fat()) && Store() == old(Store())
      ensures winsect == old(winsect) || geo.InFat(winsect) || winsect == DISK_ERROR
      ensures stale ==> old(stale)
      ensures res.Ok? || (res.DiskErr? && faults > old(faults))
      ensures res.Ok? ==> nfree == Zeros(Table(), geo.nFatent)
    {
      hide Volume.Valid, Volume.Fat, Volume.Store, Entries, FreeSet, Entry, EntryValues, Geometry.Eoc, FatSize, Holds;
      EntryCounts();
      var clst, sect, i := geo.nFatent, geo.fatbase, 0;
      ghost var k: nat := 0;
      nfree := 0;
      while true
        invariant Valid() && faults >= old(faults)
        invariant Fat() == old(Fat()) && Store() == old(Store())
        invariant winsect == old(winsect) || geo.InFat(winsect) || winsect == DISK_ERROR
        invariant stale ==> old(stale)
        invariant clst > 0 && k + clst == geo.nFatent
        invariant i == EntryOffset(k) % 512
        invariant sect == geo.fatbase + EntryOffset(k) / 512 + if i == 0 then 0 else 1
        invariant i != 0 ==> winsect == geo.fatbase + EntryOffset(k) / 512
        invariant nfree == Zeros(Table(), k)
        decreases clst
      {
        EntryInFat(k);
        if i == 0 {
          res := MoveWindow(sect);
          sect := sect + 1;
          if !res.Ok? { return; }
        }
        var v := PeekEntry(i, k);
        if v == 0 { nfree := nfree + 1; }
        NextEntry(k);
        i := i + if geo.fsType.FAT16? then 2 else 4;
        i := i % 512;
        k := k + 1;
        clst := clst - 1;
        if clst == 0 { break; }
      }
      res := Ok;
    }

    /** Byte offset of entry `k` in a FAT16 or FAT32 table. */
    function EntryOffset(k: nat): nat { if geo.fsType.FAT16? then 2 * k else 4 * k }

    lemma NextEntry(k: nat)
      ensures var w := if geo.fsType.FAT16? then 2 else 4;
              && (EntryOffset(k) % 512 + w) % 512 == EntryOffset(k + 1) % 512
              && EntryOffset(k + 1) / 512 == EntryOffset(k) / 512 + if EntryOffset(k + 1) % 512 == 0 then 1 else 0
    {
      if geo.fsType.FAT16? {
        NextSlot(k, 2, 256);
      } else {
        NextSlot(k, 4, 128);
      }
    }

    /** Entry `k` of a FAT16 or FAT32 table, at offset `i` of its sector. */
    method PeekEntry(i: nat, ghost k: nat) returns (v: nat)
      requires Valid() && !geo.fsType.FAT12? && k < geo.nFatent
      requires winsect == geo.fatbase + EntryOffset(k) / 512 && i == EntryOffset(k) % 512
      ensures v == Table()[k]
    {
      hide Volume.Valid, Volume.Fat, Volume.Store, Volume.Table, Volume.EntryOffset, LdDword, Holds;
      EntryInFat(k);
      EntryWord(k);
      var b := 512 * (winsect - geo.fatbase) + i;
      Recompose(EntryOffset(k), winsect - geo.fatbase, i);
      if geo.fsType.FAT16? {
        EvenByte(b);
        var lo := PeekFat(b);
        var hi := PeekFat(b + 1);
        v := lo as int + 256 * (hi as int);
      } else {
        var w := PeekFatDword(b);
        v := w % 0x1000_0000;
      }
    }

    lemma EntryWord(k: nat)
      requires Valid() && !geo.fsType.FAT12? && k < geo.nFatent
      ensures var b := EntryOffset(k);
              if geo.fsType.FAT16? then b % 2 == 0 && b + 2 <= |Fat()| && Table()[k] == LdWord(Fat(), b)
              else b % 4 == 0 && b + 4 <= |Fat()| && Table()[k] == LdDword(Fat(), b) % 0x1000_0000
    {
      hide Volume.Valid, Volume.Fat, LdWord, LdDword;
      EntryInFat(k);
    }

    lemma EvenByte(b: nat)
      requires b % 2 == 0
      ensures (b + 1) / 512 == b / 512
    {
    }

    lemma Recompose(x: nat, q: int, r: int)
      requires q == x / 512 && r == x % 512
      ensures 512 * q + r == x
    {
    }

    // ---- directory clusters -----------------------------------------------

    /** Fills a cluster with zeros from the window, which then stands for its
        first sector. */
    method ClearCluster(clst: nat) returns (res: FResult)
      requires Valid() && geo.IsCluster(clst)
      modifies this`wflag, this`media, this`faults, this`winsect, this`stale, win
      ensures Valid() && faults >= old(faults)
      ensures Fat() == old(Fat())
      ensures geo.ClusterSector(clst) + geo.csize <= geo.total
      ensures res.Ok? ==> Store() == Blit(old(Store()), geo.ClusterSector(clst), ZeroSectors(geo.csize))
      ensures res.Ok? ==> winsect == geo.ClusterSector(clst) && !wflag && !stale
      ensures !res.Ok? ==> res.DiskErr? && faults > old(faults)
    {
      hide Volume.Fat, Volume.Store, Blit, MirrorHolds;
      geo.ClusterEnds(clst);
      res := SyncWindow();
      if !res.Ok? { return DiskErr; }
      var sect := geo.ClusterSector(clst);
      ZeroWindow(clst, sect);
      BlitNothing(Store(), sect);
      var n := 0;
      while n < geo.csize
        invariant n <= geo.csize && Valid() && !wflag && stale && winsect == sect && win.Length == 512
        invariant faults >= old(faults) && Fat() == old(Fat())
        invariant forall i :: 0 <= i < 512 ==> win[i] == 0
        invariant Store() == Blit(old(Store()), sect, ZeroSectors(n))
      {
        BlitZeros(old(Store()), sect, n, win[..]);
        var ok := WriteData(sect + n, [win[..]]);
        if !ok { return DiskErr; }
        n := n + 1;
      }
      assert win[..] == ZeroSector();
      MarkFresh(clst);
    }

    /** Zeroes the window and points it at the top of a cluster. */
    method ZeroWindow(clst: nat, sect: nat)
      requires Valid() && !wflag && geo.IsCluster(clst) && sect == geo.ClusterSector(clst)
      modifies this`winsect, this`stale, win
      ensures Valid() && stale && winsect == sect && Fat() == old(Fat()) && Store() == old(Store())
      ensures forall i :: 0 <= i < 512 ==> win[i] == 0
    {
      hide FatRegion, StoreRegion;
      geo.ClusterEnds(clst);
      winsect := sect;
      forall i | 0 <= i < 512 { win[i] := 0; }
      stale := true;
    }

    /** The cluster is zero on the drive too: the window is a copy again. */
    ghost method MarkFresh(clst: nat)
      requires Valid() && !wflag && stale && geo.IsCluster(clst) && winsect == geo.ClusterSector(clst)
      requires winsect < geo.total && Store()[winsect] == win[..]
      modifies this`stale
      ensures Valid() && !stale && Fat() == old(Fat()) && Store() == old(Store())
    {
      hide MirrorHolds;
      geo.ClusterEnds(clst);
      geo.ClusterInData(clst, winsect);
      stale := false;
    }
  }


  /** An aligned double word lies in one sector. */
  lemma SameSector(b: nat)
    requires b % 4 == 0
    ensures b / 512 == (b + 1) / 512 == (b + 2) / 512 == (b + 3) / 512
  {
    var q, r := b / 512, b % 512;
    assert r % 4 == 0;
    RemainderUnique(b + 1, 512, q, r + 1);
    RemainderUnique(b + 2, 512, q, r + 2);
    RemainderUnique(b + 3, 512, q, r + 3);
  }

  /** Offsets of slots of `w` bytes, `n` to a sector. */
  lemma NextSlot(k: nat, w: nat, n: nat)
    requires (w, n) == (2, 256) || (w, n) == (4, 128)
    ensures (w * k % 512 + w) % 512 == w * (k + 1) % 512
    ensures w * (k + 1) / 512 == w * k / 512 + if w * (k + 1) % 512 == 0 then 1 else 0
  {
    var q, r := k / n, k % n;
    RemainderUnique(w * k, 512, q, w * r);
    if r + 1 == n {
      RemainderUnique(w * (k + 1), 512, q + 1, 0);
    } else {
      RemainderUnique(w * (k + 1), 512, q, w * (r + 1));
    }
  }
}
