/** A directory's entries as its sectors hold them. */
module DirData {
  import opened Bytes
  import opened Layout
  import opened Chains
  import opened FileData
  import opened DirWalk
  import opened DirTables

  /** `ch` is the chain of the table that starts at `sclust`; empty for the
      static root table. */
  ghost predicate DirOf(g: Geometry, t: Table, sclust: nat, ch: seq<nat>) {
    if ch == [] then StartOf(g, sclust) == 0 && g.nRootdir > 0
    else IsChain(t, ch) && StartOf(g, sclust) == ch[0]
  }

  function DirSectors(g: Geometry, ch: seq<nat>): nat {
    if ch == [] then g.nRootdir / 16 else Capacity(g, ch)
  }

  function DirSect(g: Geometry, ch: seq<nat>, k: nat): nat {
    if ch == [] then g.dirbase + k else SectAt(g, ch, k)
  }

  /** Entries the code can reach. */
  function Slots(g: Geometry, ch: seq<nat>): nat {
    if 16 * DirSectors(g, ch) < MAX_DIR / ENTRY then 16 * DirSectors(g, ch) else MAX_DIR / ENTRY
  }

  function EntryIn(w: Sector, i: nat): Record { w[ENTRY * (i % 16)..ENTRY * (i % 16) + ENTRY] }

  function PutEntryIn(w: Sector, i: nat, r: Record): (v: Sector)
    ensures EntryIn(v, i) == r
    ensures forall j: nat :: j % 16 != i % 16 ==> EntryIn(v, j) == EntryIn(w, j)
  {
    var o := ENTRY * (i % 16);
    var v: seq<Byte> := w[..o] + r + w[o + ENTRY..];
    assert |v| == 512;
    assert EntryIn(v, i) == r;
    assert forall j: nat :: j % 16 != i % 16 ==> EntryIn(v, j) == EntryIn(w, j) by {
      forall j: nat | j % 16 != i % 16 ensures EntryIn(v, j) == EntryIn(w, j) { OtherEntry(w, v, o, j); }
    }
    v
  }

  lemma OtherEntry(w: Sector, v: Sector, o: nat, j: nat)
    requires o % ENTRY == 0 && o + ENTRY <= 512 && o != ENTRY * (j % 16)
    requires v[..o] == w[..o] && v[o + ENTRY..] == w[o + ENTRY..]
    ensures EntryIn(v, j) == EntryIn(w, j)
  {
    var p := ENTRY * (j % 16);
    forall k | p <= k < p + ENTRY ensures v[k] == w[k] {
      if p < o {
        assert v[..o][k] == w[..o][k];
      } else {
        assert v[o + ENTRY..][k - o - ENTRY] == w[o + ENTRY..][k - o - ENTRY];
      }
    }
  }

  ghost function RecordAt(g: Geometry, st: seq<Sector>, ch: seq<nat>, i: nat): Record {
    var s := DirSect(g, ch, i / 16);
    if s < |st| then EntryIn(st[s], i) else Blank()
  }

  ghost function Records(g: Geometry, st: seq<Sector>, ch: seq<nat>): (rs: seq<Record>)
    ensures |rs| == Slots(g, ch)
    ensures forall i :: 0 <= i < |rs| ==> rs[i] == RecordAt(g, st, ch, i)
  {
    seq(Slots(g, ch), i requires 0 <= i < Slots(g, ch) => RecordAt(g, st, ch, i))
  }

  // ---- bytes --------------------------------------------------------------------

  /** `rs` are the whole 32-byte pieces of `b`, 65536 of them at most. */
  ghost predicate Pieces(b: seq<Byte>, rs: seq<Record>) {
    && |rs| == (if |b| / 32 < 65536 then |b| / 32 else 65536)
    && forall i :: 0 <= i < |rs| ==> rs[i] == b[32 * i..32 * i + 32]
  }

  /** The static root table is the sectors between FATs and data area. */
  lemma RootRecords(g: Geometry, st: seq<Sector>)
    requires g.WellFormed() && !g.fsType.FAT32? && |st| == g.total
    ensures g.dirbase == g.FatEnd() <= g.database <= |st| && 16 * (g.database - g.dirbase) == g.nRootdir
    ensures Pieces(Join(st[g.dirbase..g.database]), Records(g, st, []))
  {
    RootFacts(g);
    hide Geometry.WellFormed, EntryIn, Slots;
    SlotNumbers(g, 0, g.nRootdir);
    var b, rs := Join(st[g.dirbase..g.database]), Records(g, st, []);
    SlotsOf(g, [], |b|);
    forall i | 0 <= i < |rs| ensures rs[i] == b[32 * i..32 * i + 32] {
      PieceOf(i, g.database - g.dirbase);
      assert st[g.dirbase..g.database][i / 16] == st[g.dirbase + i / 16];
      SectorPiece(st[g.dirbase + i / 16], b, i);
    }
  }

  /** Every other table is its clusters laid end to end; the FAT32 root is one
      that starts at the cluster of the boot sector. */
  lemma ChainRecords(g: Geometry, t: Table, sclust: nat, ch: seq<nat>, st: seq<Sector>)
    requires g.WellFormed() && |t| == g.nFatent && |st| == g.total && DirOf(g, t, sclust, ch) && ch != []
    ensures ch[0] == if g.fsType.FAT32? && sclust == 0 then g.dirbase else sclust
    ensures OnDrive(g, st, ch) && Pieces(ChainData(g, st, ch), Records(g, st, ch))
  {
    assert AllClusters(g, ch);
    hide Geometry.WellFormed, EntryIn, Slots, SectAt, OnDrive, ChainData, IsChain, DirSect;
    ChainOnDrive(g, st, ch);
    var b, rs := ChainData(g, st, ch), Records(g, st, ch);
    ChainLength(g, ch);
    SlotsOf(g, ch, |b|);
    forall i | 0 <= i < |rs| ensures rs[i] == b[32 * i..32 * i + 32] {
      SpotInTable(g, t, sclust, ch, i);
      PieceOf(i, Capacity(g, ch));
      ChainPiece(g, st, ch, i);
    }
  }

  lemma ChainLength(g: Geometry, ch: seq<nat>)
    requires ch != []
    ensures DirSectors(g, ch) == g.csize * |ch| == Capacity(g, ch)
  {
  }

  lemma ChainPiece(g: Geometry, st: seq<Sector>, ch: seq<nat>, i: nat)
    requires g.WellFormed() && AllClusters(g, ch) && |st| == g.total && ch != [] && OnDrive(g, st, ch)
    requires i / 16 < g.csize * |ch| && DirSect(g, ch, i / 16) < |st|
    ensures 32 * i + 32 <= |ChainData(g, st, ch)|
    ensures RecordAt(g, st, ch, i) == ChainData(g, st, ch)[32 * i..32 * i + 32]
  {
    hide Geometry.WellFormed, EntryIn, ByteAt, SectAt, OnDrive, ChainData;
    var b, w := ChainData(g, st, ch), st[SectAt(g, ch, i / 16)];
    PieceOf(i, g.csize * |ch|);
    forall p | 512 * (i / 16) <= p < 512 * (i / 16) + 512 ensures b[p] == w[p % 512] {
      ChainByte(g, st, ch, p);
      assert p / 512 == i / 16;
      ByteIn(g, st, ch, p);
    }
    SectorPiece(w, b, i);
  }

  lemma ByteIn(g: Geometry, st: seq<Sector>, ch: seq<nat>, p: nat)
    requires SectAt(g, ch, p / 512) < |st|
    ensures ByteAt(g, st, ch, p) == st[SectAt(g, ch, p / 512)][p % 512]
  {
  }

  lemma SlotsOf(g: Geometry, ch: seq<nat>, n: nat)
    requires n == 512 * DirSectors(g, ch)
    ensures Slots(g, ch) == if n / 32 < 65536 then n / 32 else 65536
  {
  }

  lemma PieceOf(i: nat, n: nat)
    requires i / 16 < n
    ensures 512 * (i / 16) + 512 <= 512 * n && 32 * i == 512 * (i / 16) + 32 * (i % 16)
  {
  }

  lemma SectorPiece(w: Sector, b: seq<Byte>, i: nat)
    requires 512 * (i / 16) + 512 <= |b|
    requires forall p :: 512 * (i / 16) <= p < 512 * (i / 16) + 512 ==> b[p] == w[p % 512]
    ensures EntryIn(w, i) == b[32 * i..32 * i + 32]
  {
    PieceOf(i, i / 16 + 1);
    var e, d := EntryIn(w, i), b[32 * i..32 * i + 32];
    forall k | 0 <= k < 32 ensures e[k] == d[k] {
      RemainderUnique(32 * i + k, 512, i / 16, 32 * (i % 16) + k);
    }
  }

  // ---- places -------------------------------------------------------------------

  /** Where entry `i` is. */
  function Spot(g: Geometry, ch: seq<nat>, i: nat): Place {
    Place(ENTRY * i, if ClusterNo(g, ENTRY * i) < |ch| then ch[ClusterNo(g, ENTRY * i)] else 0, DirSect(g, ch, i / 16))
  }

  lemma {:induction false} NthOnChain(t: Table, ch: seq<nat>, j: nat)
    requires IsChain(t, ch) && ch != []
    ensures Nth(t, ch[0], j) == if j < |ch| then ch[j] else 0
  {
    if j > 0 {
      NthOnChain(t, ch, j - 1);
      if j < |ch| { assert t[ch[j - 1]] == ch[j]; }
    }
  }

  lemma SlotNumbers(g: Geometry, i: nat, n: nat)
    ensures ENTRY * i % ENTRY == 0 && ENTRY * i / ENTRY == i && ENTRY * i / 512 == i / 16
    ensures i < 16 * n <==> i / 16 < n
    ensures ENTRY * i < MAX_DIR <==> i < MAX_DIR / ENTRY
    ensures n % 16 == 0 ==> 16 * (n / 16) == n
  {
  }

  /** A seek reaches exactly the entries of the table. */
  lemma SeekOnTable(t: Table, g: Geometry, sclust: nat, ch: seq<nat>, i: nat)
    requires g.WellFormed() && |t| == g.nFatent && DirOf(g, t, sclust, ch)
    ensures SeekTo(t, g, sclust, ENTRY * i) == if i < Slots(g, ch) then Moved(Spot(g, ch, i)) else Stuck(IntErr)
  {
    hide Geometry.WellFormed, Nth, Geometry.ClusterSector;
    g.Bounds();
    RootFacts(g);
    SlotNumbers(g, i, DirSectors(g, ch));
    SlotNumbers(g, 0, g.nRootdir);
    if ch != [] {
      NthOnChain(t, ch, ClusterNo(g, ENTRY * i));
      DivBound(i / 16, g.csize, |ch|);
    }
  }

  /** A step goes to the next entry; it needs a new cluster just behind the last
      entry of a chain below the size limit. */
  lemma StepOnTable(t: Table, g: Geometry, sclust: nat, ch: seq<nat>, i: nat)
    requires g.WellFormed() && |t| == g.nFatent && DirOf(g, t, sclust, ch) && i < Slots(g, ch)
    ensures StepFrom(t, g, Spot(g, ch, i)) ==
            if i + 1 < Slots(g, ch) then Moved(Spot(g, ch, i + 1)) else Stuck(NoFile)
    ensures i + 1 == Slots(g, ch) < MAX_DIR / ENTRY && ch != [] ==>
              && Crosses(g, Spot(g, ch, i)) && i + 1 == 16 * Capacity(g, ch)
              && Spot(g, ch, i).clust == ch[|ch| - 1] && Link(t, ch[|ch| - 1]) >= g.nFatent
    ensures Crosses(g, Spot(g, ch, i)) && Link(t, Spot(g, ch, i).clust) >= g.nFatent ==>
              i + 1 == Slots(g, ch) < MAX_DIR / ENTRY && ch != []
  {
    hide SeekTo, StepFrom, Spot, Slots, IsChain, Crosses;
    SeekOnTable(t, g, sclust, ch, i);
    SeekOnTable(t, g, sclust, ch, i + 1);
    StepMeetsSeek(t, g, sclust, ENTRY * i);
    assert ENTRY * (i + 1) == ENTRY * i + ENTRY;
    EndOfTable(t, g, sclust, ch, i);
  }

  lemma EndOfTable(t: Table, g: Geometry, sclust: nat, ch: seq<nat>, i: nat)
    requires g.WellFormed() && |t| == g.nFatent && DirOf(g, t, sclust, ch) && i < Slots(g, ch)
    ensures i + 1 == Slots(g, ch) ==> StepFrom(t, g, Spot(g, ch, i)) == Stuck(NoFile)
    ensures i + 1 == Slots(g, ch) < MAX_DIR / ENTRY && ch != [] ==>
              && Crosses(g, Spot(g, ch, i)) && i + 1 == 16 * Capacity(g, ch)
              && Spot(g, ch, i).clust == ch[|ch| - 1] && Link(t, ch[|ch| - 1]) >= g.nFatent
    ensures Crosses(g, Spot(g, ch, i)) && Link(t, Spot(g, ch, i).clust) >= g.nFatent ==>
              i + 1 == Slots(g, ch) < MAX_DIR / ENTRY && ch != []
  {
    hide Geometry.WellFormed, Geometry.ClusterSector, SectAt;
    g.Bounds();
    RootFacts(g);
    SlotNumbers(g, i, DirSectors(g, ch));
    SlotNumbers(g, i + 1, DirSectors(g, ch));
    SlotNumbers(g, 0, g.nRootdir);
    SpotInTable(g, t, sclust, ch, i);
    if ch != [] { EndOfChain(t, g, ch, i); }
  }

  lemma EndOfChain(t: Table, g: Geometry, ch: seq<nat>, i: nat)
    requires g.WellFormed() && |t| == g.nFatent && IsChain(t, ch) && ch != [] && i < 16 * Capacity(g, ch)
    ensures ClusterNo(g, ENTRY * i) < |ch|
    ensures i + 1 == 16 * Capacity(g, ch) ==>
              && (ENTRY * i + ENTRY) % 512 == 0 && PlaceInCluster(g, (ENTRY * i + ENTRY) / 512) == 0
              && ClusterNo(g, ENTRY * i) == |ch| - 1 && t[ch[|ch| - 1]] >= g.nFatent
    ensures ((ENTRY * i + ENTRY) % 512 == 0 && PlaceInCluster(g, (ENTRY * i + ENTRY) / 512) == 0
             && Link(t, ch[ClusterNo(g, ENTRY * i)]) >= g.nFatent) ==> i + 1 == 16 * Capacity(g, ch)
  {
    hide Geometry.WellFormed, ClusterNo, PlaceInCluster;
    g.Bounds();
    ChainNumbers(g, i, |ch|);
    var j := ClusterNo(g, ENTRY * i);
    if j < |ch| - 1 { assert t[ch[j]] == ch[j + 1]; }
  }

  lemma ChainNumbers(g: Geometry, i: nat, n: nat)
    requires g.csize > 0 && i < 16 * (g.csize * n)
    ensures ClusterNo(g, ENTRY * i) < n
    ensures i + 1 == 16 * (g.csize * n) ==>
              && (ENTRY * i + ENTRY) % 512 == 0 && PlaceInCluster(g, (ENTRY * i + ENTRY) / 512) == 0
              && ClusterNo(g, ENTRY * i) == n - 1
    ensures ((ENTRY * i + ENTRY) % 512 == 0 && PlaceInCluster(g, (ENTRY * i + ENTRY) / 512) == 0
             && ClusterNo(g, ENTRY * i) == n - 1) ==> i + 1 == 16 * (g.csize * n)
  {
    var c, k := g.csize, i / 16;
    assert ENTRY * i / 512 == k;
    DivBound(k, c, n);
    if (ENTRY * i + ENTRY) % 512 == 0 {
      assert (ENTRY * i + ENTRY) / 512 == k + 1 && i + 1 == 16 * (k + 1);
      DivBound(k + 1, c, n);
      if (k + 1) % c == 0 {
        assert c * ((k + 1) / c) == k + 1;
        assert c * ((k + 1) / c - 1) == k + 1 - c;
        RemainderUnique(k, c, (k + 1) / c - 1, c - 1);
      }
    }
    if i + 1 == 16 * (c * n) {
      assert k + 1 == c * n;
      RemainderUnique(k + 1, c, n, 0);
    }
  }

  /** Entries lie outside the FATs, on the drive, and never in sector 0. */
  lemma SpotInTable(g: Geometry, t: Table, sclust: nat, ch: seq<nat>, i: nat)
    requires g.WellFormed() && |t| == g.nFatent && DirOf(g, t, sclust, ch) && i < Slots(g, ch)
    ensures i / 16 < DirSectors(g, ch)
    ensures var s := DirSect(g, ch, i / 16); 0 < s < g.total && !g.InFat(s) && !g.Shadow(s)
    ensures Spot(g, ch, i).clust == 0 <==> ch == []
  {
    hide Geometry.WellFormed, SectAt, Geometry.InFat, Geometry.Shadow, Geometry.FatEnd, Distinct;
    SlotNumbers(g, i, DirSectors(g, ch));
    if ch != [] { ChainSector(g, ch, i); } else { RootSector(g, i); }
  }

  lemma ChainSector(g: Geometry, ch: seq<nat>, i: nat)
    requires g.WellFormed() && AllClusters(g, ch) && i / 16 < Capacity(g, ch)
    ensures var s := SectAt(g, ch, i / 16); 0 < s < g.total && !g.InFat(s) && !g.Shadow(s)
    ensures ClusterNo(g, ENTRY * i) < |ch| && ch[ClusterNo(g, ENTRY * i)] >= 2
  {
    hide Geometry.WellFormed, Geometry.InCluster, SectAt, Geometry.InFat, Geometry.Shadow;
    g.Bounds();
    SectInCluster(g, ch, i / 16);
    g.ClusterInData(ch[i / 16 / g.csize], SectAt(g, ch, i / 16));
    assert ENTRY * i / 512 == i / 16;
    assert g.IsCluster(ch[ClusterNo(g, ENTRY * i)]);
  }

  lemma RootSector(g: Geometry, i: nat)
    requires g.WellFormed() && g.nRootdir > 0 && i / 16 < g.nRootdir / 16
    ensures var s := g.dirbase + i / 16; g.FatEnd() <= s < g.database && 0 < s < g.total && !g.InFat(s) && !g.Shadow(s)
  {
  }

  // ---- changing entries -----------------------------------------------------------

  /** Two entries share a sector only when they are neighbours in it. */
  lemma SpotInjective(g: Geometry, t: Table, sclust: nat, ch: seq<nat>, i: nat, j: nat)
    requires g.WellFormed() && |t| == g.nFatent && DirOf(g, t, sclust, ch) && i < Slots(g, ch) && j < Slots(g, ch)
    requires DirSect(g, ch, i / 16) == DirSect(g, ch, j / 16) && i % 16 == j % 16
    ensures i == j
  {
    hide Geometry.WellFormed, SectAt, Distinct;
    SpotInTable(g, t, sclust, ch, i);
    SpotInTable(g, t, sclust, ch, j);
    if ch != [] { SectInjective(g, ch, i / 16, j / 16); }
  }

  /** Storing one entry through its sector changes that entry only. */
  lemma PokeRecord(g: Geometry, t: Table, sclust: nat, ch: seq<nat>, st: seq<Sector>, i: nat, r: Record)
    requires g.WellFormed() && |t| == g.nFatent && |st| == g.total && DirOf(g, t, sclust, ch) && i < Slots(g, ch)
    ensures var s := DirSect(g, ch, i / 16);
            && s < |st| && Records(g, st, ch)[i] == EntryIn(st[s], i)
            && Records(g, st[s := PutEntryIn(st[s], i, r)], ch) == Records(g, st, ch)[i := r]
  {
    hide Geometry.WellFormed, SectAt, IsChain, PutEntryIn, EntryIn, DirSect, Slots;
    SpotInTable(g, t, sclust, ch, i);
    var s := DirSect(g, ch, i / 16);
    var su := st[s := PutEntryIn(st[s], i, r)];
    var a, b := Records(g, su, ch), Records(g, st, ch)[i := r];
    forall j | 0 <= j < Slots(g, ch) ensures a[j] == b[j] {
      SpotInTable(g, t, sclust, ch, j);
      if DirSect(g, ch, j / 16) == s && j % 16 == i % 16 { SpotInjective(g, t, sclust, ch, i, j); }
    }
  }

  /** A zeroed cluster at the end of the chain adds unused entries. */
  lemma StretchRecords(g: Geometry, t: Table, u: Table, sclust: nat, ch: seq<nat>, c: nat, st: seq<Sector>)
    requires g.WellFormed() && |t| == |u| == g.nFatent && |st| == g.total
    requires DirOf(g, t, sclust, ch) && ch != [] && IsChain(u, ch + [c]) && Slots(g, ch) < MAX_DIR / ENTRY
    ensures g.ClusterSector(c) + g.csize <= g.total
    ensures Slots(g, ch + [c]) == Slots(g, ch) + 16 * g.csize
    ensures Records(g, Blit(st, g.ClusterSector(c), ZeroSectors(g.csize)), ch + [c]) ==
            Records(g, st, ch) + Blanks(16 * g.csize)
  {
    var dh := ch + [c];
    assert g.IsCluster(dh[|ch|]);
    g.ClusterEnds(c);
    hide Geometry.WellFormed, SectAt, IsChain, EntryIn, Blit;
    StretchSlots(g, ch, c);
    var su := Blit(st, g.ClusterSector(c), ZeroSectors(g.csize));
    var a, b := Records(g, su, dh), Records(g, st, ch) + Blanks(16 * g.csize);
    forall i | 0 <= i < Slots(g, dh) ensures a[i] == b[i] {
      StretchedSector(g, u, ch, c, st, i / 16);
      assert i < 16 * Capacity(g, ch) <==> i / 16 < Capacity(g, ch);
      if i / 16 < Capacity(g, ch) {
        SpotInTable(g, t, sclust, ch, i);
      } else {
        ZeroEntry(i);
      }
    }
  }

  lemma ZeroEntry(i: nat)
    ensures EntryIn(ZeroSector(), i) == Blank()
  {
  }

  lemma StretchSlots(g: Geometry, ch: seq<nat>, c: nat)
    requires g.WellFormed() && ch != [] && Slots(g, ch) < MAX_DIR / ENTRY
    ensures Slots(g, ch + [c]) == Slots(g, ch) + 16 * g.csize
    ensures Slots(g, ch) == 16 * Capacity(g, ch) && Slots(g, ch + [c]) == 16 * Capacity(g, ch + [c])
  {
    var n, k := |ch|, g.csize;
    assert PowerOfTwo(k);
    assert k * (n + 1) == k * n + k;
    assert k * n < 4096 ==> k * (n + 1) <= 4096 by { WholeClusters(k, n); }
  }

  /** The largest table is a whole number of clusters. */
  lemma WholeClusters(k: nat, n: nat)
    requires PowerOfTwo(k) && k * n < 4096
    ensures k * (n + 1) <= 4096
  {
    if k == 1 {} else if k == 2 {} else if k == 4 {} else if k == 8 {}
    else if k == 16 {} else if k == 32 {} else if k == 64 {}
  }

  /** Sector `k` of the stretched table: an old one, or a zeroed one. */
  lemma StretchedSector(g: Geometry, u: Table, ch: seq<nat>, c: nat, st: seq<Sector>, k: nat)
    requires g.WellFormed() && |u| == g.nFatent && |st| == g.total
    requires ch != [] && IsChain(u, ch + [c]) && k < Capacity(g, ch + [c])
    ensures g.ClusterSector(c) + g.csize <= g.total && SectAt(g, ch + [c], k) < g.total
    ensures var su := Blit(st, g.ClusterSector(c), ZeroSectors(g.csize));
            if k < Capacity(g, ch) then
              SectAt(g, ch + [c], k) == SectAt(g, ch, k) && su[SectAt(g, ch, k)] == st[SectAt(g, ch, k)]
            else su[SectAt(g, ch + [c], k)] == ZeroSector()
  {
    var dh := ch + [c];
    assert g.IsCluster(dh[|ch|]);
    g.ClusterEnds(c);
    assert AllClusters(g, dh) && Distinct(dh);
    hide Geometry.WellFormed, Geometry.ClusterSector, SectAt, Capacity, Blit, IsChain, AllClusters, Distinct;
    SectInCluster(g, dh, k);
    if k < Capacity(g, ch) { OldSector(g, ch, c, k); } else { NewSector(g, ch, c, k); }
  }

  lemma OldSector(g: Geometry, ch: seq<nat>, c: nat, k: nat)
    requires g.WellFormed() && AllClusters(g, ch + [c]) && Distinct(ch + [c]) && k < Capacity(g, ch)
    ensures SectAt(g, ch + [c], k) == SectAt(g, ch, k) && !g.InCluster(c, SectAt(g, ch, k))
  {
    hide Geometry.WellFormed, Geometry.InCluster, SectAt;
    g.Bounds();
    var dh := ch + [c];
    DivBound(k, g.csize, |ch|);
    DivBound(k, g.csize, |dh|);
    SectPrefix(g, ch, dh, k);
    SectInCluster(g, dh, k);
    assert dh[k / g.csize] != dh[|ch|] == c;
    var s := SectAt(g, dh, k);
    if g.InCluster(c, s) { g.ClustersDisjoint(c, dh[k / g.csize], s); }
  }

  lemma NewSector(g: Geometry, ch: seq<nat>, c: nat, k: nat)
    requires g.WellFormed() && AllClusters(g, ch + [c]) && Capacity(g, ch) <= k < Capacity(g, ch + [c])
    ensures g.InCluster(c, SectAt(g, ch + [c], k))
  {
    hide Geometry.WellFormed, Geometry.InCluster, SectAt;
    g.Bounds();
    var dh := ch + [c];
    DivBound(k, g.csize, |ch|);
    DivBound(k, g.csize, |dh|);
    SectInCluster(g, dh, k);
    assert dh[k / g.csize] == c;
  }

  /** The table may grow: it is a chain, and not of the largest size. */
  predicate CanGrow(g: Geometry, ch: seq<nat>) { ch != [] && Slots(g, ch) < MAX_DIR / ENTRY }

  /** The stretched table is a table, and its first new entry is where the code
      puts the cursor. */
  lemma Growth(g: Geometry, t: Table, u: Table, sclust: nat, ch: seq<nat>, c: nat)
    requires g.WellFormed() && |t| == |u| == g.nFatent && DirOf(g, t, sclust, ch) && CanGrow(g, ch)
    requires IsChain(u, ch + [c])
    ensures DirOf(g, u, sclust, ch + [c])
    ensures Spot(g, ch + [c], Slots(g, ch)) == Place(ENTRY * Slots(g, ch), c, g.ClusterSector(c))
  {
    StretchSlots(g, ch, c);
    var i, n := Slots(g, ch), |ch|;
    assert i / 16 == g.csize * n && ENTRY * i / 512 == g.csize * n;
    RemainderUnique(g.csize * n, g.csize, n, 0);
  }

  /** Sectors outside the table and outside the clusters it could be given. */
  ghost predicate Apart(g: Geometry, pool: set<nat>, ch: seq<nat>, s: nat) {
    g.ClearOf(pool, s) && (ch == [] ==> s < g.dirbase || g.database <= s)
  }

  /** Nothing outside the table and the free clusters changed. */
  ghost predicate Undisturbed(g: Geometry, pool: set<nat>, ch: seq<nat>, st: seq<Sector>, t: Table, su: seq<Sector>,
                              u: Table) {
    && |su| == |st| && |u| == |t|
    && (forall s :: 0 <= s < |st| && Apart(g, pool, ch, s) ==> su[s] == st[s])
    && (forall c :: 0 <= c < |t| && c !in pool ==> u[c] == t[c])
  }

  lemma ZeroedApart(g: Geometry, pool: set<nat>, ch: seq<nat>, st: seq<Sector>, t: Table, u: Table, c: nat)
    requires g.WellFormed() && |st| == g.total && g.IsCluster(c) && c in pool && |u| == |t|
    requires forall d :: 0 <= d < |t| && d !in pool ==> u[d] == t[d]
    ensures g.ClusterSector(c) + g.csize <= |st|
    ensures Undisturbed(g, pool, ch, st, t, Blit(st, g.ClusterSector(c), ZeroSectors(g.csize)), u)
  {
    hide Geometry.WellFormed;
    g.ClusterEnds(c);
    forall s | 0 <= s < |st| && Apart(g, pool, ch, s) ensures !g.InCluster(c, s) {}
  }

  /** An entry's sector is not apart from its table. */
  lemma EntryNotApart(g: Geometry, t: Table, sclust: nat, ch: seq<nat>, pool: set<nat>, i: nat)
    requires g.WellFormed() && |t| == g.nFatent && DirOf(g, t, sclust, ch) && i < Slots(g, ch) && Elems(ch) <= pool
    ensures !Apart(g, pool, ch, DirSect(g, ch, i / 16))
  {
    hide Geometry.WellFormed, SectAt, Geometry.InCluster, Slots;
    SpotInTable(g, t, sclust, ch, i);
    if ch != [] {
      SectInCluster(g, ch, i / 16);
      assert ch[i / 16 / g.csize] in Elems(ch);
    } else {
      RootIs(g, sclust);
      RootSector(g, i);
    }
  }

  lemma RootIs(g: Geometry, sclust: nat)
    requires g.WellFormed() && g.nRootdir > 0
    ensures g.dirbase == g.FatEnd()
  {
  }

  lemma StaticStays(g: Geometry, t: Table, u: Table, sclust: nat, ch: seq<nat>, dh: seq<nat>)
    requires DirOf(g, t, sclust, ch) && DirOf(g, u, sclust, dh)
    ensures ch == [] <==> dh == []
  {
  }

  /** Storing an entry on top of an undisturbing change disturbs nothing more. */
  lemma PokeUndisturbed(g: Geometry, pool: set<nat>, ch: seq<nat>, dh: seq<nat>, st: seq<Sector>, t: Table,
                        su: seq<Sector>, u: Table, sv: seq<Sector>, sclust: nat, i: nat)
    requires g.WellFormed() && |t| == |u| == g.nFatent && |su| == g.total && |sv| == |su|
    requires Undisturbed(g, pool, ch, st, t, su, u)
    requires DirOf(g, t, sclust, ch) && DirOf(g, u, sclust, dh) && Elems(dh) <= pool && i < Slots(g, dh)
    requires forall s :: 0 <= s < g.total && s != DirSect(g, dh, i / 16) ==> sv[s] == su[s]
    ensures Undisturbed(g, pool, ch, st, t, sv, u)
  {
    hide Geometry.WellFormed, Slots, DirSect, IsChain, Geometry.ClearOf;
    EntryNotApart(g, u, sclust, dh, pool, i);
    StaticStays(g, t, u, sclust, ch, dh);
  }

  /** Entries the table can come to have, with the clusters of `pool`. */
  function MostSlots(g: Geometry, ch: seq<nat>, pool: set<nat>): nat {
    if ch == [] then Slots(g, ch)
    else if 16 * (g.csize * |pool|) < MAX_DIR / ENTRY then 16 * (g.csize * |pool|)
    else MAX_DIR / ENTRY
  }

  /** The table stays within that, and has reached it when it cannot grow or has
      all the clusters. */
  lemma WithinMost(g: Geometry, t: Table, sclust: nat, ch: seq<nat>, pool: set<nat>)
    requires g.WellFormed() && |t| == g.nFatent && DirOf(g, t, sclust, ch) && pool == FreeSet(t) + Elems(ch)
    ensures Slots(g, ch) <= MostSlots(g, ch, pool)
    ensures !CanGrow(g, ch) || FreeSet(t) == {} ==> Slots(g, ch) == MostSlots(g, ch, pool)
  {
    hide Geometry.WellFormed;
    if ch != [] {
      ElemsSize(ch);
      SubsetSize(Elems(ch), pool);
      MulGap(g.csize, |ch|, |pool|);
    }
  }

  /** All that changed is cluster `c`, and the FAT entries of it and of `p`. */
  ghost predicate OnlyGrown(g: Geometry, c: nat, p: nat, st: seq<Sector>, t: Table, su: seq<Sector>, u: Table) {
    && |su| == |st| && |u| == |t|
    && (forall s :: 0 <= s < |st| && !g.InCluster(c, s) ==> su[s] == st[s])
    && (forall d :: 0 <= d < |t| && d != c && d != p ==> u[d] == t[d])
  }

  lemma ZeroedGrown(g: Geometry, c: nat, p: nat, st: seq<Sector>, t: Table, u: Table)
    requires g.WellFormed() && |st| == g.total && g.IsCluster(c) && |u| == |t|
    requires forall d :: 0 <= d < |t| && d != c && d != p ==> u[d] == t[d]
    ensures g.ClusterSector(c) + g.csize <= |st|
    ensures OnlyGrown(g, c, p, st, t, Blit(st, g.ClusterSector(c), ZeroSectors(g.csize)), u)
  {
    hide Geometry.WellFormed;
    g.ClusterEnds(c);
    forall s | 0 <= s < |st| && !g.InCluster(c, s)
      ensures !(g.ClusterSector(c) <= s < g.ClusterSector(c) + g.csize)
    {}
  }

  lemma PokeGrown(g: Geometry, u: Table, sclust: nat, ch: seq<nat>, i: nat, p: nat, st: seq<Sector>, t: Table,
                  su: seq<Sector>, sv: seq<Sector>)
    requires g.WellFormed() && |u| == g.nFatent && DirOf(g, u, sclust, ch) && ch != [] && i < Slots(g, ch)
    requires OnlyGrown(g, Spot(g, ch, i).clust, p, st, t, su, u) && |sv| == |su| == g.total
    requires forall s :: 0 <= s < g.total && s != DirSect(g, ch, i / 16) ==> sv[s] == su[s]
    ensures OnlyGrown(g, Spot(g, ch, i).clust, p, st, t, sv, u)
  {
    hide Geometry.WellFormed, SectAt, Geometry.InCluster, Distinct;
    SpotInTable(g, u, sclust, ch, i);
    SectInCluster(g, ch, i / 16);
    SlotNumbers(g, i, 0);
    assert ClusterNo(g, ENTRY * i) == i / 16 / g.csize;
  }
}
