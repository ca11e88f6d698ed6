/** Moving about in a directory table: seeking to an entry and stepping to the
    next one, on any FAT content. */
module DirWalk {
  import opened Bytes
  import opened Layout
  import opened Chains
  import opened FileData

  const MAX_DIR := 0x20_0000   // a table's largest size
  const ENTRY := 32            // bytes of an entry

  /** Where a directory object stands: offset, cluster (0: static table) and
      sector (0: past the end). */
  datatype Place = Place(dptr: nat, clust: nat, sect: nat)

  datatype Move = Moved(place: Place) | Stuck(res: FResult)

  /** First cluster of the table; 0 for the static root table. */
  function StartOf(g: Geometry, sclust: nat): nat {
    if sclust == 0 && g.fsType.FAT32? then g.dirbase else sclust
  }

  /** What the FAT says of a number that may not be a cluster. */
  function Link(t: Table, c: nat): nat { if 2 <= c < |t| then t[c] else 1 }

  /** The cluster `j` links after `c`; 0 when a link is missing. */
  function Nth(t: Table, c: nat, j: nat): nat {
    if j == 0 then c
    else var d := Link(t, Nth(t, c, j - 1)); if 2 <= d < |t| then d else 0
  }

  function SeekTo(t: Table, g: Geometry, sclust: nat, ofs: nat): Move {
    if ofs >= MAX_DIR || ofs % ENTRY != 0 then Stuck(IntErr)
    else if StartOf(g, sclust) == 0 then
      if ofs / ENTRY >= g.nRootdir then Stuck(IntErr) else Moved(Place(ofs, 0, g.dirbase + ofs / 512))
    else
      var c := Nth(t, StartOf(g, sclust), ClusterNo(g, ofs));
      if g.IsCluster(c) then Moved(Place(ofs, c, g.ClusterSector(c) + PlaceInCluster(g, ofs / 512))) else Stuck(IntErr)
  }

  /** The step behind `p` needs another cluster of the chain. */
  predicate Crosses(g: Geometry, p: Place) {
    && p.dptr + ENTRY < MAX_DIR && p.sect != 0 && p.clust != 0
    && (p.dptr + ENTRY) % 512 == 0 && PlaceInCluster(g, (p.dptr + ENTRY) / 512) == 0
  }

  function StepFrom(t: Table, g: Geometry, p: Place): Move {
    var ofs := p.dptr + ENTRY;
    if ofs >= MAX_DIR || p.sect == 0 then Stuck(NoFile)
    else if ofs % 512 != 0 then Moved(Place(ofs, p.clust, p.sect))
    else if p.clust == 0 && ofs / ENTRY >= g.nRootdir then Stuck(NoFile)
    else if !Crosses(g, p) then Moved(Place(ofs, p.clust, p.sect + 1))
    else
      var c := Link(t, p.clust);
      if c <= 1 then Stuck(IntErr)
      else if c >= g.nFatent then Stuck(NoFile)
      else Moved(Place(ofs, c, g.ClusterSector(c)))
  }

  /** `k` steps from the start of the table. */
  function Steps(t: Table, g: Geometry, sclust: nat, k: nat): Move {
    if k == 0 then SeekTo(t, g, sclust, 0)
    else
      var m := Steps(t, g, sclust, k - 1);
      if m.Moved? then StepFrom(t, g, m.place) else m
  }

  /** Seek equals stepping, on every FAT content: `k` steps succeed exactly when
      the seek to entry `k` does, and end at the same place. */
  lemma {:induction false} SeekIsSteps(t: Table, g: Geometry, sclust: nat, k: nat)
    requires g.WellFormed() && |t| == g.nFatent
    ensures var a, b := Steps(t, g, sclust, k), SeekTo(t, g, sclust, ENTRY * k);
            (a.Moved? <==> b.Moved?) && (a.Moved? ==> a == b)
  {
    hide Geometry.WellFormed, SeekTo, StepFrom;
    if k > 0 {
      SeekIsSteps(t, g, sclust, k - 1);
      StepMeetsSeek(t, g, sclust, ENTRY * (k - 1));
    }
  }

  lemma StepMeetsSeek(t: Table, g: Geometry, sclust: nat, ofs: nat)
    requires g.WellFormed() && |t| == g.nFatent && ofs % ENTRY == 0
    ensures SeekTo(t, g, sclust, ofs + ENTRY).Moved? ==> SeekTo(t, g, sclust, ofs).Moved?
    ensures var a := SeekTo(t, g, sclust, ofs);
            a.Moved? ==>
              var n, b := StepFrom(t, g, a.place), SeekTo(t, g, sclust, ofs + ENTRY);
              (n.Moved? <==> b.Moved?) && (n.Moved? ==> n == b)
  {
    hide Geometry.WellFormed, ClusterNo, PlaceInCluster, Geometry.ClusterSector, Nth;
    NextPlace(g, ofs);
    NthNext(t, StartOf(g, sclust), ClusterNo(g, ofs));
    SectorsPositive(t, g);
    RootFacts(g);
    if SeekTo(t, g, sclust, ofs).Moved? {
      SeekSector(t, g, sclust, ofs);
      WholeSectorsOfRoot(g, ofs);
    }
  }

  /** The static table ends on a sector boundary. */
  lemma WholeSectorsOfRoot(g: Geometry, ofs: nat)
    requires g.nRootdir % 16 == 0 && ofs % ENTRY == 0
    ensures (ofs + ENTRY) % 512 != 0 && ofs / ENTRY < g.nRootdir ==> (ofs + ENTRY) / ENTRY < g.nRootdir
    ensures (ofs + ENTRY) / ENTRY == ofs / ENTRY + 1
  {
  }

  lemma SectorsPositive(t: Table, g: Geometry)
    requires g.WellFormed()
    ensures forall c :: g.IsCluster(c) ==> g.ClusterSector(c) > 0
    ensures !g.fsType.FAT32? ==> g.dirbase > 0
    ensures g.fsType.FAT32? ==> g.nRootdir == 0
  {
    hide Geometry.WellFormed;
    forall c | g.IsCluster(c) ensures g.ClusterSector(c) > 0 { g.ClusterNotZero(c); }
    RootFacts(g);
  }

  lemma RootFacts(g: Geometry)
    requires g.WellFormed()
    ensures !g.fsType.FAT32? ==> g.FatEnd() == g.dirbase > 0 && g.nRootdir > 0 && g.nRootdir % 16 == 0
    ensures !g.fsType.FAT32? ==> g.database == g.dirbase + g.nRootdir / 16
    ensures g.fsType.FAT32? ==> g.nRootdir == 0
    ensures g.database <= g.total
  {
  }

  /** A seek never ends at sector 0, the mark of a finished read. */
  lemma SeekSector(t: Table, g: Geometry, sclust: nat, ofs: nat)
    requires g.WellFormed() && SeekTo(t, g, sclust, ofs).Moved?
    ensures SeekTo(t, g, sclust, ofs).place.sect > 0
  {
    SectorsPositive(t, g);
  }

  lemma NthNext(t: Table, c: nat, j: nat)
    ensures Nth(t, c, j + 1) == var d := Link(t, Nth(t, c, j)); if 2 <= d < |t| then d else 0
    ensures Nth(t, c, 0) == c
  {
  }

  /** How a step moves the sector, in bytes per cluster. */
  lemma NextPlace(g: Geometry, ofs: nat)
    requires g.WellFormed() && ofs % ENTRY == 0
    ensures ClusterNo(g, 0) == 0 && PlaceInCluster(g, 0) == 0
    ensures (ofs + ENTRY) % 512 != 0 ==>
              (ofs + ENTRY) / 512 == ofs / 512 && ClusterNo(g, ofs + ENTRY) == ClusterNo(g, ofs)
    ensures (ofs + ENTRY) % 512 == 0 ==>
              && (ofs + ENTRY) / 512 == ofs / 512 + 1
              && if PlaceInCluster(g, (ofs + ENTRY) / 512) == 0 then ClusterNo(g, ofs + ENTRY) == ClusterNo(g, ofs) + 1
                 else && ClusterNo(g, ofs + ENTRY) == ClusterNo(g, ofs)
                      && PlaceInCluster(g, (ofs + ENTRY) / 512) == PlaceInCluster(g, ofs / 512) + 1
  {
    hide Geometry.WellFormed;
    g.Bounds();
    assert (ofs + ENTRY) % 512 == 0 ==> (ofs + ENTRY) / 512 == ofs / 512 + 1;
    assert 0 / 512 == 0;
    NextInCluster(ofs / 512, g.csize);
  }

  /** The next number by quotient and remainder. */
  lemma NextInCluster(k: nat, c: nat)
    requires c > 0
    ensures 0 / c == 0 && 0 % c == 0
    ensures if (k + 1) % c == 0 then (k + 1) / c == k / c + 1
            else (k + 1) / c == k / c && (k + 1) % c == k % c + 1
  {
    DivBound(k, c, 0);
    if k % c == c - 1 {
      MulAdd(c, k / c, 1);
      RemainderUnique(k + 1, c, k / c + 1, 0);
    } else {
      RemainderUnique(k + 1, c, k / c, k % c + 1);
    }
  }

  /** A missing link stays missing. */
  lemma {:induction false} NthDead(t: Table, c: nat, j: nat, m: nat)
    requires j <= m && Nth(t, c, j) == 0
    ensures Nth(t, c, m) == 0
    decreases m
  {
    if j < m { NthDead(t, c, j, m - 1); }
  }

  /** An offset as the seek loop takes it apart. */
  lemma OffsetParts(g: Geometry, ofs: nat, j: nat, rest: nat)
    requires g.csize > 0 && ClusterTop(g, j) + rest == ofs
    ensures rest < g.ClusterBytes() ==> ClusterNo(g, ofs) == j && PlaceInCluster(g, ofs / 512) == rest / 512
    ensures rest >= g.ClusterBytes() ==> j < ClusterNo(g, ofs)
  {
    var c := g.csize;
    assert ClusterTop(g, j) == 512 * (c * j);
    RemainderUnique(ofs, 512, c * j + rest / 512, rest % 512);
    if rest < g.ClusterBytes() {
      RemainderUnique(ofs / 512, c, j, rest / 512);
    } else {
      assert c * (j + 1) == c * j + c;
      DivBound(ofs / 512, c, j + 1);
    }
  }

  /** The code's test for a cluster boundary. */
  lemma MaskPlace(g: Geometry, k: nat)
    requires g.WellFormed()
    ensures BitAnd(k, g.csize - 1) == PlaceInCluster(g, k)
  {
    MaskCluster(k, g.csize);
  }
}
