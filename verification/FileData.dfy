/** A file's bytes as its cluster chain lays them out over the sectors of the
    volume, and what writing sectors does to them. */
module FileData {
  import opened Bytes
  import opened Layout
  import opened Chains

  ghost predicate AllClusters(g: Geometry, ch: seq<nat>) {
    forall i :: 0 <= i < |ch| ==> g.IsCluster(ch[i])
  }

  /** Sectors a chain provides. */
  function Capacity(g: Geometry, ch: seq<nat>): nat { g.csize * |ch| }

  /** Sector number `k` of the file. */
  function SectAt(g: Geometry, ch: seq<nat>, k: nat): nat {
    if g.csize > 0 && k / g.csize < |ch| then g.ClusterSector(ch[k / g.csize]) + k % g.csize else 0
  }

  ghost function ByteAt(g: Geometry, st: seq<Sector>, ch: seq<nat>, i: nat): Byte {
    var s := SectAt(g, ch, i / 512);
    if s < |st| then st[s][i % 512] else 0
  }

  /** The first `n` bytes of the file. */
  ghost function FileBytes(g: Geometry, st: seq<Sector>, ch: seq<nat>, n: nat): (r: seq<Byte>)
    ensures |r| == n
    ensures forall i :: 0 <= i < n ==> r[i] == ByteAt(g, st, ch, i)
  {
    seq(n, i requires 0 <= i < n => ByteAt(g, st, ch, i))
  }

  lemma DivBound(k: nat, c: nat, n: nat)
    requires c > 0
    ensures k < c * n <==> k / c < n
    ensures c * (k / c) + k % c == k
  {
    MulGap(c, k / c, n);
    assert k / c == n ==> c * (k / c) == c * n;
  }

  /** Sector `k` is the `k % csize`-th sector of cluster number `k / csize`. */
  lemma SectInCluster(g: Geometry, ch: seq<nat>, k: nat)
    requires g.WellFormed() && AllClusters(g, ch) && k < Capacity(g, ch)
    ensures k / g.csize < |ch|
    ensures g.InCluster(ch[k / g.csize], SectAt(g, ch, k))
    ensures g.database <= SectAt(g, ch, k) < g.total && SectAt(g, ch, k) > 0
  {
    DivBound(k, g.csize, |ch|);
    assert g.IsCluster(ch[k / g.csize]);
    g.ClusterInData(ch[k / g.csize], SectAt(g, ch, k));
  }

  /** Two sectors of the file never share a place on the drive. */
  lemma SectInjective(g: Geometry, ch: seq<nat>, j: nat, k: nat)
    requires g.WellFormed() && AllClusters(g, ch) && Distinct(ch)
    requires j < Capacity(g, ch) && k < Capacity(g, ch) && SectAt(g, ch, j) == SectAt(g, ch, k)
    ensures j == k
  {
    hide SectAt, Geometry.WellFormed, Capacity, Geometry.InCluster, Geometry.ClusterSector, AllClusters, Distinct;
    var a, r := Whereabouts(g, ch, j);
    var b, q := Whereabouts(g, ch, k);
    g.ClustersDisjoint(ch[a], ch[b], SectAt(g, ch, k));
    SamePlace(ch, a, b);
  }

  /** Sector `k` of the file is sector `r` of its cluster `a`. */
  lemma Whereabouts(g: Geometry, ch: seq<nat>, k: nat) returns (a: nat, r: nat)
    requires g.WellFormed() && AllClusters(g, ch) && k < Capacity(g, ch)
    ensures a < |ch| && k == g.csize * a + r
    ensures g.InCluster(ch[a], SectAt(g, ch, k)) && g.ClusterSector(ch[a]) + r == SectAt(g, ch, k)
  {
    hide SectAt, Geometry.WellFormed, Capacity, Geometry.InCluster, Geometry.ClusterSector, AllClusters;
    g.Bounds();
    SectInCluster(g, ch, k);
    FirstSector(g, ch, k);
    a, r := k / g.csize, k % g.csize;
  }

  lemma SamePlace(ch: seq<nat>, a: nat, b: nat)
    requires Distinct(ch) && a < |ch| && b < |ch| && ch[a] == ch[b]
    ensures a == b
  {
  }

  /** Within a cluster, file sectors are consecutive on the drive. */
  lemma SectRun(g: Geometry, ch: seq<nat>, k: nat, j: nat)
    requires g.WellFormed() && AllClusters(g, ch) && k < Capacity(g, ch) && k % g.csize + j < g.csize
    ensures k + j < Capacity(g, ch)
    ensures SectAt(g, ch, k + j) == SectAt(g, ch, k) + j
    ensures (k + j) / g.csize == k / g.csize
  {
    DivBound(k, g.csize, |ch|);
    RemainderUnique(k + j, g.csize, k / g.csize, k % g.csize + j);
    DivBound(k + j, g.csize, |ch|);
  }

  lemma FirstSector(g: Geometry, ch: seq<nat>, k: nat)
    requires g.WellFormed() && AllClusters(g, ch) && k < Capacity(g, ch)
    ensures k / g.csize < |ch| && k % g.csize < g.csize
    ensures 0 < g.ClusterSector(ch[k / g.csize]) == SectAt(g, ch, k) - k % g.csize
  {
    hide Geometry.WellFormed, Geometry.ClusterSector;
    g.Bounds();
    DivBound(k, g.csize, |ch|);
    assert g.IsCluster(ch[k / g.csize]);
    g.ClusterNotZero(ch[k / g.csize]);
  }

  /** A run of sectors within one cluster of the chain. */
  lemma RunInCluster(g: Geometry, ch: seq<nat>, k: nat, m: nat)
    requires g.WellFormed() && AllClusters(g, ch) && k < Capacity(g, ch) && 0 < m && k % g.csize + m <= g.csize
    ensures k / g.csize < |ch| && g.IsCluster(ch[k / g.csize])
    ensures g.ClusterSector(ch[k / g.csize]) <= SectAt(g, ch, k)
    ensures SectAt(g, ch, k) + m <= g.ClusterSector(ch[k / g.csize]) + g.csize
    ensures g.database <= SectAt(g, ch, k) && SectAt(g, ch, k) + m <= g.total
  {
    FirstSector(g, ch, k);
    SectInCluster(g, ch, k);
    MulGap(g.csize, ch[k / g.csize] - 2, g.nFatent - 2);
  }

  /** Sectors depend only on the part of the chain that holds them. */
  lemma SectPrefix(g: Geometry, ch: seq<nat>, dh: seq<nat>, k: nat)
    requires g.csize > 0 && ch <= dh && k < Capacity(g, ch)
    ensures SectAt(g, dh, k) == SectAt(g, ch, k)
  {
    DivBound(k, g.csize, |ch|);
  }

  lemma BytesPrefix(g: Geometry, st: seq<Sector>, ch: seq<nat>, dh: seq<nat>, n: nat)
    requires g.csize > 0 && ch <= dh && n <= 512 * Capacity(g, ch)
    ensures FileBytes(g, st, dh, n) == FileBytes(g, st, ch, n)
  {
    forall i | 0 <= i < n ensures ByteAt(g, st, dh, i) == ByteAt(g, st, ch, i) {
      SectPrefix(g, ch, dh, i / 512);
    }
  }

  /** The same sectors, the same bytes. */
  lemma BytesSame(g: Geometry, st: seq<Sector>, su: seq<Sector>, ch: seq<nat>, n: nat)
    requires |su| == |st| && n <= 512 * Capacity(g, ch)
    requires forall k :: 0 <= k < Capacity(g, ch) && SectAt(g, ch, k) < |st| ==>
               su[SectAt(g, ch, k)] == st[SectAt(g, ch, k)]
    ensures FileBytes(g, su, ch, n) == FileBytes(g, st, ch, n)
  {
    forall i | 0 <= i < n ensures ByteAt(g, su, ch, i) == ByteAt(g, st, ch, i) {
      assert i / 512 < Capacity(g, ch);
    }
  }

  lemma BytesTake(g: Geometry, st: seq<Sector>, ch: seq<nat>, n: nat, m: nat)
    requires n <= m
    ensures FileBytes(g, st, ch, m)[..n] == FileBytes(g, st, ch, n)
  {
  }

  /** Replacing one sector of the file by `w`, which carries `d` from offset `o`
      and the old bytes wherever the file had any, writes `d` into the file. */
  lemma PatchSector(g: Geometry, st: seq<Sector>, ch: seq<nat>, n: nat, k: nat, o: nat, d: seq<Byte>, w: Sector)
    requires g.WellFormed() && AllClusters(g, ch) && Distinct(ch) && |st| == g.total
    requires k < Capacity(g, ch) && o + |d| <= 512 && 512 * k + o <= n <= 512 * Capacity(g, ch)
    requires forall q :: o <= q < o + |d| ==> w[q] == d[q - o]
    requires forall q :: 0 <= q < 512 && !(o <= q < o + |d|) && 512 * k + q < n ==> w[q] == st[SectAt(g, ch, k)][q]
    requires SectAt(g, ch, k) < |st|
    ensures var p := 512 * k + o;
            var su := st[SectAt(g, ch, k) := w];
            FileBytes(g, su, ch, if p + |d| > n then p + |d| else n) == Splice(FileBytes(g, st, ch, n), p, d)
  {
    var p := 512 * k + o;
    var m := if p + |d| > n then p + |d| else n;
    var su := st[SectAt(g, ch, k) := w];
    var old0, new0 := FileBytes(g, st, ch, n), Splice(FileBytes(g, st, ch, n), p, d);
    forall i | 0 <= i < m ensures ByteAt(g, su, ch, i) == new0[i] {
      var j := i / 512;
      if j == k {
        assert i == 512 * k + i % 512;
      } else {
        assert j < Capacity(g, ch);
        if SectAt(g, ch, j) == SectAt(g, ch, k) { SectInjective(g, ch, j, k); }
        assert !(p <= i < p + |d|);
        assert new0[i] == old0[i];
      }
    }
  }

  /** The bytes of a run of sectors. */
  function Chop(d: seq<Byte>, m: nat): (r: seq<Sector>)
    requires |d| == 512 * m
    ensures |r| == m
    ensures forall j, q :: 0 <= j < m && 0 <= q < 512 ==> r[j][q] == d[512 * j + q]
  {
    seq(m, j requires 0 <= j < m => d[512 * j..512 * j + 512])
  }

  /** A direct write of `m` whole sectors inside one cluster. */
  lemma PatchRun(g: Geometry, st: seq<Sector>, ch: seq<nat>, n: nat, k: nat, d: seq<Byte>, m: nat)
    requires g.WellFormed() && AllClusters(g, ch) && Distinct(ch) && |st| == g.total
    requires m > 0 && |d| == 512 * m && k < Capacity(g, ch) && PlaceInCluster(g, k) + m <= g.csize
    requires 512 * k <= n <= 512 * Capacity(g, ch)
    ensures SectAt(g, ch, k) + m <= |st|
    ensures 512 * (k + m) <= 512 * Capacity(g, ch)
    ensures var su := Blit(st, SectAt(g, ch, k), Chop(d, m));
            FileBytes(g, su, ch, if 512 * (k + m) > n then 512 * (k + m) else n) ==
            Splice(FileBytes(g, st, ch, n), 512 * k, d)
  {
    hide SectAt, Blit, Splice, Chop, FileBytes, Geometry.WellFormed, Geometry.InCluster, Distinct, AllClusters;
    SectRun(g, ch, k, m - 1);
    SectInCluster(g, ch, k + m - 1);
    SectInCluster(g, ch, k);
    var secs := Chop(d, m);
    var su := Blit(st, SectAt(g, ch, k), secs);
    var e := if 512 * (k + m) > n then 512 * (k + m) else n;
    var new0 := Splice(FileBytes(g, st, ch, n), 512 * k, d);
    forall i | 0 <= i < e ensures ByteAt(g, su, ch, i) == new0[i] {
      var j := i / 512;
      assert i == 512 * j + i % 512;
      if k <= j < k + m {
        SectRun(g, ch, k, j - k);
        assert su[SectAt(g, ch, j)] == secs[j - k];
      } else {
        OutsideRun(g, ch, k, m, j);
      }
    }
  }

  /** A sector outside a run within one cluster lies outside it on the drive. */
  lemma OutsideRun(g: Geometry, ch: seq<nat>, k: nat, m: nat, j: nat)
    requires g.WellFormed() && AllClusters(g, ch) && Distinct(ch)
    requires k < Capacity(g, ch) && k % g.csize + m <= g.csize && j < Capacity(g, ch)
    requires !(k <= j < k + m)
    ensures !(SectAt(g, ch, k) <= SectAt(g, ch, j) < SectAt(g, ch, k) + m)
  {
    var d := SectAt(g, ch, j) - SectAt(g, ch, k);
    if 0 <= d < m {
      SectRun(g, ch, k, d);
      SectInjective(g, ch, j, k + d);
    }
  }

  /** Reading `m` whole sectors inside one cluster reads the file's bytes. */
  lemma ReadRun(g: Geometry, st: seq<Sector>, ch: seq<nat>, n: nat, k: nat, m: nat)
    requires g.WellFormed() && AllClusters(g, ch) && |st| == g.total
    requires m > 0 && k < Capacity(g, ch) && PlaceInCluster(g, k) + m <= g.csize && 512 * (k + m) <= n
    ensures SectAt(g, ch, k) + m <= |st|
    ensures Join(st[SectAt(g, ch, k)..SectAt(g, ch, k) + m]) == FileBytes(g, st, ch, n)[512 * k..512 * (k + m)]
  {
    hide SectAt, Join, FileBytes, Geometry.WellFormed, Geometry.InCluster, Distinct, AllClusters;
    SectRun(g, ch, k, m - 1);
    SectInCluster(g, ch, k + m - 1);
    SectInCluster(g, ch, k);
    var run := st[SectAt(g, ch, k)..SectAt(g, ch, k) + m];
    var f := FileBytes(g, st, ch, n);
    var a, b := Join(run), f[512 * k..512 * (k + m)];
    forall i | 0 <= i < 512 * m ensures a[i] == b[i] {
      SectRun(g, ch, k, i / 512);
      assert (512 * k + i) / 512 == k + i / 512 && (512 * k + i) % 512 == i % 512;
      assert b[i] == ByteAt(g, st, ch, 512 * k + i);
    }
  }

  /** Sectors laid end to end. */
  function Join(secs: seq<Sector>): (r: seq<Byte>)
    ensures |r| == 512 * |secs|
    ensures forall i :: 0 <= i < |r| ==> r[i] == secs[i / 512][i % 512]
  {
    seq(512 * |secs|, i requires 0 <= i < 512 * |secs| => secs[i / 512][i % 512])
  }

  /** The bytes of the file inside one sector. */
  lemma SectorSlice(g: Geometry, st: seq<Sector>, ch: seq<nat>, n: nat, p: nat, cnt: nat)
    requires p % 512 + cnt <= 512 && p + cnt <= n && SectAt(g, ch, p / 512) < |st|
    ensures FileBytes(g, st, ch, n)[p..p + cnt] == st[SectAt(g, ch, p / 512)][p % 512..p % 512 + cnt]
  {
    hide SectAt;
    var w: seq<Byte> := st[SectAt(g, ch, p / 512)];
    var a, b := FileBytes(g, st, ch, n)[p..p + cnt], w[p % 512..p % 512 + cnt];
    forall i | 0 <= i < cnt ensures a[i] == b[i] {
      assert (p + i) / 512 == p / 512 && (p + i) % 512 == p % 512 + i;
      assert a[i] == ByteAt(g, st, ch, p + i);
    }
  }

  /** Moving inside a sector, or over whole sectors of one cluster, stays in
      that cluster. */
  lemma StayInCluster(g: Geometry, p: nat, q: nat)
    requires g.csize > 0 && p < q
    requires p % 512 + (q - p) <= 512 ||
             (p % 512 == 0 && (q - p) % 512 == 0 && PlaceInCluster(g, p / 512) + (q - p) / 512 <= g.csize)
    ensures ClusterIndex(g, q) == ClusterNo(g, p)
    ensures q % 512 != 0 ==> q / 512 == p / 512
  {
    if p % 512 + (q - p) <= 512 {
      assert (q - 1) / 512 == p / 512;
    } else {
      var k, m := p / 512, (q - p) / 512;
      assert (q - 1) / 512 == k + (m - 1);
      DivBound(k, g.csize, 0);
      RemainderUnique(k + (m - 1), g.csize, k / g.csize, k % g.csize + (m - 1));
    }
  }

  /** Index in the chain of the cluster that holds byte `p`. */
  function ClusterNo(g: Geometry, p: nat): nat {
    if g.csize > 0 then p / 512 / g.csize else 0
  }

  /** Place of file sector `k` in its cluster. */
  function PlaceInCluster(g: Geometry, k: nat): nat {
    if g.csize > 0 then k % g.csize else 0
  }

  // ---- file offsets -------------------------------------------------------

  /** Index in the chain of the cluster that holds the byte before `p`. */
  function ClusterIndex(g: Geometry, p: nat): nat
    requires p > 0 && g.csize > 0
  {
    (p - 1) / 512 / g.csize
  }

  /** The code works in bytes per cluster, the layout in sectors. */
  lemma ByteIndex(g: Geometry, p: nat)
    requires PowerOfTwo(g.csize)
    ensures p / (512 * g.csize) == p / 512 / g.csize
    ensures p % (512 * g.csize) == 512 * (p / 512 % g.csize) + p % 512
  {
    var a, b := p / 512, p % 512;
    DivBound(a, g.csize, 0);
    assert 512 * (g.csize * (a / g.csize)) == (512 * g.csize) * (a / g.csize);
    RemainderUnique(p, 512 * g.csize, a / g.csize, 512 * (a % g.csize) + b);
  }

  /** On a sector boundary, the current cluster index steps exactly when the
      sector is the first of its cluster. */
  lemma BoundaryStep(g: Geometry, p: nat)
    requires g.csize > 0 && p > 0 && p % 512 == 0
    ensures PlaceInCluster(g, p / 512) == 0 ==> ClusterIndex(g, p) + 1 == ClusterNo(g, p)
    ensures PlaceInCluster(g, p / 512) != 0 ==> ClusterIndex(g, p) == ClusterNo(g, p)
  {
    var k, c := p / 512, g.csize;
    assert (p - 1) / 512 == k - 1;
    var q, r := k / c, k % c;
    DivBound(k, c, 0);
    if r == 0 {
      assert c * (q - 1) == c * q - c;
      RemainderUnique(k - 1, c, q - 1, c - 1);
    } else {
      RemainderUnique(k - 1, c, q, r - 1);
    }
  }

  /** Inside a sector, the byte before `p` is in the same sector. */
  lemma InsideSector(g: Geometry, p: nat)
    requires g.csize > 0 && p > 0 && p % 512 != 0
    ensures ClusterIndex(g, p) == ClusterNo(g, p)
  {
    assert (p - 1) / 512 == p / 512;
  }

  /** File offset at which cluster number `j` begins. */
  function ClusterTop(g: Geometry, j: nat): nat { g.ClusterBytes() * j }

  lemma NextTop(g: Geometry, j: nat, n: nat)
    ensures ClusterTop(g, 0) == 0
    ensures ClusterTop(g, j + 1) == ClusterTop(g, j) + g.ClusterBytes()
    ensures ClusterTop(g, j) + g.ClusterBytes() < ClusterTop(g, n) ==> j + 1 < n
  {
    assert g.ClusterBytes() * (j + 1) == g.ClusterBytes() * j + g.ClusterBytes();
    MulGap(g.ClusterBytes(), n, j + 1);
  }

  lemma WholeSectors(g: Geometry)
    ensures g.ClusterBytes() % 512 == 0
    ensures g.csize > 0 ==> g.ClusterBytes() >= 512
  {
  }

  lemma TopMonotone(g: Geometry, i: nat, j: nat)
    requires i <= j
    ensures ClusterTop(g, i) <= ClusterTop(g, j)
  {
    MulGap(g.ClusterBytes(), i, j);
  }

  lemma CapacityTop(g: Geometry, ch: seq<nat>)
    ensures 512 * Capacity(g, ch) == ClusterTop(g, |ch|)
  {
    assert 512 * (g.csize * |ch|) == (512 * g.csize) * |ch|;
  }

  /** A position `r` bytes into cluster number `j`, counted as the seek does:
      the end of a cluster still belongs to it. */
  lemma ClusterPosition(g: Geometry, ch: seq<nat>, j: nat, r: nat)
    requires g.csize > 0 && j < |ch| && 0 < r <= g.ClusterBytes()
    ensures ClusterIndex(g, ClusterTop(g, j) + r) == j
    ensures ClusterTop(g, j) + r <= 512 * Capacity(g, ch)
  {
    var c, p := g.csize, ClusterTop(g, j) + r;
    assert ClusterTop(g, j) == 512 * (c * j);
    RemainderUnique(p - 1, 512, c * j + (r - 1) / 512, (r - 1) % 512);
    RemainderUnique(c * j + (r - 1) / 512, c, j, (r - 1) / 512);
    MulGap(c, j, |ch|);
  }

  /** The sector that position is inside of. */
  lemma SectorPosition(g: Geometry, ch: seq<nat>, j: nat, r: nat)
    requires g.csize > 0 && j < |ch| && 0 < r <= g.ClusterBytes()
    ensures (ClusterTop(g, j) + r) % 512 == r % 512
    ensures r % 512 != 0 ==> SectAt(g, ch, (ClusterTop(g, j) + r) / 512) == g.ClusterSector(ch[j]) + r / 512
  {
    var c, p := g.csize, ClusterTop(g, j) + r;
    assert ClusterTop(g, j) == 512 * (c * j);
    RemainderUnique(p, 512, c * j + r / 512, r % 512);
    if r % 512 != 0 {
      RemainderUnique(c * j + r / 512, c, j, r / 512);
    }
  }

  /** The start of the cluster that holds the byte before `p`, by the code's mask. */
  lemma ClusterStart(g: Geometry, p: nat)
    requires PowerOfTwo(g.csize) && p > 0
    ensures BitAnd(p - 1, g.ClusterBytes() - 1) == (p - 1) % g.ClusterBytes()
    ensures p - 1 - (p - 1) % g.ClusterBytes() == ClusterTop(g, ClusterIndex(g, p))
    ensures (p - 1) / g.ClusterBytes() == ClusterIndex(g, p)
  {
    MaskBytes(g, p - 1);
    ByteIndex(g, p - 1);
    DivBound(p - 1, g.ClusterBytes(), 0);
  }

  lemma MaskBytes(g: Geometry, x: nat)
    requires PowerOfTwo(g.csize)
    ensures BitAnd(x, g.ClusterBytes() - 1) == x % g.ClusterBytes()
  {
    assert Pow2(2) == 4 && Pow2(4) == 16 && Pow2(6) == 64 && Pow2(8) == 256 && Pow2(9) == 512;
    assert Pow2(10) == 1024 && Pow2(11) == 2048 && Pow2(12) == 4096 && Pow2(13) == 8192;
    assert Pow2(14) == 16384 && Pow2(15) == 32768 && Pow2(16) == 65536;
    var c := g.csize;
    var k := if c == 1 then 9 else if c == 2 then 10 else if c == 4 then 11 else if c == 8 then 12
             else if c == 16 then 13 else if c == 32 then 14 else if c == 64 then 15 else 16;
    MaskIsRemainder(x, k);
  }

  /** Ordering of positions follows that of their clusters. */
  lemma ClusterIndexMonotone(g: Geometry, p: nat, q: nat)
    requires g.csize > 0 && 0 < p && 0 < q
    ensures ClusterIndex(g, p) < ClusterIndex(g, q) ==> p <= ClusterTop(g, ClusterIndex(g, q))
    ensures ClusterTop(g, ClusterIndex(g, p)) < p <= ClusterTop(g, ClusterIndex(g, p)) + g.ClusterBytes()
  {
    var c := g.csize;
    DivBound((p - 1) / 512, c, 0);
    var i, j := ClusterIndex(g, p), ClusterIndex(g, q);
    assert g.ClusterBytes() * i == 512 * (c * i) && g.ClusterBytes() * j == 512 * (c * j);
    MulGap(c, i, j);
  }

  /** Clusters a file of `n` bytes needs: the least number that holds them. */
  function ClustersFor(g: Geometry, n: nat): nat {
    if n == 0 || g.csize == 0 then 0 else ClusterIndex(g, n) + 1
  }

  lemma ClustersForLeast(g: Geometry, n: nat, m: nat)
    requires g.csize > 0
    ensures n <= 512 * (g.csize * m) <==> ClustersFor(g, n) <= m
  {
    var c := g.csize;
    if n > 0 {
      var i, k := ClusterIndex(g, n), (n - 1) / 512;
      DivBound(k, c, m);
      assert k < c * m <==> i < m;
      assert n <= 512 * (c * m) <==> k < c * m;
    } else {
      assert c * m >= 0;
    }
  }

  /** Where a seek from `from` to a byte in the same or a later cluster starts. */
  lemma SeekStart(g: Geometry, from: nat, ofs: nat)
    requires PowerOfTwo(g.csize) && from > 0 && ofs > 0
    requires (ofs - 1) / g.ClusterBytes() >= (from - 1) / g.ClusterBytes()
    ensures BitAnd(from - 1, g.ClusterBytes() - 1) < from
    ensures from - 1 - BitAnd(from - 1, g.ClusterBytes() - 1) == ClusterTop(g, ClusterIndex(g, from)) < ofs
  {
    hide BitAnd, ClusterTop, ClusterIndex;
    ClusterStart(g, from);
    ClusterStart(g, ofs);
    TopMonotone(g, ClusterIndex(g, from), ClusterIndex(g, ofs));
    ClusterIndexMonotone(g, ofs, ofs);
  }

  // ---- where the bytes are ----------------------------------------------------------

  /** What cluster `c` holds: cluster 2 is first in the data area, and the others
      follow one another. */
  ghost function ClusterData(g: Geometry, st: seq<Sector>, c: nat): (d: seq<Byte>)
    requires c >= 2 && g.database + g.csize * (c - 2) + g.csize <= |st|
    ensures |d| == 512 * g.csize
  {
    var s := g.database + g.csize * (c - 2);
    Join(st[s..s + g.csize])
  }

  /** The clusters are among the sectors of `st`. */
  ghost predicate OnDrive(g: Geometry, st: seq<Sector>, ch: seq<nat>) {
    forall i :: 0 <= i < |ch| ==> ch[i] >= 2 && g.database + g.csize * (ch[i] - 2) + g.csize <= |st|
  }

  /** The clusters of a chain laid end to end. */
  ghost function ChainData(g: Geometry, st: seq<Sector>, ch: seq<nat>): (d: seq<Byte>)
    requires OnDrive(g, st, ch)
    ensures |d| == 512 * (g.csize * |ch|)
  {
    if ch == [] then []
    else
      assert g.csize * |ch| == g.csize + g.csize * (|ch| - 1);
      ClusterData(g, st, ch[0]) + ChainData(g, st, ch[1..])
  }

  lemma ChainOnDrive(g: Geometry, st: seq<Sector>, ch: seq<nat>)
    requires g.WellFormed() && AllClusters(g, ch) && |st| == g.total
    ensures OnDrive(g, st, ch)
  {
    forall i | 0 <= i < |ch| ensures ch[i] >= 2 && g.database + g.csize * (ch[i] - 2) + g.csize <= |st| {
      g.ClusterEnds(ch[i]);
    }
  }

  lemma {:induction false} ChainByte(g: Geometry, st: seq<Sector>, ch: seq<nat>, i: nat)
    requires g.WellFormed() && AllClusters(g, ch) && |st| == g.total && i < 512 * (g.csize * |ch|)
    requires OnDrive(g, st, ch)
    ensures ChainData(g, st, ch)[i] == ByteAt(g, st, ch, i)
    decreases |ch|
  {
    hide Geometry.WellFormed, ByteAt, ClusterData;
    g.Bounds();
    MulAdd(g.csize, 1, |ch| - 1);
    if i < 512 * g.csize {
      HeadByte(g, st, ch, i);
    } else {
      ChainByte(g, st, ch[1..], i - 512 * g.csize);
      TailByte(g, st, ch, i);
    }
  }

  lemma HeadByte(g: Geometry, st: seq<Sector>, ch: seq<nat>, i: nat)
    requires g.WellFormed() && AllClusters(g, ch) && |st| == g.total && ch != [] && i < 512 * g.csize
    requires ch[0] >= 2 && g.database + g.csize * (ch[0] - 2) + g.csize <= |st|
    ensures ClusterData(g, st, ch[0])[i] == ByteAt(g, st, ch, i)
  {
    g.DataOrder(ch[0]);
    hide Geometry.WellFormed, Geometry.ClusterSector;
    RemainderUnique(i / 512, g.csize, 0, i / 512);
    var s := g.database + g.csize * (ch[0] - 2);
    assert st[s..s + g.csize][i / 512] == st[s + i / 512];
  }

  lemma TailByte(g: Geometry, st: seq<Sector>, ch: seq<nat>, i: nat)
    requires g.csize > 0 && i >= 512 * g.csize && ch != []
    ensures ByteAt(g, st, ch, i) == ByteAt(g, st, ch[1..], i - 512 * g.csize)
  {
    hide Geometry.ClusterSector;
    var c, k := g.csize, i / 512;
    var j: nat := i - 512 * c;
    assert j / 512 == k - c && j % 512 == i % 512;
    DivBound(k, c, 1);
    DivBound(k, c, 0);
    MulAdd(c, k / c, -1);
    RemainderUnique(k - c, c, k / c - 1, k % c);
  }

  /** A file is the first bytes of its clusters, laid end to end. */
  lemma FileIsClusters(g: Geometry, st: seq<Sector>, ch: seq<nat>, n: nat)
    requires g.WellFormed() && AllClusters(g, ch) && |st| == g.total && n <= 512 * (g.csize * |ch|)
    ensures OnDrive(g, st, ch)
    ensures FileBytes(g, st, ch, n) == ChainData(g, st, ch)[..n]
  {
    hide Geometry.WellFormed, ByteAt;
    ChainOnDrive(g, st, ch);
    forall i | 0 <= i < n ensures ChainData(g, st, ch)[i] == ByteAt(g, st, ch, i) { ChainByte(g, st, ch, i); }
  }

  /** `m` clusters from `c` on. */
  function Consecutive(c: nat, m: nat): (ch: seq<nat>)
    ensures |ch| == m && forall i :: 0 <= i < m ==> ch[i] == c + i
  {
    seq(m, i => c + i)
  }

  /** A file in consecutive clusters is one slice of the drive. */
  lemma ConsecutiveFile(g: Geometry, st: seq<Sector>, c: nat, m: nat, n: nat)
    requires g.WellFormed() && |st| == g.total && 2 <= c && c + m <= g.nFatent && n <= 512 * (g.csize * m)
    ensures g.database + g.csize * (c - 2) + g.csize * m <= |st|
    ensures var s := g.database + g.csize * (c - 2);
            FileBytes(g, st, Consecutive(c, m), n) == Join(st[s..s + g.csize * m])[..n]
  {
    RunOnDrive(g, c, m);
    hide Geometry.WellFormed, SectAt;
    var ch, s := Consecutive(c, m), g.database + g.csize * (c - 2);
    var run := st[s..s + g.csize * m];
    forall i | 0 <= i < n ensures ByteAt(g, st, ch, i) == Join(run)[i] {
      ConsecutiveSector(g, c, m, i / 512);
      assert run[i / 512] == st[s + i / 512];
    }
  }

  lemma RunOnDrive(g: Geometry, c: nat, m: nat)
    requires g.WellFormed() && 2 <= c && c + m <= g.nFatent
    ensures g.database + g.csize * (c - 2) + g.csize * m <= g.total
    ensures g.csize * (c - 2) >= 0 && g.csize * m >= 0
  {
    hide PowerOfTwo;
    MulAdd(g.csize, c - 2, m);
    MulGap(g.csize, c - 2 + m, g.nFatent - 2);
    MulGap(g.csize, 0, c - 2);
    MulGap(g.csize, 0, m);
  }

  lemma ConsecutiveSector(g: Geometry, c: nat, m: nat, k: nat)
    requires g.WellFormed() && 2 <= c && c + m <= g.nFatent && k < g.csize * m
    ensures SectAt(g, Consecutive(c, m), k) == g.database + g.csize * (c - 2) + k
  {
    hide Geometry.WellFormed, Geometry.ClusterSector, SectAt;
    g.Bounds();
    SectOfRun(g, c, m, k);
    g.DataOrder(c + k / g.csize);
    StepOver(g.csize, c - 2, k);
    assert c + k / g.csize - 2 == c - 2 + k / g.csize;
  }

  lemma SectOfRun(g: Geometry, c: nat, m: nat, k: nat)
    requires g.csize > 0 && 2 <= c && c + m <= g.nFatent && k < g.csize * m
    ensures g.IsCluster(c + k / g.csize)
    ensures SectAt(g, Consecutive(c, m), k) == g.ClusterSector(c + k / g.csize) + k % g.csize
  {
    hide Geometry.ClusterSector;
    DivBound(k, g.csize, m);
  }

  lemma StepOver(d: nat, a: int, k: nat)
    requires d > 0
    ensures d * (a + k / d) + k % d == d * a + k
  {
    DivBound(k, d, 0);
    MulAdd(d, a, k / d);
  }
}
