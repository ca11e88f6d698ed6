/** Whole runs: any sequence of lookups, creations and removals in a directory
    behaves as a map from names to entries; files and directories leave each
    other alone. */
module DirRuns {
  import opened Bytes
  import opened Layout
  import opened Chains
  import opened FatCodec
  import opened Volumes
  import opened FileData
  import opened DirWalk
  import opened DirTables
  import opened DirData
  import opened Directories
  import FileObjects

  datatype Op = Lookup(name: Name) | Create(name: Name) | Unlink(name: Name)

  datatype Reply = Reply(res: FResult, attr: nat)

  type Names = map<seq<Byte>, Record>

  /** One call on the map, which holds at most `limit` names. */
  ghost predicate MapStep(limit: int, a: Names, op: Op, r: Reply, b: Names) {
    match op
    case Lookup(n) => b == a && if n in a then r == Reply(Ok, a[n][11] as int % 64) else r.res.NoFile?
    case Create(n) =>
      if n in a then r.res.Exist? && b == a
      else if |a| < limit then r.res.Ok? && b == a[n := Fresh(n)]
      else r.res.Denied? && b == a
    case Unlink(n) => if n in a then r.res.Ok? && b == a - {n} else r.res.NoFile? && b == a
  }

  /** Each call has its own limit, for the volume may wrongly believe to be full. */
  ghost predicate MapRun(limits: seq<int>, states: seq<Names>, ops: seq<Op>, replies: seq<Reply>) {
    && |states| == |ops| + 1 && |replies| == |limits| == |ops|
    && forall i :: 0 <= i < |ops| ==> MapStep(limits[i], states[i], ops[i], replies[i], states[i + 1])
  }

  /** Names a directory can hold: its entries once it has every free cluster, less
      those that are no files. */
  ghost function Most(g: Geometry, rs: seq<Record>, ch: seq<nat>, pool: set<nat>): int {
    MostSlots(g, ch, pool) - Others(rs)
  }

  /** The directory's names, when its table is in order. */
  ghost predicate Shows(rs: seq<Record>, m: Names) { Orderly(rs) && Listing(rs) == m }

  /** Registering a missing name, in the table or in a grown one. */
  lemma RegisterMeans(rs: seq<Record>, z: nat, n: Name, m: Names)
    requires Shows(rs, m) && n !in m && z > 0
    ensures Shows(Registered(rs, z, n), m[n := Fresh(n)])
  {
    hide Listing, Tidy, Unique, Vacant;
    if Vacant(rs, 0) == |rs| { StretchKeeps(rs, z); }
    RegisterInserts(if Vacant(rs, 0) < |rs| then rs else rs + Blanks(z), n);
  }

  lemma EraseMeans(rs: seq<Record>, n: Name, m: Names)
    requires Shows(rs, m) && n in m
    ensures Shows(Unlinked(rs, n), m - {n})
  {
    hide Listing, Tidy, Unique, Find;
    FindMeans(rs, n);
    var k := Find(rs, n, 0);
    HitLives(rs[k], n);
    EraseRemoves(rs, k);
  }

  /** After a registration the name is found, in the entry registered; after a
      removal it is not; and no other name's answer changes. */
  lemma AnswersAfter(rs: seq<Record>, z: nat, n: Name, other: Name, m: Names)
    requires Shows(rs, m) && z > 0 && other != n
    ensures n !in m ==>
              var ps := Registered(rs, z, n);
              && Find(ps, n, 0) < |ps| && ps[Find(ps, n, 0)] == Fresh(n)
              && (Find(ps, other, 0) < |ps| <==> Find(rs, other, 0) < |rs|)
    ensures n in m ==>
              var ps := Unlinked(rs, n);
              && Find(ps, n, 0) == |ps|
              && (Find(ps, other, 0) < |ps| <==> Find(rs, other, 0) < |rs|)
  {
    hide Listing, Tidy, Unique, Registered, Unlinked, Find, Fresh;
    FindMeans(rs, other);
    var ps := if n in m then Unlinked(rs, n) else Registered(rs, z, n);
    if n in m { EraseMeans(rs, n, m); } else { RegisterMeans(rs, z, n, m); }
    FindMeans(ps, n);
    FindMeans(ps, other);
  }

  /** The call ended without an error of the drive or the FAT. */
  predicate Worked(r: Reply) { !r.res.DiskErr? && !r.res.IntErr? }

  /** Everything a call that worked keeps, and the limit it worked under: with a
      right free count the number of names the directory can hold, else perhaps
      the number it has. */
  twostate predicate Outcome(d: Directory, op: Op, m: Names, r: Reply, b: Names, limit: int)
    reads d, d.fs, d.fs.win
    requires old(d.fs.Valid()) && d.fs.Valid()
  {
    && Shows(d.List(), b) && MapStep(limit, m, op, r, b)
    && (limit == Most(d.fs.geo, d.List(), d.chain, d.Pool()) || (limit == |m| && !old(d.fs.CountOk())))
    && Most(d.fs.geo, d.List(), d.chain, d.Pool()) == old(Most(d.fs.geo, d.List(), d.chain, d.Pool()))
    && (old(d.fs.CountOk()) ==> d.fs.CountOk()) && d.Pool() == old(d.Pool()) && (d.chain == [] <==> old(d.chain) == [])
    && Undisturbed(d.fs.geo, d.Pool(), old(d.chain), old(d.fs.Store()), old(d.fs.Table()), d.fs.Store(), d.fs.Table())
  }

  /** One call on the real directory. An internal error means a corrupt FAT entry,
      and then nothing has changed. */
  method Call(d: Directory, op: Op, ghost m: Names) returns (r: Reply, ghost b: Names, ghost limit: int)
    requires d.fs.Valid() && d.Valid() && Shows(d.List(), m)
    modifies d, d.fs, d.fs.win
    ensures d.fs.Valid() && d.fs.faults >= old(d.fs.faults)
    ensures r.res.DiskErr? ==> d.fs.faults > old(d.fs.faults)
    ensures r.res.IntErr? ==>
              d.Valid() && Shows(d.List(), m) && d.fs.Table() == old(d.fs.Table()) && Corrupt(d.fs.Table())
    ensures Worked(r) ==> d.Valid() && Outcome(d, op, m, r, b, limit)
  {
    hide Volume.Valid, Volume.Fat, Volume.Store, Entries, DirOf, Slots, Records, FreeSet, Shows, Undisturbed;
    hide CountRight;
    hide Vacant, DirTables.Find, Fresh, Elems, MostSlots, Others;
    d.Facts();
    NothingDisturbed(d.fs.geo, d.Pool(), d.chain, d.fs.Store(), d.fs.Table());
    LookupMeans(d.List(), op.name, m);
    d.fn := op.name;
    b, limit := m, Most(d.fs.geo, d.List(), d.chain, d.Pool());
    var res := d.Find();
    match op {
      case Lookup(_) =>
      case Create(_) => if res.Ok? { res := Exist; } else if res.NoFile? { res, b, limit := Insert(d, m); }
      case Unlink(_) => if res.Ok? { res, b := Delete(d, m); }
    }
    r := Reply(res, d.attr);
  }

  method Insert(d: Directory, ghost m: Names) returns (res: FResult, ghost b: Names, ghost limit: int)
    requires d.fs.Valid() && d.Valid() && Shows(d.List(), m) && d.fn !in m
    modifies d`dptr, d`clust, d`sect, d`chain, d.fs, d.fs.win
    ensures d.fs.Valid() && d.fs.faults >= old(d.fs.faults)
    ensures res.DiskErr? ==> d.fs.faults > old(d.fs.faults)
    ensures res.IntErr? ==>
              d.Valid() && Shows(d.List(), m) && d.fs.Table() == old(d.fs.Table()) && Corrupt(d.fs.Table())
    ensures Worked(Reply(res, 0)) ==> d.Valid() && Outcome(d, Create(d.fn), m, Reply(res, 0), b, limit)
  {
    hide Volume.Valid, Volume.Fat, Volume.Store, Entries, DirOf, Slots, Records, FreeSet, Shows, Undisturbed;
    hide CountRight, CanGrow;
    hide Vacant, Fresh, Registered, Hit, Elems, MostSlots, Others, OnlyGrown;
    d.Facts();
    d.fs.GeoFacts();
    ghost var rs, ch, t, free, z := d.List(), d.chain, d.fs.Table(), d.fs.freeClst, 16 * d.fs.geo.csize;
    RegisterMeans(rs, z, d.fn, m);
    OthersRegistered(rs, z, d.fn);
    NamesInUse(rs, m);
    WithinMost(d.fs.geo, t, d.sclust, ch, d.Pool());
    NoneFreeRight(t, free);
    b := m;
    res := d.Register();
    limit := old(Most(d.fs.geo, d.List(), d.chain, d.Pool()));
    if !res.DiskErr? {
      d.Facts();
      StaticStays(d.fs.geo, t, d.fs.Table(), d.sclust, ch, d.chain);
      MostStays(d.fs.geo, ch, d.chain, d.Pool(), rs, d.List());
    }
    if res.Ok? {
      b := m[d.fn := Fresh(d.fn)];
      NamesInUse(d.List(), b);
      WithinMost(d.fs.geo, d.fs.Table(), d.sclust, d.chain, d.Pool());
    } else if res.Denied? && |m| < limit {
      limit := |m|;
    }
  }

  /** A table's names and other entries together fill it when none is free. */
  lemma NamesInUse(rs: seq<Record>, m: Names)
    requires Shows(rs, m)
    ensures |m| + Others(rs) <= |rs|
    ensures Vacant(rs, 0) == |rs| ==> |m| + Others(rs) == |rs|
  {
    hide Listing, Tidy, Unique, Others, Lives, IsVacant;
    ListingSize(rs);
    InUse(rs);
  }

  lemma NoneFreeRight(t: Table, free: nat)
    requires |t| >= 3
    ensures CountRight(t, free) && free == 0 ==> FreeSet(t) == {}
  {
  }

  lemma MostStays(g: Geometry, ch: seq<nat>, dh: seq<nat>, pool: set<nat>, rs: seq<Record>, qs: seq<Record>)
    requires (ch == [] <==> dh == []) && Others(rs) == Others(qs)
    ensures Most(g, rs, ch, pool) == Most(g, qs, dh, pool)
  {
  }

  method Delete(d: Directory, ghost m: Names) returns (res: FResult, ghost b: Names)
    requires d.Valid() && Shows(d.List(), m) && d.fn in m && d.At(DirTables.Find(d.List(), d.fn, 0))
    modifies d.fs, d.fs.win
    ensures d.Valid() && d.fs.Valid() && d.fs.faults >= old(d.fs.faults)
    ensures d.fs.Fat() == old(d.fs.Fat()) && d.fs.freeClst == old(d.fs.freeClst)
    ensures if res.Ok? then b == m - {d.fn} else res.DiskErr? && d.fs.faults > old(d.fs.faults) && b == m
    ensures Shows(d.List(), b) && Others(d.List()) == old(Others(d.List()))
    ensures Undisturbed(d.fs.geo, d.Pool(), d.chain, old(d.fs.Store()), d.fs.Table(), d.fs.Store(), d.fs.Table())
  {
    hide Volume.Valid, Volume.Fat, Volume.Store, Entries, DirOf, Slots, Records, FreeSet, Shows, Undisturbed, Others;
    hide DirTables.Find, Erased;
    d.Facts();
    LookupMeans(d.List(), d.fn, m);
    EraseMeans(d.List(), d.fn, m);
    OthersUnlinked(d.List(), d.fn);
    b := m;
    res := d.Remove(DirTables.Find(d.List(), d.fn, 0));
    if res.Ok? { b := m - {d.fn}; }
  }

  lemma LookupMeans(rs: seq<Record>, n: Name, m: Names)
    requires Shows(rs, m)
    ensures Find(rs, n, 0) < |rs| <==> n in m
    ensures n in m ==> rs[Find(rs, n, 0)] == m[n]
  {
    FindMeans(rs, n);
  }

  /** Any run: the calls made before a failure, and all of them when the drive
      works and the FAT is sound, are a run of the map from the first names. With
      a right free count, its limit is the same all along. */
  method Run(d: Directory, ops: seq<Op>, ghost m: Names)
    returns (ghost limits: seq<int>, ghost states: seq<Names>, replies: seq<Reply>, ok: bool)
    requires d.fs.Valid() && d.Valid() && Shows(d.List(), m)
    modifies d, d.fs, d.fs.win
    ensures d.fs.Valid() && d.fs.faults >= old(d.fs.faults)
    ensures |replies| <= |ops| && (ok ==> |replies| == |ops|)
    ensures MapRun(limits, states, ops[..|replies|], replies)
    ensures states[0] == m
    ensures old(d.fs.CountOk()) ==>
              forall i :: 0 <= i < |limits| ==> limits[i] == old(Most(d.fs.geo, d.List(), d.chain, d.Pool()))
    ensures ok ==> d.Valid() && Shows(d.List(), states[|ops|]) && (old(d.fs.CountOk()) ==> d.fs.CountOk())
    ensures ok ==>
              Undisturbed(d.fs.geo, d.Pool(), old(d.chain), old(d.fs.Store()), old(d.fs.Table()),
                          d.fs.Store(), d.fs.Table())
    ensures !ok ==> d.fs.faults > old(d.fs.faults) || Corrupt(d.fs.Table())
  {
    hide Volume.Valid, Volume.Fat, Volume.Store, Records, Shows, MapStep, Directory.Valid, Undisturbed;
    hide CountRight, Most, Corrupt;
    d.Facts();
    limits, states, replies, ok := [], [m], [], true;
    ghost var ch, st, t := d.chain, d.fs.Store(), d.fs.Table();
    NothingDisturbed(d.fs.geo, d.Pool(), ch, st, t);
    for i := 0 to |ops|
      invariant d.Valid() && d.fs.Valid() && d.fs.faults >= old(d.fs.faults)
      invariant |replies| == |limits| == i && ok
      invariant MapRun(limits, states, ops[..i], replies) && states[0] == m && Shows(d.List(), states[i])
      invariant d.Pool() == old(d.Pool()) && (d.chain == [] <==> ch == [])
      invariant Most(d.fs.geo, d.List(), d.chain, d.Pool()) == old(Most(d.fs.geo, d.List(), d.chain, d.Pool()))
      invariant old(d.fs.CountOk()) ==>
                  d.fs.CountOk() &&
                  forall k :: 0 <= k < i ==> limits[k] == old(Most(d.fs.geo, d.List(), d.chain, d.Pool()))
      invariant Undisturbed(d.fs.geo, d.Pool(), ch, st, t, d.fs.Store(), d.fs.Table())
    {
      ghost var b, limit, dh, su, u := m, 0, d.chain, d.fs.Store(), d.fs.Table();
      var r;
      r, b, limit := Call(d, ops[i], states[i]);
      if r.res.DiskErr? || r.res.IntErr? {
        ok := false;
        return;
      }
      UndisturbedChain(d.fs.geo, d.Pool(), ch, dh, st, t, su, u, d.fs.Store(), d.fs.Table());
      RunStep(limits, limit, states, ops, i, replies, r, b);
      limits, states := limits + [limit], states + [b];
      replies := replies + [r];
    }
    assert ops[..|ops|] == ops;
  }

  lemma UndisturbedChain(g: Geometry, pool: set<nat>, ch: seq<nat>, dh: seq<nat>, st: seq<Sector>, t: Table,
                         su: seq<Sector>, u: Table, sv: seq<Sector>, v: Table)
    requires Undisturbed(g, pool, ch, st, t, su, u) && Undisturbed(g, pool, dh, su, u, sv, v)
    requires ch == [] <==> dh == []
    ensures Undisturbed(g, pool, ch, st, t, sv, v)
  {
    hide Geometry.ClearOf;
  }

  lemma RunStep(limits: seq<int>, limit: int, states: seq<Names>, ops: seq<Op>, i: nat, replies: seq<Reply>,
                r: Reply, b: Names)
    requires i < |ops| && MapRun(limits, states, ops[..i], replies) && MapStep(limit, states[i], ops[i], r, b)
    ensures MapRun(limits + [limit], states + [b], ops[..i + 1], replies + [r])
  {
    hide MapStep;
    var l, s, q := limits + [limit], states + [b], replies + [r];
    forall k | 0 <= k < i + 1 ensures MapStep(l[k], s[k], ops[..i + 1][k], q[k], s[k + 1]) {
      if k < i { assert MapStep(limits[k], states[k], ops[..i][k], replies[k], states[k + 1]); }
    }
  }

  // ---- files and directories side by side ------------------------------------------

  /** A directory call leaves every file's chain and bytes alone. */
  lemma FilesKept(g: Geometry, pool: set<nat>, ch: seq<nat>, st: seq<Sector>, t: Table, su: seq<Sector>, u: Table,
                  file: seq<nat>, n: nat)
    requires g.WellFormed() && |t| == g.nFatent && |st| == g.total && Undisturbed(g, pool, ch, st, t, su, u)
    requires IsChain(t, file) && Elems(file) !! pool && n <= 512 * Capacity(g, file)
    ensures IsChain(u, file) && FileBytes(g, su, file, n) == FileBytes(g, st, file, n)
  {
    hide Geometry.WellFormed, Geometry.InCluster, SectAt, FileBytes, Capacity, Apart;
    assert forall c :: c in file ==> c in Elems(file);
    ChainKept(t, u, file);
    assert AllClusters(g, file);
    hide IsChain, AllClusters;
    forall k | 0 <= k < Capacity(g, file) && SectAt(g, file, k) < |st|
      ensures su[SectAt(g, file, k)] == st[SectAt(g, file, k)]
    {
      SectInCluster(g, file, k);
      ClusterApart(g, pool, ch, file[k / g.csize], SectAt(g, file, k));
    }
    BytesSame(g, st, su, file, n);
  }

  lemma ClusterApart(g: Geometry, pool: set<nat>, ch: seq<nat>, c: nat, s: nat)
    requires g.WellFormed() && g.InCluster(c, s) && c !in pool
    ensures Apart(g, pool, ch, s)
  {
    hide Geometry.WellFormed, Geometry.InCluster;
    g.ClusterInData(c, s);
    forall d | d in pool ensures !g.InCluster(d, s) {
      if g.InCluster(d, s) { g.ClustersDisjoint(c, d, s); }
    }
  }

  /** A sector of a directory is none of the clusters a file could touch. */
  lemma DirSectClear(g: Geometry, t: Table, sclust: nat, ch: seq<nat>, pool: set<nat>, i: nat)
    requires g.WellFormed() && |t| == g.nFatent && DirOf(g, t, sclust, ch) && Elems(ch) !! pool && i < Slots(g, ch)
    ensures DirSect(g, ch, i / 16) < g.total && g.ClearOf(pool, DirSect(g, ch, i / 16))
  {
    hide Geometry.WellFormed, Geometry.InCluster, SectAt, Slots;
    SpotInTable(g, t, sclust, ch, i);
    var s := DirSect(g, ch, i / 16);
    if ch != [] {
      assert forall c :: c in ch ==> c in Elems(ch);
      SectInCluster(g, ch, i / 16);
      ClusterApart(g, pool, ch, ch[i / 16 / g.csize], s);
    } else {
      RootIs(g, sclust);
      RootSector(g, i);
      RootClear(g, pool, s);
    }
  }

  /** Any run of calls on a file, syncs included, leaves a directory's table in
      place, and of its entries changes at most the file's own one. */
  lemma EntriesKept(g: Geometry, pool: set<nat>, ds: nat, o: nat, st: seq<Sector>, t: Table, su: seq<Sector>, u: Table,
                    sclust: nat, ch: seq<nat>)
    requires g.WellFormed() && |t| == g.nFatent && |st| == g.total
    requires FileObjects.KeptBut(g, pool, ds, o, st, t, su, u)
    requires DirOf(g, t, sclust, ch) && Elems(ch) !! pool && o % ENTRY == 0
    ensures DirOf(g, u, sclust, ch)
    ensures forall i :: 0 <= i < Slots(g, ch) && !(DirSect(g, ch, i / 16) == ds && ENTRY * (i % 16) == o) ==>
              Records(g, su, ch)[i] == Records(g, st, ch)[i]
  {
    hide Geometry.WellFormed, Geometry.InCluster, Geometry.ClearOf, SectAt, Slots, DirSect, EntryIn;
    hide FileObjects.SameButEntry;
    assert forall c :: c in ch ==> c in Elems(ch);
    if ch != [] { ChainKept(t, u, ch); }
    forall i | 0 <= i < Slots(g, ch) && !(DirSect(g, ch, i / 16) == ds && ENTRY * (i % 16) == o)
      ensures Records(g, su, ch)[i] == Records(g, st, ch)[i]
    {
      DirSectClear(g, t, sclust, ch, pool, i);
      if DirSect(g, ch, i / 16) == ds { NeighbourKept(st[ds], su[ds], o, i); }
    }
  }

  lemma NeighbourKept(e: Sector, r: Sector, o: nat, i: nat)
    requires FileObjects.SameButEntry(e, r, o) && o % ENTRY == 0 && ENTRY * (i % 16) != o
    ensures EntryIn(r, i) == EntryIn(e, i)
  {
  }

  /** The file's own entry keeps its name and kind: the directory stays in order
      and has the same names, and only this name's entry may differ. */
  lemma OwnEntryKept(g: Geometry, pool: set<nat>, st: seq<Sector>, t: Table, su: seq<Sector>, u: Table,
                     sclust: nat, ch: seq<nat>, i: nat, m: Names)
    requires g.WellFormed() && |t| == g.nFatent && |st| == g.total && DirOf(g, t, sclust, ch) && Elems(ch) !! pool
    requires i < Slots(g, ch) && Live(Records(g, st, ch)[i]) && Shows(Records(g, st, ch), m)
    requires FileObjects.KeptBut(g, pool, DirSect(g, ch, i / 16), ENTRY * (i % 16), st, t, su, u)
    ensures var n, r := Records(g, st, ch)[i][..11], Records(g, su, ch)[i];
            && n in m && r[..11] == n && Live(r) && r[12..18] == Records(g, st, ch)[i][12..18]
            && (r[11] == Records(g, st, ch)[i][11] || r[11] == FileObjects.Archived(Records(g, st, ch)[i][11]))
            && Records(g, su, ch) == Records(g, st, ch)[i := r] && Shows(Records(g, su, ch), m[n := r])
  {
    hide Geometry.WellFormed, Geometry.ClearOf, SectAt, DirSect, EntryIn, Shows, Live, Slots, FileObjects.SameButEntry;
    var rs, qs := Records(g, st, ch), Records(g, su, ch);
    EntriesKept(g, pool, DirSect(g, ch, i / 16), ENTRY * (i % 16), st, t, su, u, sclust, ch);
    DirSectClear(g, t, sclust, ch, pool, i);
    OwnEntry(st[DirSect(g, ch, i / 16)], su[DirSect(g, ch, i / 16)], i);
    forall j | 0 <= j < |rs| && j != i ensures qs[j] == rs[j] {
      if DirSect(g, ch, j / 16) == DirSect(g, ch, i / 16) && j % 16 == i % 16 { SpotInjective(g, t, sclust, ch, i, j); }
    }
    assert qs == rs[i := qs[i]];
    ReplaceMeans(rs, i, qs[i], m);
  }

  lemma ReplaceMeans(rs: seq<Record>, i: nat, r: Record, m: Names)
    requires Shows(rs, m) && i < |rs| && Live(rs[i]) && Live(r) && r[..11] == rs[i][..11]
    ensures r[..11] in m && Shows(rs[i := r], m[r[..11] := r])
  {
    hide Tidy, Live;
    ReplaceKeeps(rs, i, r);
  }

  lemma OwnEntry(e: Sector, r: Sector, i: nat)
    requires FileObjects.SameButEntry(e, r, ENTRY * (i % 16))
    ensures EntryIn(r, i)[..11] == EntryIn(e, i)[..11]
    ensures EntryIn(r, i)[12..18] == EntryIn(e, i)[12..18]
    ensures var a, b := EntryIn(e, i)[11], EntryIn(r, i)[11]; b == a || b == FileObjects.Archived(a)
    ensures Live(EntryIn(r, i)) == Live(EntryIn(e, i))
  {
    hide EntryIn;
    var x, y := EntryIn(e, i), EntryIn(r, i);
    forall k | 0 <= k < 18 && k != 11 ensures y[k] == x[k] {
      EntryByte(e, i, k);
      EntryByte(r, i, k);
    }
    EntryByte(e, i, 11);
    EntryByte(r, i, 11);
    KindBit(x[11], y[11]);
  }

  lemma EntryByte(w: Sector, i: nat, k: nat)
    requires k < ENTRY
    ensures EntryIn(w, i)[k] == w[ENTRY * (i % 16) + k]
  {
  }

  lemma KindBit(a: Byte, b: Byte)
    requires a as int % 32 == b as int % 32
    ensures a as int / 8 % 2 == b as int / 8 % 2
  {
    ThirdBit(a);
    ThirdBit(b);
  }

  lemma ThirdBit(a: nat)
    ensures a / 8 % 2 == a % 32 / 8 % 2
  {
    var q, r := a / 32, a % 32;
    assert a == 8 * (4 * q + r / 8) + r % 8;
    RemainderUnique(a, 8, 4 * q + r / 8, r % 8);
    assert 4 * q + r / 8 == 2 * (2 * q + r / 8 / 2) + r / 8 % 2;
    RemainderUnique(4 * q + r / 8, 2, 2 * q + r / 8 / 2, r / 8 % 2);
  }

  lemma RootClear(g: Geometry, pool: set<nat>, s: nat)
    requires g.WellFormed() && s < g.database
    ensures g.ClearOf(pool, s)
  {
    hide Geometry.WellFormed, Geometry.InCluster;
    forall d | d in pool ensures !g.InCluster(d, s) {
      if g.InCluster(d, s) { g.ClusterInData(d, s); }
    }
  }
}
