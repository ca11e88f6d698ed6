/** The allocator over whole runs: every successful request keeps the FAT a set
    of disjoint, acyclic, terminated chains, and the free count right. */
module Allocation {
  import opened Bytes
  import opened FatCodec
  import opened Chains
  import opened Volumes

  /** Chains `cs` are all there is in the FAT, and the free count is right. */
  ghost predicate Sound(v: Volume, cs: seq<seq<nat>>)
    reads v, v.win
  {
    && v.Valid()
    && Forest(v.Table(), cs) && Accounted(v.Table(), cs)
    && v.CountOk()
  }

  /** Chains after a request for the cluster behind `clst`, which ends or lies
      in chain `k`, or 0 for a new chain; `r` is the reply. */
  function Requested(cs: seq<seq<nat>>, k: nat, clst: nat, r: nat): (ds: seq<seq<nat>>) {
    if r < 2 then cs
    else if clst == 0 then cs + [[r]]
    else if k < |cs| && |cs[k]| > 0 && clst == cs[k][|cs[k]| - 1] then cs[k := cs[k] + [r]]
    else cs
  }

  lemma RequestKeepsForest(t: Table, eoc: nat, free: nat, last: nat, cs: seq<seq<nat>>, k: nat, clst: nat)
    requires |t| >= 3 && eoc >= |t| && Forest(t, cs) && Accounted(t, cs)
    requires clst == 0 || (k < |cs| && clst in cs[k])
    ensures var r, u := CreateReply(t, free, last, clst), CreateTable(t, eoc, free, last, clst);
            var ds := Requested(cs, k, clst, r);
            && Forest(u, ds) && Accounted(u, ds)
            && (forall i :: 0 <= i < |cs| ==> i < |ds| && cs[i] <= ds[i])
            && TotalLength(ds) == TotalLength(cs) + if Allocates(t, free, last, clst) then 1 else 0
  {
    hide Forest, Accounted, IsChain, Pick, FreeSet;
    var r, u := CreateReply(t, free, last, clst), CreateTable(t, eoc, free, last, clst);
    var ds := Requested(cs, k, clst, r);
    if clst != 0 { LastOrInside(t, cs, k, clst); }
    PickSound(t, clst, last);
    if Allocates(t, free, last, clst) { GrownFree(t, eoc, r, clst); }
    if clst == 0 {
      if r >= 2 { ForestCreate(t, eoc, cs, r); }
    } else {
      if Allocates(t, free, last, clst) {
        ForestStretch(t, eoc, cs, k, r);
        AccountedStretch(t, eoc, cs, k, r);
      }
    }
    Lengths(t, u, cs, ds);
  }

  /** A cluster of a chain either ends it or links to a cluster. */
  lemma LastOrInside(t: Table, cs: seq<seq<nat>>, k: nat, clst: nat)
    requires Forest(t, cs) && k < |cs| && clst in cs[k]
    ensures |cs[k]| > 0 && 2 <= clst < |t|
    ensures if clst == cs[k][|cs[k]| - 1] then t[clst] >= |t| else 2 <= t[clst] < |t|
  {
    var i :| 0 <= i < |cs[k]| && cs[k][i] == clst;
    if i < |cs[k]| - 1 {
      assert t[cs[k][i]] == cs[k][i + 1];
      assert cs[k][i] != cs[k][|cs[k]| - 1];
    }
  }

  lemma Lengths(t: Table, u: Table, cs: seq<seq<nat>>, ds: seq<seq<nat>>)
    requires |t| == |u| >= 2 && Forest(t, cs) && Accounted(t, cs) && Forest(u, ds) && Accounted(u, ds)
    ensures TotalLength(ds) + |FreeSet(u)| == TotalLength(cs) + |FreeSet(t)|
  {
    Conservation(t, cs);
    Conservation(u, ds);
  }

  /** A request on a sound volume: exactly one chain gains exactly one free
      cluster, or the reply follows a chain, or the volume is full. */
  method Request(v: Volume, ghost cs: seq<seq<nat>>, ghost k: nat, clst: nat) returns (r: nat, ghost ds: seq<seq<nat>>)
    requires Sound(v, cs) && (clst == 0 || (k < |cs| && clst in cs[k]))
    modifies v, v.win
    ensures v.Valid() && v.faults >= old(v.faults)
    ensures r == DISK_ERROR ==> v.faults > old(v.faults)
    ensures r != DISK_ERROR ==> Sound(v, ds) && ds == Requested(cs, k, clst, r)
    ensures r != DISK_ERROR && r >= 2 ==>
              if clst == 0 || clst == cs[k][|cs[k]| - 1]
              then r in old(FreeSet(v.Table())) && FreeSet(v.Table()) == old(FreeSet(v.Table())) - {r}
              else v.Table() == old(v.Table()) && r in cs[k]
    ensures r == 0 ==> FreeSet(v.Table()) == {} && v.Table() == old(v.Table())
    ensures r != 1
    ensures r != DISK_ERROR && clst != 0 && clst != cs[k][|cs[k]| - 1] ==> 2 <= r == old(v.Table())[clst]
    ensures r != DISK_ERROR ==> |v.Table()| > 1 && v.Table()[..2] == old(v.Table())[..2]
  {
    ReservedKept(v.Table(), v.geo.Eoc(), v.freeClst, v.lastClst, clst);
    hide Volume.Valid, Volume.Fat, Volume.Store, Entries, Forest, Accounted, IsChain, FreeSet, Pick, Requested;
    v.EntryCounts();
    RequestKeepsForest(v.Table(), v.geo.Eoc(), v.freeClst, v.lastClst, cs, k, clst);
    RequestFree(v.Table(), v.geo.Eoc(), v.freeClst, v.lastClst, cs, k, clst);
    Undamaged(v.Table(), cs);
    r := v.CreateChain(clst);
    ds := Requested(cs, k, clst, r);
  }

  /** The two reserved entries at the head of the FAT are never touched. */
  lemma ReservedKept(t: Table, eoc: nat, free: nat, last: nat, clst: nat)
    ensures |t| >= 3 ==> CreateTable(t, eoc, free, last, clst)[..2] == t[..2]
  {
    if |t| >= 3 && clst < |t| { PickSound(t, clst, last); }
  }

  lemma RequestFree(t: Table, eoc: nat, free: nat, last: nat, cs: seq<seq<nat>>, k: nat, clst: nat)
    requires |t| >= 3 && eoc >= |t| && Forest(t, cs) && CountRight(t, free)
    requires clst == 0 || (k < |cs| && clst in cs[k])
    ensures var r, u := CreateReply(t, free, last, clst), CreateTable(t, eoc, free, last, clst);
            && (r >= 2 ==>
                  if clst == 0 || clst == cs[k][|cs[k]| - 1]
                  then r in FreeSet(t) && FreeSet(u) == FreeSet(t) - {r}
                  else u == t && r in cs[k] && r == t[clst])
            && (clst != 0 && clst != cs[k][|cs[k]| - 1] ==> r >= 2)
            && (r == 0 ==> FreeSet(t) == {} && u == t)
            && (r == 1 ==> u == t && Corrupt(t))
  {
    var r, u := CreateReply(t, free, last, clst), CreateTable(t, eoc, free, last, clst);
    if clst != 0 {
      LastOrInside(t, cs, k, clst);
      if clst != cs[k][|cs[k]| - 1] { FollowsChain(t, cs[k], clst); }
    }
    PickSound(t, clst, last);
    if Allocates(t, free, last, clst) { GrownFree(t, eoc, r, clst); }
  }

  lemma FollowsChain(t: Table, ch: seq<nat>, c: nat)
    requires IsChain(t, ch) && c in ch && c != ch[|ch| - 1]
    ensures t[c] in ch
  {
    var i :| 0 <= i < |ch| && ch[i] == c;
    assert t[ch[i]] == ch[i + 1];
  }

  /** Removing chain `k` from position `j` on. */
  method Remove(v: Volume, ghost cs: seq<seq<nat>>, ghost k: nat, ghost j: nat, clst: nat, pclst: nat)
    returns (res: FResult, ghost ds: seq<seq<nat>>)
    requires Sound(v, cs) && k < |cs| && j < |cs[k]|
    requires clst == cs[k][j] && pclst == if j == 0 then 0 else cs[k][j - 1]
    modifies v, v.win
    ensures v.Valid() && v.faults >= old(v.faults)
    ensures res.Ok? || (res.DiskErr? && v.faults > old(v.faults))
    ensures res.Ok? ==> Sound(v, ds) && ds == Pruned(cs, k, j)
    ensures res.Ok? ==> FreeSet(v.Table()) == old(FreeSet(v.Table())) + Elems(cs[k][j..])
    ensures res.Ok? ==> forall c :: 0 <= c < v.geo.nFatent && c !in cs[k] ==> v.Table()[c] == old(v.Table())[c]
    ensures res.Ok? ==> |v.Table()| > 1 && v.Table()[..2] == old(v.Table())[..2]
  {
    hide Volume.Valid, Volume.Fat, Volume.Store, Entries, Forest, Accounted, FreeSet, Pruned, Removed, Cut, Elems;
    v.EntryCounts();
    ForestChain(v.Table(), cs, k, j);
    RemoveTail(v.Table(), v.geo.Eoc(), cs[k], j);
    ForestRemove(v.Table(), v.geo.Eoc(), cs, k, j);
    AccountedRemove(v.Table(), v.geo.Eoc(), cs, k, j);
    res := v.RemoveChain(clst, pclst);
    ds := Pruned(cs, k, j);
  }

  lemma ForestChain(t: Table, cs: seq<seq<nat>>, k: nat, j: nat)
    requires Forest(t, cs) && k < |cs| && j < |cs[k]|
    ensures IsChain(t, cs[k]) && 2 <= cs[k][j] < |t|
    ensures j > 0 ==> 2 <= cs[k][j - 1] < |t| && t[cs[k][j - 1]] != 0
  {
    if j > 0 { assert t[cs[k][j - 1]] == cs[k][j]; }
  }

  /** Asking for the free count. */
  method Recount(v: Volume, ghost cs: seq<seq<nat>>) returns (res: FResult, nclst: nat)
    requires Sound(v, cs)
    modifies v, v.win
    ensures v.Valid() && v.faults >= old(v.faults)
    ensures res.Ok? || (res.DiskErr? && v.faults > old(v.faults))
    ensures v.Table() == old(v.Table())
    ensures res.Ok? && (v.geo.fsType.FAT12? || (v.Table()[0] != 0 && v.Table()[1] != 0)) ==>
              Sound(v, cs) && nclst == |FreeSet(v.Table())| == v.geo.nFatent - 2 - TotalLength(cs)
  {
    hide Volume.Valid, Volume.Fat, Volume.Store, Entries, Forest, Accounted, FreeSet;
    v.EntryCounts();
    Conservation(v.Table(), cs);
    Undamaged(v.Table(), cs);
    res, nclst := v.GetFree();
  }

  /** On a volume all of whose used entries are in chains, none is corrupt. */
  lemma Undamaged(t: Table, cs: seq<seq<nat>>)
    requires Forest(t, cs) && Accounted(t, cs)
    ensures !Corrupt(t)
  {
    forall c | 2 <= c < |t| && t[c] != 0 ensures t[c] != 1 {
      assert Owned(cs, c);
      var k :| 0 <= k < |cs| && c in cs[k];
      var i :| 0 <= i < |cs[k]| && cs[k][i] == c;
      if i < |cs[k]| - 1 { assert t[cs[k][i]] == cs[k][i + 1]; }
    }
  }

  // ---- whole runs -----------------------------------------------------------------

  /** What may be asked of the allocator, by chain and position in it: a cluster
      for a new chain, the cluster behind one, removal of a tail, the free count. */
  datatype Call = NewChain | After(k: nat, i: nat) | CutAt(k: nat, j: nat) | CountFree

  predicate Proper(a: seq<seq<nat>>, c: Call) {
    match c
    case After(k, i) => k < |a| && i < |a[k]|
    case CutAt(k, j) => k < |a| && j < |a[k]|
    case _ => true
  }

  /** One call on `n` clusters, of which those of chains `a` are in use; `r` is
      the reply. Which free cluster is handed out is left open. */
  ghost predicate AllocStep(n: nat, a: seq<seq<nat>>, c: Call, r: nat, b: seq<seq<nat>>) {
    if !Proper(a, c) then b == a
    else
      match c
      case NewChain => if TotalLength(a) == n then r == 0 && b == a else r >= 2 && !Owned(a, r) && b == a + [[r]]
      case After(k, i) =>
        if i < |a[k]| - 1 then r == a[k][i + 1] && b == a
        else if TotalLength(a) == n then r == 0 && b == a
        else r >= 2 && !Owned(a, r) && b == a[k := a[k] + [r]]
      case CutAt(k, j) => b == Pruned(a, k, j)
      case CountFree => r + TotalLength(a) == n && b == a
  }

  ghost predicate AllocRun(n: nat, states: seq<seq<seq<nat>>>, calls: seq<Call>, replies: seq<nat>) {
    && |states| == |calls| + 1 && |replies| == |calls|
    && forall i :: 0 <= i < |calls| ==> AllocStep(n, states[i], calls[i], replies[i], states[i + 1])
  }

  /** The reserved entries do not look free to a raw scan. */
  ghost predicate Marked(v: Volume)
    reads v, v.win
    requires v.Valid()
  {
    v.geo.fsType.FAT12? || (|v.Table()| > 1 && v.Table()[0] != 0 && v.Table()[1] != 0)
  }

  method Perform(v: Volume, cs: seq<seq<nat>>, c: Call) returns (ok: bool, r: nat, ds: seq<seq<nat>>)
    requires Sound(v, cs) && Marked(v)
    modifies v, v.win
    ensures v.Valid() && v.faults >= old(v.faults)
    ensures if ok then Sound(v, ds) && Marked(v) && AllocStep(v.geo.nFatent - 2, cs, c, r, ds)
            else v.faults > old(v.faults)
  {
    hide Volume.Valid, Volume.Fat, Volume.Store, Entries, Forest, Accounted, IsChain, FreeSet, Elems, CountRight;
    hide TotalLength, Owned;
    ok, r, ds := true, 0, cs;
    if !Proper(cs, c) { return; }
    v.EntryCounts();
    FullWhen(v.Table(), cs);
    ghost var t := v.Table();
    match c {
      case NewChain =>
        ghost var es;
        r, es := Request(v, cs, 0, 0);
        ds := Requested(cs, 0, 0, r);
        ok := r != DISK_ERROR;
      case After(k, i) =>
        ghost var es;
        LinkInside(v.Table(), cs, k, i);
        r, es := Request(v, cs, k, cs[k][i]);
        ds := Requested(cs, k, cs[k][i], r);
        ok := r != DISK_ERROR;
      case CutAt(k, j) =>
        ghost var es;
        var res;
        res, es := Remove(v, cs, k, j, cs[k][j], if j == 0 then 0 else cs[k][j - 1]);
        ds := Pruned(cs, k, j);
        ok := res.Ok?;
      case CountFree =>
        var res;
        res, r := Recount(v, cs);
        ok := res.Ok?;
    }
    if ok { ReservedSame(t, v.Table()); }
  }

  lemma ReservedSame(t: Table, u: Table)
    requires |t| == |u| > 1 && u[..2] == t[..2]
    ensures u[0] == t[0] && u[1] == t[1]
  {
    assert u[0] == u[..2][0] && u[1] == u[..2][1];
    assert t[0] == t[..2][0] && t[1] == t[..2][1];
  }

  /** The volume is full exactly when its chains hold all clusters, and a free
      cluster is in no chain. */
  lemma FullWhen(t: Table, cs: seq<seq<nat>>)
    requires |t| >= 2 && Forest(t, cs) && Accounted(t, cs)
    ensures FreeSet(t) == {} <==> TotalLength(cs) == |t| - 2
    ensures forall c :: c in FreeSet(t) ==> c >= 2 && !Owned(cs, c)
  {
    Conservation(t, cs);
    forall c | c in FreeSet(t) ensures !Owned(cs, c) {
      if Owned(cs, c) {
        var i :| 0 <= i < |cs| && c in cs[i];
        ChainUsed(t, cs[i], c);
      }
    }
  }

  lemma LinkInside(t: Table, cs: seq<seq<nat>>, k: nat, i: nat)
    requires Forest(t, cs) && k < |cs| && i < |cs[k]|
    ensures cs[k][i] >= 2
    ensures if i < |cs[k]| - 1 then cs[k][i] != cs[k][|cs[k]| - 1] && t[cs[k][i]] == cs[k][i + 1]
            else cs[k][i] == cs[k][|cs[k]| - 1]
  {
  }

  /** Any run, up to a failure of the drive: the FAT stays a forest with a right
      free count, a request is refused exactly when all clusters are in chains,
      and the count is exact. */
  method Run(v: Volume, cs: seq<seq<nat>>, calls: seq<Call>)
    returns (ghost states: seq<seq<seq<nat>>>, replies: seq<nat>, ok: bool, ds: seq<seq<nat>>)
    requires Sound(v, cs) && Marked(v)
    modifies v, v.win
    ensures v.Valid() && v.faults >= old(v.faults)
    ensures |replies| <= |calls| && (ok ==> |replies| == |calls|)
    ensures AllocRun(v.geo.nFatent - 2, states, calls[..|replies|], replies) && states[0] == cs
    ensures if ok then Sound(v, ds) && ds == states[|calls|] else v.faults > old(v.faults)
  {
    hide Volume.Valid, Sound, AllocStep, Marked;
    SoundValid(v, cs);
    states, replies, ok, ds := [cs], [], true, cs;
    for i := 0 to |calls|
      invariant Sound(v, ds) && v.Valid() && Marked(v) && v.faults >= old(v.faults) && v.geo.nFatent >= 3
      invariant |replies| == i && ok && |states| == i + 1 && states[0] == cs && ds == states[i]
      invariant AllocRun(v.geo.nFatent - 2, states, calls[..i], replies)
    {
      var r;
      ghost var before := ds;
      ok, r, ds := Perform(v, ds, calls[i]);
      if !ok { return; }
      RunStep(v.geo.nFatent - 2, states, calls, i, replies, r, ds);
      states, replies := states + [ds], replies + [r];
    }
    assert calls[..|calls|] == calls;
  }

  lemma SoundValid(v: Volume, cs: seq<seq<nat>>)
    requires Sound(v, cs)
    ensures v.Valid() && v.geo.nFatent >= 3
  {
    v.EntryCounts();
  }

  lemma RunStep(n: nat, states: seq<seq<seq<nat>>>, calls: seq<Call>, i: nat, replies: seq<nat>, r: nat,
                b: seq<seq<nat>>)
    requires i < |calls| && AllocRun(n, states, calls[..i], replies) && AllocStep(n, states[i], calls[i], r, b)
    ensures AllocRun(n, states + [b], calls[..i + 1], replies + [r])
  {
    hide AllocStep;
    var s, q := states + [b], replies + [r];
    forall k | 0 <= k < i + 1 ensures AllocStep(n, s[k], calls[..i + 1][k], q[k], s[k + 1]) {
      if k < i { assert AllocStep(n, states[k], calls[..i][k], replies[k], states[k + 1]); }
    }
  }
}
