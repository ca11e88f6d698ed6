/** Whole runs: any sequence of calls on one open file behaves as a byte array
    with a cursor. */
module FileRuns {
  import opened Bytes
  import opened Layout
  import opened FileData
  import opened FileObjects
  import opened Volumes
  import opened Chains
  import opened FatCodec

  datatype Op = ReadOp(n: nat) | WriteOp(data: seq<Byte>) | SeekOp(ofs: nat) | TruncateOp | SyncOp(tm: nat)

  datatype Reply = Reply(res: FResult, data: seq<Byte>, count: nat)

  /** The simple thing a file is: bytes and a position. */
  datatype Plain = Plain(data: seq<Byte>, pos: nat)

  function Min(a: nat, b: nat): nat { if a < b then a else b }

  /** Bytes a write at `pos` has room for, in a file that can have `limit`. */
  function Room(limit: nat, pos: nat): nat {
    if pos < Min(limit, DISK_ERROR) then Min(limit, DISK_ERROR) - pos else 0
  }

  /** One call on the plain file, which holds at most `limit` bytes. All of it is
      determined but the new bytes of a seek past the end. */
  ghost predicate PlainStep(canRead: bool, canWrite: bool, limit: nat, a: Plain, op: Op, r: Reply, b: Plain) {
    && a.pos <= |a.data| <= limit
    && match op
       case ReadOp(n) =>
         && b.data == a.data
         && (if canRead then
               && r.res.Ok? && b.pos == a.pos + Min(n, |a.data| - a.pos)
               && r.data == a.data[a.pos..b.pos]
             else r.res.Denied? && b.pos == a.pos)
       case WriteOp(d) =>
         if canWrite then
           && r.res.Ok? && r.count == Min(|d|, Room(limit, a.pos)) && b.pos == a.pos + r.count
           && b.data == Splice(a.data, a.pos, d[..r.count])
         else r.res.Denied? && b == a
       case SeekOp(ofs) =>
         && r.res.Ok? && b.pos == Min(ofs, if canWrite then limit else |a.data|)
         && |b.data| == (if b.pos > |a.data| then b.pos else |a.data|) && b.data[..|a.data|] == a.data
       case TruncateOp =>
         if canWrite then r.res.Ok? && b == Plain(a.data[..a.pos], a.pos) else r.res.Denied? && b == a
       case SyncOp(_) => r.res.Ok? && b == a
  }

  /** Each call has its own limit, for the volume may wrongly believe to be full. */
  ghost predicate PlainRun(canRead: bool, canWrite: bool, limits: seq<nat>, states: seq<Plain>, ops: seq<Op>,
                           replies: seq<Reply>) {
    && |states| == |ops| + 1 && |replies| == |limits| == |ops|
    && forall i :: 0 <= i < |ops| ==>
         PlainStep(canRead, canWrite, limits[i], states[i], ops[i], replies[i], states[i + 1])
  }

  predicate Fits(op: Op) {
    match op
    case WriteOp(d) => |d| < DWORD_VALUES
    case SeekOp(ofs) => ofs < DWORD_VALUES
    case SyncOp(tm) => tm < DWORD_VALUES
    case _ => true
  }

  /** The call did what it was asked: no error of the drive or the FAT. */
  ghost predicate Worked(f: FileObject, op: Op, r: Reply)
    reads f
  {
    f.err.Ok? && (op.SyncOp? ==> r.res.Ok?)
  }

  /** What a call that worked did. With a right free count the limit is the room
      of all clusters the file could have; else it may be what the file has now.
      Nothing changed outside those clusters but the file's directory entry. */
  twostate predicate Outcome(f: FileObject, op: Op, r: Reply, limit: nat)
    reads f, f.buf, f.fs, f.fs.win
    requires old(f.Base()) && f.Base()
  {
    && PlainStep(f.canRead, f.canWrite, limit, old(Plain(f.Content(), f.fptr)), op, r, Plain(f.Content(), f.fptr))
    && (limit == f.Limit() || (limit == 512 * Capacity(f.fs.geo, f.chain) && !old(f.fs.CountOk())))
    && (old(f.fs.CountOk()) ==> f.fs.CountOk())
    && KeptBut(f.fs.geo, f.pool, f.dirSect, f.dirOfs, old(f.fs.Store()), old(f.fs.Table()), f.fs.Store(), f.fs.Table())
    && (op.SyncOp? ==> !f.modified)
  }

  /** One call on the real file. */
  method Call(f: FileObject, op: Op) returns (r: Reply, ghost limit: nat)
    requires f.Base() && f.Valid() && f.err.Ok? && Fits(op)
    modifies f, f.buf, f.fs, f.fs.win
    ensures f.Base() && f.Valid() && f.fs.faults >= old(f.fs.faults)
    ensures if Worked(f, op, r) then Outcome(f, op, r, limit)
            else f.fs.faults > old(f.fs.faults) || Corrupt(f.fs.Table())
  {
    hide FileObject.Base, FileObject.Valid, Outcome;
    match op
    case ReadOp(n) => r, limit := DoRead(f, n);
    case WriteOp(d) => r, limit := DoWrite(f, d);
    case SeekOp(ofs) => r, limit := DoSeek(f, ofs);
    case TruncateOp => r, limit := DoTruncate(f);
    case SyncOp(tm) => r, limit := DoSync(f, tm);
  }

  method DoRead(f: FileObject, n: nat) returns (r: Reply, ghost limit: nat)
    requires f.Base() && f.Valid() && f.err.Ok?
    modifies f, f.buf, f.fs, f.fs.win
    ensures f.Base() && f.Valid() && f.fs.faults >= old(f.fs.faults)
    ensures if Worked(f, ReadOp(n), r) then Outcome(f, ReadOp(n), r, limit) else f.fs.faults > old(f.fs.faults)
  {
    hide Volume.Valid, Volume.Fat, Volume.Store, CoreOf, FileObject.InPool, Geometry.ClearOf, FileBytes, ClusterIndex;
    hide SectAt, CountRight, Entries, Kept, KeptBut, FileObject.Limit, Capacity, FreeSet;
    f.WithinLimit();
    f.EntryPlace();
    limit := f.Limit();
    ghost var st, t := f.fs.Store(), f.fs.Table();
    KeptNothing(f.fs.geo, f.pool, f.dirSect, f.dirOfs, st, t);
    var res, data := f.Read(n);
    r := Reply(res, data, |data|);
    f.ValidBase();
    if res.Ok? { KeptIsKeptBut(f.fs.geo, f.pool, f.dirSect, f.dirOfs, st, t, f.fs.Store(), f.fs.Table()); }
  }

  method DoWrite(f: FileObject, d: seq<Byte>) returns (r: Reply, ghost limit: nat)
    requires f.Base() && f.Valid() && f.err.Ok? && |d| < DWORD_VALUES
    modifies f, f.buf, f.fs, f.fs.win
    ensures f.Base() && f.Valid() && f.fs.faults >= old(f.fs.faults)
    ensures if Worked(f, WriteOp(d), r) then Outcome(f, WriteOp(d), r, limit)
            else f.fs.faults > old(f.fs.faults) || Corrupt(f.fs.Table())
  {
    hide Volume.Valid, Volume.Fat, Volume.Store, CoreOf, FileObject.InPool, Geometry.ClearOf, FileBytes, ClusterIndex;
    hide SectAt, CountRight, Entries, Kept, KeptBut, FileObject.Limit, Capacity, FreeSet, Splice;
    f.WithinLimit();
    f.CoreFacts();
    f.EntryPlace();
    limit := f.Limit();
    ghost var st, t := f.fs.Store(), f.fs.Table();
    KeptNothing(f.fs.geo, f.pool, f.dirSect, f.dirOfs, st, t);
    var res, bw := f.Write(d);
    r := Reply(res, [], bw);
    f.ValidBase();
    if res.Ok? {
      KeptIsKeptBut(f.fs.geo, f.pool, f.dirSect, f.dirOfs, st, t, f.fs.Store(), f.fs.Table());
      f.WithinLimit();
      f.CoreFacts();
      if bw < |d| && f.fptr != DISK_ERROR { limit := 512 * Capacity(f.fs.geo, f.chain); }
    }
  }

  method DoSeek(f: FileObject, ofs: nat) returns (r: Reply, ghost limit: nat)
    requires f.Base() && f.Valid() && f.err.Ok? && ofs < DWORD_VALUES
    modifies f, f.buf, f.fs, f.fs.win
    ensures f.Base() && f.Valid() && f.fs.faults >= old(f.fs.faults)
    ensures if Worked(f, SeekOp(ofs), r) then Outcome(f, SeekOp(ofs), r, limit)
            else f.fs.faults > old(f.fs.faults) || Corrupt(f.fs.Table())
  {
    hide Volume.Valid, Volume.Fat, Volume.Store, CoreOf, FileObject.InPool, Geometry.ClearOf, FileBytes, ClusterIndex;
    hide SectAt, CountRight, Entries, Kept, KeptBut, FileObject.Limit, Capacity, FreeSet;
    f.WithinLimit();
    f.EntryPlace();
    limit := f.Limit();
    ghost var st, t := f.fs.Store(), f.fs.Table();
    var res := f.Lseek(ofs);
    r := Reply(res, [], 0);
    f.ValidBase();
    if res.Ok? {
      KeptIsKeptBut(f.fs.geo, f.pool, f.dirSect, f.dirOfs, st, t, f.fs.Store(), f.fs.Table());
      f.WithinLimit();
      if f.canWrite && f.fptr < ofs { limit := 512 * Capacity(f.fs.geo, f.chain); }
    }
  }

  method DoTruncate(f: FileObject) returns (r: Reply, ghost limit: nat)
    requires f.Base() && f.Valid() && f.err.Ok?
    modifies f, f.buf, f.fs, f.fs.win
    ensures f.Base() && f.Valid() && f.fs.faults >= old(f.fs.faults)
    ensures if Worked(f, TruncateOp, r) then Outcome(f, TruncateOp, r, limit)
            else f.fs.faults > old(f.fs.faults) || Corrupt(f.fs.Table())
  {
    hide Volume.Valid, Volume.Fat, Volume.Store, CoreOf, FileObject.InPool, Geometry.ClearOf, FileBytes, ClusterIndex;
    hide SectAt, CountRight, Entries, Kept, KeptBut, FileObject.Limit, Capacity, FreeSet, Elems;
    f.WithinLimit();
    f.EntryPlace();
    limit := f.Limit();
    ghost var st, t := f.fs.Store(), f.fs.Table();
    KeptNothing(f.fs.geo, f.pool, f.dirSect, f.dirOfs, st, t);
    var res := f.Truncate();
    r := Reply(res, [], 0);
    f.ValidBase();
    if res.Ok? { KeptIsKeptBut(f.fs.geo, f.pool, f.dirSect, f.dirOfs, st, t, f.fs.Store(), f.fs.Table()); }
  }

  method DoSync(f: FileObject, tm: nat) returns (r: Reply, ghost limit: nat)
    requires f.Base() && f.Valid() && f.err.Ok? && tm < DWORD_VALUES
    modifies f, f.buf, f.fs, f.fs.win
    ensures f.Base() && f.Valid() && f.fs.faults >= old(f.fs.faults)
    ensures if Worked(f, SyncOp(tm), r) then Outcome(f, SyncOp(tm), r, limit) else f.fs.faults > old(f.fs.faults)
  {
    hide Volume.Valid, Volume.Fat, Volume.Store, CoreOf, FileObject.InPool, Geometry.ClearOf, FileBytes, ClusterIndex;
    hide SectAt, CountRight, Entries, Kept, KeptBut, FileObject.Limit, Capacity, FreeSet, UpdatedEntry;
    hide ReadBack, LoadClust, LdDword;
    f.WithinLimit();
    limit := f.Limit();
    var res := f.Sync(tm);
    r := Reply(res, [], 0);
    f.ValidBase();
  }

  /** Any run: the calls made before a failure, and all of them when none fails,
      are a run of the plain file from its first content and position. A run that
      ends with a sync, and leaves the window clean, has the content on the drive. */
  method Run(f: FileObject, ops: seq<Op>)
    returns (ghost limits: seq<nat>, ghost states: seq<Plain>, replies: seq<Reply>, ok: bool)
    requires f.Base() && f.Valid() && f.err.Ok? && forall i :: 0 <= i < |ops| ==> Fits(ops[i])
    modifies f, f.buf, f.fs, f.fs.win
    ensures f.Base() && f.Valid() && f.fs.faults >= old(f.fs.faults)
    ensures |replies| <= |ops| && (ok ==> |replies| == |ops|)
    ensures PlainRun(f.canRead, f.canWrite, limits, states, ops[..|replies|], replies)
    ensures states[0] == old(Plain(f.Content(), f.fptr))
    ensures old(f.fs.CountOk()) ==> forall i :: 0 <= i < |limits| ==> limits[i] == f.Limit()
    ensures ok ==> f.err.Ok? && states[|ops|] == Plain(f.Content(), f.fptr)
    ensures ok ==> (old(f.fs.CountOk()) ==> f.fs.CountOk())
    ensures ok ==>
              KeptBut(f.fs.geo, f.pool, f.dirSect, f.dirOfs, old(f.fs.Store()), old(f.fs.Table()),
                      f.fs.Store(), f.fs.Table())
    ensures ok && ops != [] && ops[|ops| - 1].SyncOp? && !f.fs.wflag ==>
              ReadBack(f.fs.geo, f.fs.media, f.dirSect, f.dirOfs) == f.Content()
    ensures !ok ==> f.fs.faults > old(f.fs.faults) || Corrupt(f.fs.Table())
  {
    hide Volume.Valid, Volume.Fat, Volume.Store, FileObject.Valid, FileObject.Base, FileObject.Content;
    hide PlainStep, CountRight;
    hide KeptBut, FileObject.Limit, ReadBack, Capacity;
    f.ValidBase();
    f.EntryPlace();
    limits, states, replies, ok := [], [Plain(f.Content(), f.fptr)], [], true;
    KeptNothing(f.fs.geo, f.pool, f.dirSect, f.dirOfs, f.fs.Store(), f.fs.Table());
    ghost var st, t := f.fs.Store(), f.fs.Table();
    for i := 0 to |ops|
      invariant f.Valid() && f.Base() && f.err.Ok? && f.fs.Valid() && f.fs.faults >= old(f.fs.faults)
      invariant |replies| == |limits| == i && ok
      invariant PlainRun(f.canRead, f.canWrite, limits, states, ops[..i], replies)
      invariant states[0] == old(Plain(f.Content(), f.fptr)) && states[i] == Plain(f.Content(), f.fptr)
      invariant old(f.fs.CountOk()) ==> f.fs.CountOk() && forall k :: 0 <= k < i ==> limits[k] == f.Limit()
      invariant KeptBut(f.fs.geo, f.pool, f.dirSect, f.dirOfs, st, t, f.fs.Store(), f.fs.Table())
      invariant i > 0 && ops[i - 1].SyncOp? ==> !f.modified
    {
      ghost var su, u, limit := f.fs.Store(), f.fs.Table(), 0;
      var r;
      r, limit := Call(f, ops[i]);
      f.ValidBase();
      if !f.err.Ok? || (ops[i].SyncOp? && !r.res.Ok?) {
        ok := false;
        return;
      }
      KeptButChain(f.fs.geo, f.pool, f.dirSect, f.dirOfs, st, t, su, u, f.fs.Store(), f.fs.Table());
      RunStep(f.canRead, f.canWrite, limits, limit, states, ops, i, replies, r, Plain(f.Content(), f.fptr));
      limits, states := limits + [limit], states + [Plain(f.Content(), f.fptr)];
      replies := replies + [r];
    }
    assert ops[..|ops|] == ops;
    if ops != [] && ops[|ops| - 1].SyncOp? && !f.fs.wflag { OnDrive(f); }
  }

  lemma OnDrive(f: FileObject)
    requires f.Base() && f.Valid() && f.err.Ok? && !f.modified && !f.fs.wflag
    ensures ReadBack(f.fs.geo, f.fs.media, f.dirSect, f.dirOfs) == f.Content()
  {
    hide Volume.Valid, Volume.Store, ReadBack, LoadClust, LdDword, CoreOf, FileObject.InPool;
    hide Geometry.ClearOf, FileBytes;
    f.Durable();
  }

  lemma RunStep(canRead: bool, canWrite: bool, limits: seq<nat>, limit: nat, states: seq<Plain>, ops: seq<Op>, i: nat,
                replies: seq<Reply>, r: Reply, b: Plain)
    requires i < |ops| && PlainRun(canRead, canWrite, limits, states, ops[..i], replies)
    requires PlainStep(canRead, canWrite, limit, states[i], ops[i], r, b)
    ensures PlainRun(canRead, canWrite, limits + [limit], states + [b], ops[..i + 1], replies + [r])
  {
    hide PlainStep;
    var l, s, q := limits + [limit], states + [b], replies + [r];
    forall k | 0 <= k < i + 1 ensures PlainStep(canRead, canWrite, l[k], s[k], ops[..i + 1][k], q[k], s[k + 1]) {
      if k < i { assert PlainStep(canRead, canWrite, limits[k], states[k], ops[..i][k], replies[k], states[k + 1]); }
    }
  }
}
