/** The table of open files: one entry a file, counting readers or holding one
    writer. */
module Sharing {
  import opened Bytes

  /** Identity of a file: volume (never 0), first cluster of its directory, offset
      of its entry. */
  datatype Key = Key(fs: nat, clu: nat, ofs: nat)

  /** A table entry; volume 0 marks a blank one. */
  datatype Sem = Sem(fs: nat, clu: nat, ofs: nat, ctr: nat) {
    function KeyOf(): Key { Key(fs, clu, ofs) }
  }

  const WRITER := 0x100

  /** First entry for `k`, or the table's length. */
  function Find(t: seq<Sem>, k: Key): (i: nat)
    ensures i <= |t|
    ensures i < |t| ==> t[i].KeyOf() == k
    ensures forall j :: 0 <= j < i ==> t[j].KeyOf() != k
  {
    if t == [] then 0 else if t[0].KeyOf() == k then 0 else 1 + Find(t[1..], k)
  }

  /** First blank entry, or the table's length. */
  function Blank(t: seq<Sem>): (i: nat)
    ensures i <= |t|
    ensures i < |t| ==> t[i].fs == 0
    ensures forall j :: 0 <= j < i ==> t[j].fs != 0
  {
    if t == [] then 0 else if t[0].fs == 0 then 0 else 1 + Blank(t[1..])
  }

  /** May the file be accessed? 0: read, 1: write, 2: delete or rename. */
  function Check(t: seq<Sem>, k: Key, acc: nat): FResult {
    var i := Find(t, k);
    if i == |t| then if Blank(t) == |t| && acc != 2 then TooManyOpenFiles else Ok
    else if acc != 0 || t[i].ctr == WRITER then Locked else Ok
  }

  /** Table and index (from 1; 0: refused) after registering an open. */
  function Enter(t: seq<Sem>, k: Key, acc: nat): (r: (seq<Sem>, nat))
    ensures |r.0| == |t| && r.1 <= |t|
  {
    var i := Find(t, k);
    if i < |t| then
      if acc >= 1 && t[i].ctr != 0 then (t, 0)
      else (t[i := t[i].(ctr := if acc != 0 then WRITER else t[i].ctr + 1)], i + 1)
    else
      var b := Blank(t);
      if b == |t| then (t, 0)
      else (t[b := Sem(k.fs, k.clu, k.ofs, if acc != 0 then WRITER else 1)], b + 1)
  }

  /** Table after one holder of entry `i` (from 1) is gone. */
  function Leave(t: seq<Sem>, i: nat): (r: seq<Sem>)
    requires 1 <= i <= |t|
    ensures |r| == |t|
  {
    var e := t[i - 1];
    var n := if e.ctr == WRITER || e.ctr == 0 then 0 else e.ctr - 1;
    t[i - 1 := e.(ctr := n, fs := if n == 0 then 0 else e.fs)]
  }

  /** Table without the entries of a volume. */
  function Cleared(t: seq<Sem>, fs: nat): (r: seq<Sem>)
    ensures |r| == |t|
    ensures forall i :: 0 <= i < |t| ==> r[i] == if t[i].fs == fs then t[i].(fs := 0) else t[i]
  {
    seq(|t|, i requires 0 <= i < |t| => if t[i].fs == fs then t[i].(fs := 0) else t[i])
  }

  /** The loops of the code, against those functions. */
  class ShareTable {
    const files: array<Sem>

    constructor (n: nat)
      ensures fresh(files) && files.Length == n
      ensures forall i :: 0 <= i < n ==> files[i].fs == 0
    {
      files := new Sem[n](_ => Sem(0, 0, 0, 0));
    }

    method ChkShare(k: Key, acc: nat) returns (res: FResult)
      requires k.fs != 0
      ensures res == Check(files[..], k, acc)
    {
      var be := false;
      var i := 0;
      while i < files.Length
        invariant 0 <= i <= files.Length
        invariant forall j :: 0 <= j < i ==> files[j].KeyOf() != k
        invariant be <==> exists j :: 0 <= j < i && files[j].fs == 0
      {
        if files[i].fs != 0 {
          if files[i].fs == k.fs && files[i].clu == k.clu && files[i].ofs == k.ofs { break; }
        } else {
          be := true;
        }
        i := i + 1;
      }
      FindIs(files[..], k, i);
      if i == files.Length {
        return if !be && acc != 2 then TooManyOpenFiles else Ok;
      }
      res := if acc != 0 || files[i].ctr == WRITER then Locked else Ok;
    }

    method EnqShare() returns (free: bool)
      ensures free <==> Blank(files[..]) < files.Length
    {
      var i := FindBlank();
      free := i != files.Length;
    }

    method FindBlank() returns (i: nat)
      ensures i == Blank(files[..])
    {
      i := 0;
      while i < files.Length && files[i].fs != 0
        invariant i <= files.Length
        invariant forall j :: 0 <= j < i ==> files[j].fs != 0
      {
        i := i + 1;
      }
    }

    method IncShare(k: Key, acc: nat) returns (lockid: nat)
      requires k.fs != 0
      modifies files
      ensures (files[..], lockid) == Enter(old(files[..]), k, acc)
    {
      ghost var t := files[..];
      var i := 0;
      while i < files.Length
        invariant 0 <= i <= files.Length
        invariant forall j :: 0 <= j < i ==> files[j].KeyOf() != k
      {
        if files[i].fs == k.fs && files[i].clu == k.clu && files[i].ofs == k.ofs { break; }
        i := i + 1;
      }
      FindIs(t, k, i);
      if i == files.Length {
        i := FindBlank();
        if i == files.Length { return 0; }
        files[i] := Sem(k.fs, k.clu, k.ofs, 0);
      }
      if acc >= 1 && files[i].ctr != 0 {
        assert files[..] == t;
        return 0;
      }
      files[i] := files[i].(ctr := if acc != 0 then WRITER else files[i].ctr + 1);
      lockid := i + 1;
      assert files[..] == Enter(t, k, acc).0;
    }

    method DecShare(i: nat) returns (res: FResult)
      modifies files
      ensures 1 <= i <= files.Length ==> res.Ok? && files[..] == Leave(old(files[..]), i)
      ensures !(1 <= i <= files.Length) ==> res.IntErr? && files[..] == old(files[..])
    {
      if i == 0 || i > files.Length { return IntErr; }
      var n := files[i - 1].ctr;
      if n == WRITER { n := 0; }
      if n > 0 { n := n - 1; }
      files[i - 1] := files[i - 1].(ctr := n);
      if n == 0 { files[i - 1] := files[i - 1].(fs := 0); }
      res := Ok;
    }

    method ClearShare(fs: nat)
      modifies files
      ensures files[..] == Cleared(old(files[..]), fs)
    {
      ghost var t := files[..];
      var i := 0;
      while i < files.Length
        invariant 0 <= i <= files.Length
        invariant forall j :: 0 <= j < files.Length ==>
                    files[j] == if j < i && t[j].fs == fs then t[j].(fs := 0) else t[j]
      {
        if files[i].fs == fs { files[i] := files[i].(fs := 0); }
        i := i + 1;
      }
    }
  }

  lemma FindIs(t: seq<Sem>, k: Key, i: nat)
    requires i <= |t| && (i < |t| ==> t[i].KeyOf() == k)
    requires forall j :: 0 <= j < i ==> t[j].KeyOf() != k
    ensures Find(t, k) == i
  {
  }

  // ---- sessions ---------------------------------------------------------------

  /** An open file: its lock index, identity and mode. */
  datatype Handle = Handle(idx: nat, key: Key, write: bool)

  datatype Session = Session(table: seq<Sem>, open: seq<Handle>)

  datatype Op = OpenFile(key: Key, write: bool) | CloseFile(h: nat) | Unmount(fs: nat)

  function Acc(write: bool): nat { if write then 1 else 0 }

  function Without(open: seq<Handle>, h: nat): seq<Handle>
    requires h < |open|
  {
    open[..h] + open[h + 1..]
  }

  function OnOther(open: seq<Handle>, fs: nat): seq<Handle> {
    if open == [] then []
    else (if open[0].key.fs == fs then [] else [open[0]]) + OnOther(open[1..], fs)
  }

  /** An open checks, then enters; a close leaves; an unmount drops the volume's
      entries and, with the mount, its files. */
  function Step(s: Session, op: Op): Session {
    match op
    case OpenFile(k, w) =>
      if Check(s.table, k, Acc(w)).Ok? then
        var (t, i) := Enter(s.table, k, Acc(w));
        if i == 0 then s.(table := t) else Session(t, s.open + [Handle(i, k, w)])
      else s
    case CloseFile(h) =>
      if h < |s.open| && 1 <= s.open[h].idx <= |s.table|
      then Session(Leave(s.table, s.open[h].idx), Without(s.open, h))
      else s
    case Unmount(fs) => if fs == 0 then s else Session(Cleared(s.table, fs), OnOther(s.open, fs))
  }

  /** Outstanding opens of a file in a mode. */
  function Count(open: seq<Handle>, k: Key, w: bool): nat {
    if open == [] then 0 else Count(open[1..], k, w) + if open[0].key == k && open[0].write == w then 1 else 0
  }

  /** Live entries are one to a file, and count its opens; every open has its entry. */
  ghost predicate Consistent(s: Session) {
    && (forall i, j :: 0 <= i < j < |s.table| && s.table[i].fs != 0 && s.table[j].fs != 0 ==>
          s.table[i].KeyOf() != s.table[j].KeyOf())
    && (forall i :: 0 <= i < |s.table| && s.table[i].fs != 0 ==> EntryCounts(s.open, s.table[i]))
    && (forall h :: 0 <= h < |s.open| ==> Held(s.table, s.open[h]))
  }

  /** One writer and no reader, or readers only. */
  ghost predicate EntryCounts(open: seq<Handle>, e: Sem) {
    var r, w := Count(open, e.KeyOf(), false), Count(open, e.KeyOf(), true);
    (e.ctr == WRITER && w == 1 && r == 0) || (e.ctr == r && 0 < r < WRITER && w == 0)
  }

  ghost predicate Held(t: seq<Sem>, h: Handle) {
    1 <= h.idx <= |t| && h.key.fs != 0 && t[h.idx - 1].KeyOf() == h.key
  }

  lemma {:induction false} CountAppend(open: seq<Handle>, h: Handle, k: Key, w: bool)
    ensures Count(open + [h], k, w) == Count(open, k, w) + if h.key == k && h.write == w then 1 else 0
  {
    if open != [] {
      CountAppend(open[1..], h, k, w);
      assert (open + [h])[1..] == open[1..] + [h];
    }
  }

  lemma {:induction false} CountWithout(open: seq<Handle>, h: nat, k: Key, w: bool)
    requires h < |open|
    ensures Count(open, k, w) ==
            Count(Without(open, h), k, w) + if open[h].key == k && open[h].write == w then 1 else 0
  {
    if h == 0 {
      assert Without(open, 0) == open[1..];
    } else {
      CountWithout(open[1..], h - 1, k, w);
      assert Without(open, h)[1..] == Without(open[1..], h - 1);
    }
  }

  lemma {:induction false} CountOther(open: seq<Handle>, fs: nat, k: Key, w: bool)
    ensures Count(OnOther(open, fs), k, w) == if k.fs == fs then 0 else Count(open, k, w)
    ensures forall h :: 0 <= h < |OnOther(open, fs)| ==>
              OnOther(open, fs)[h] in open && OnOther(open, fs)[h].key.fs != fs
  {
    if open != [] {
      CountOther(open[1..], fs, k, w);
      var rest := OnOther(open[1..], fs);
      if open[0].key.fs != fs {
        assert OnOther(open, fs) == [open[0]] + rest;
      } else {
        assert OnOther(open, fs) == rest;
      }
    }
  }

  /** A file with an open handle has a count. */
  lemma {:induction false} CountSome(open: seq<Handle>, h: nat)
    requires h < |open|
    ensures Count(open, open[h].key, open[h].write) > 0
  {
    if h > 0 { CountSome(open[1..], h - 1); }
  }

  lemma {:induction false} CountNone(open: seq<Handle>, k: Key, w: bool)
    requires forall h :: 0 <= h < |open| ==> open[h].key != k || open[h].write != w
    ensures Count(open, k, w) == 0
  {
    if open != [] { CountNone(open[1..], k, w); }
  }

  /** In a consistent session, whether a file is open shows in its entry. */
  lemma EntryIffOpen(s: Session, k: Key)
    requires Consistent(s) && k.fs != 0
    ensures Find(s.table, k) < |s.table| <==> Count(s.open, k, false) + Count(s.open, k, true) > 0
  {
    var i := Find(s.table, k);
    if i < |s.table| {
      assert EntryCounts(s.open, s.table[i]);
    } else {
      assert forall h :: 0 <= h < |s.open| ==> Held(s.table, s.open[h]);
      CountNone(s.open, k, false);
      CountNone(s.open, k, true);
    }
  }

  /** The check says what sharing means. A read open is refused as locked for a
      writer, a write open and a deletion for any other opener; an open of a file
      that is not open is refused for a full table, a deletion never. */
  lemma CheckMeans(s: Session, k: Key)
    requires Consistent(s) && k.fs != 0
    ensures var r, w, room := Count(s.open, k, false), Count(s.open, k, true), Blank(s.table) < |s.table|;
            && Check(s.table, k, 0) == (if w > 0 then Locked else if r > 0 || room then Ok else TooManyOpenFiles)
            && Check(s.table, k, 1) == (if r + w > 0 then Locked else if room then Ok else TooManyOpenFiles)
            && Check(s.table, k, 2) == (if r + w > 0 then Locked else Ok)
  {
    EntryIffOpen(s, k);
    var i := Find(s.table, k);
    if i < |s.table| { assert EntryCounts(s.open, s.table[i]); }
  }

  /** Whenever the check allows an open, entering it succeeds. */
  lemma CheckedEnterSucceeds(s: Session, k: Key, w: bool)
    requires Consistent(s) && k.fs != 0 && Check(s.table, k, Acc(w)).Ok?
    ensures Enter(s.table, k, Acc(w)).1 != 0
  {
  }

  /** No two handles share a file when one of them writes. */
  lemma WriterAlone(s: Session, g: nat, h: nat)
    requires Consistent(s) && g < |s.open| && h < |s.open| && g != h && s.open[g].key == s.open[h].key
    ensures !s.open[g].write && !s.open[h].write
  {
    assert Held(s.table, s.open[g]);
    var e := s.table[s.open[g].idx - 1];
    assert EntryCounts(s.open, e);
    CountSome(s.open, g);
    CountSome(s.open, h);
    CountWithout(s.open, g, s.open[g].key, s.open[g].write);
    var g' := if h < g then h else h - 1;
    assert Without(s.open, g)[g'] == s.open[h];
    CountSome(Without(s.open, g), g');
  }

  /** A read open fits while the file has fewer than 255 readers: the 256th
      would make the counter read as a writer. */
  predicate Fits(s: Session, op: Op) {
    op.OpenFile? && !op.write && Check(s.table, op.key, 0).Ok? ==> Count(s.open, op.key, false) < 255
  }

  lemma OpenStep(s: Session, k: Key, w: bool)
    requires Consistent(s) && k.fs != 0 && Check(s.table, k, Acc(w)).Ok?
    requires w || Count(s.open, k, false) < WRITER - 1
    ensures Consistent(Step(s, OpenFile(k, w)))
    ensures Step(s, OpenFile(k, w)).open == s.open + [Handle(Enter(s.table, k, Acc(w)).1, k, w)]
  {
    hide Count, EntryCounts;
    CheckedEnterSucceeds(s, k, w);
    var (t, i) := Enter(s.table, k, Acc(w));
    var h := Handle(i, k, w);
    var o := s.open + [h];
    forall j | 0 <= j < |t| && t[j].fs != 0 ensures EntryCounts(o, t[j]) {
      EntryAfterOpen(s, k, w, j);
    }
    forall g | 0 <= g < |o| ensures Held(t, o[g]) {
      if g < |s.open| { assert Held(s.table, s.open[g]); }
    }
  }

  lemma EntryAfterOpen(s: Session, k: Key, w: bool, j: nat)
    requires Consistent(s) && k.fs != 0 && Check(s.table, k, Acc(w)).Ok?
    requires w || Count(s.open, k, false) < WRITER - 1
    requires j < |s.table| && Enter(s.table, k, Acc(w)).0[j].fs != 0
    ensures var (t, i) := Enter(s.table, k, Acc(w)); EntryCounts(s.open + [Handle(i, k, w)], t[j])
  {
    hide Count;
    var (t, i) := Enter(s.table, k, Acc(w));
    var h := Handle(i, k, w);
    EntryIffOpen(s, k);
    CountAppend(s.open, h, t[j].KeyOf(), true);
    CountAppend(s.open, h, t[j].KeyOf(), false);
    if s.table[j].fs != 0 { assert EntryCounts(s.open, s.table[j]); }
    if j + 1 != i { assert t[j] == s.table[j] && t[j].KeyOf() != k; }
  }

  lemma CloseStep(s: Session, h: nat)
    requires Consistent(s) && h < |s.open|
    ensures Consistent(Step(s, CloseFile(h))) && Step(s, CloseFile(h)).open == Without(s.open, h)
  {
    hide Count, EntryCounts;
    assert Held(s.table, s.open[h]);
    var t, o := Leave(s.table, s.open[h].idx), Without(s.open, h);
    forall j | 0 <= j < |t| && t[j].fs != 0 ensures EntryCounts(o, t[j]) {
      EntryAfterClose(s, h, j);
    }
    forall g | 0 <= g < |o| ensures Held(t, o[g]) {
      var g' := if g < h then g else g + 1;
      assert o[g] == s.open[g'] && Held(s.table, s.open[g']);
      if o[g].idx == s.open[h].idx { StillCounted(s, h, g'); }
    }
  }

  lemma EntryAfterClose(s: Session, h: nat, j: nat)
    requires Consistent(s) && h < |s.open| && Held(s.table, s.open[h])
    requires j < |s.table| && Leave(s.table, s.open[h].idx)[j].fs != 0
    ensures EntryCounts(Without(s.open, h), Leave(s.table, s.open[h].idx)[j])
  {
    hide Count;
    var e := s.table[j];
    assert EntryCounts(s.open, e);
    CountWithout(s.open, h, e.KeyOf(), true);
    CountWithout(s.open, h, e.KeyOf(), false);
    if j + 1 == s.open[h].idx {
      CountSome(s.open, h);
    }
  }

  /** Another handle on the same entry keeps the entry alive. */
  lemma StillCounted(s: Session, h: nat, g: nat)
    requires Consistent(s) && h < |s.open| && g < |s.open| && g != h && s.open[g].idx == s.open[h].idx
    ensures Held(Leave(s.table, s.open[h].idx), s.open[g])
  {
    hide Count;
    assert Held(s.table, s.open[h]) && Held(s.table, s.open[g]);
    WriterAlone(s, g, h);
    var e := s.table[s.open[h].idx - 1];
    assert EntryCounts(s.open, e);
    CountWithout(s.open, h, e.KeyOf(), false);
    var g' := if g < h then g else g - 1;
    assert Without(s.open, h)[g'] == s.open[g];
    CountSome(Without(s.open, h), g');
  }

  lemma UnmountStep(s: Session, fs: nat)
    requires Consistent(s)
    ensures Consistent(Step(s, Unmount(fs)))
    ensures fs != 0 ==> forall h :: 0 <= h < |Step(s, Unmount(fs)).open| ==> Step(s, Unmount(fs)).open[h].key.fs != fs
  {
    if fs != 0 {
      hide Count, OnOther, Check, Enter, Leave, EntryCounts, Held, Sem.KeyOf;
      var t, o := Cleared(s.table, fs), OnOther(s.open, fs);
      forall j | 0 <= j < |t| && t[j].fs != 0 ensures EntryCounts(o, t[j]) {
        CountsUnmounted(s.open, fs, s.table[j]);
      }
      CountOther(s.open, fs, Key(0, 0, 0), true);
      forall h | 0 <= h < |o| ensures Held(t, o[h]) {
        var g :| 0 <= g < |s.open| && s.open[g] == o[h];
        HeldUnmounted(s.table, fs, o[h]);
      }
    }
  }

  lemma CountsUnmounted(open: seq<Handle>, fs: nat, e: Sem)
    requires EntryCounts(open, e) && e.fs != fs
    ensures EntryCounts(OnOther(open, fs), e)
  {
    hide Count, OnOther;
    CountOther(open, fs, e.KeyOf(), true);
    CountOther(open, fs, e.KeyOf(), false);
  }

  lemma HeldUnmounted(t: seq<Sem>, fs: nat, h: Handle)
    requires Held(t, h) && h.key.fs != fs
    ensures Held(Cleared(t, fs), h)
  {
  }

  ghost predicate Real(op: Op) { op.OpenFile? ==> op.key.fs != 0 }

  /** Every step keeps the session consistent exactly when it fits. */
  lemma StepKeeps(s: Session, op: Op)
    requires Consistent(s) && Real(op)
    ensures Consistent(Step(s, op)) <==> Fits(s, op)
  {
    match op
    case OpenFile(k, w) =>
      if Check(s.table, k, Acc(w)).Ok? {
        if Fits(s, op) { OpenStep(s, k, w); } else { OneTooMany(s, k); }
      }
    case CloseFile(h) => if h < |s.open| { CloseStep(s, h); }
    case Unmount(fs) => UnmountStep(s, fs);
  }

  /** The 256th reader turns the counter into the writer mark. */
  lemma OneTooMany(s: Session, k: Key)
    requires Consistent(s) && k.fs != 0 && Check(s.table, k, 0).Ok? && Count(s.open, k, false) >= WRITER - 1
    ensures !Consistent(Step(s, OpenFile(k, false)))
    ensures Check(Step(s, OpenFile(k, false)).table, k, 0).Locked?
  {
    EntryIffOpen(s, k);
    var i := Find(s.table, k);
    assert EntryCounts(s.open, s.table[i]);
    var u := Step(s, OpenFile(k, false));
    CountAppend(s.open, Handle(i + 1, k, false), k, false);
    assert u.table[i].KeyOf() == k && u.table[i].ctr == WRITER;
    FindIs(u.table, k, i);
    assert !EntryCounts(u.open, u.table[i]);
  }

  function After(s: Session, ops: seq<Op>): Session
    decreases |ops|
  {
    if ops == [] then s else After(Step(s, ops[0]), ops[1..])
  }

  ghost predicate AllFit(s: Session, ops: seq<Op>)
    decreases |ops|
  {
    ops != [] ==> Real(ops[0]) && Fits(s, ops[0]) && AllFit(Step(s, ops[0]), ops[1..])
  }

  /** Over every run of opens, closes and unmounts with fewer than 256 readers a
      file, the table stays consistent; with it, writers stay alone. */
  lemma {:induction false} RunsConsistent(s: Session, ops: seq<Op>)
    requires Consistent(s) && AllFit(s, ops)
    ensures Consistent(After(s, ops))
    decreases |ops|
  {
    if ops != [] {
      StepKeeps(s, ops[0]);
      RunsConsistent(Step(s, ops[0]), ops[1..]);
    }
  }

  /** A new table is consistent. */
  lemma StartConsistent(t: seq<Sem>)
    requires forall i :: 0 <= i < |t| ==> t[i].fs == 0
    ensures Consistent(Session(t, []))
  {
  }

  /** For a file that is not open, room for one more entry is what the check asks
      for, and what entering needs: creating a file is an open like any other. */
  lemma RoomIsEnough(t: seq<Sem>, k: Key, w: bool)
    requires k.fs != 0 && Find(t, k) == |t|
    ensures Blank(t) < |t| <==> Check(t, k, Acc(w)).Ok?
    ensures Blank(t) < |t| <==> Enter(t, k, Acc(w)).1 != 0
  {
  }

  function Readers(k: Key, n: nat): (ops: seq<Op>)
    ensures |ops| == n
  {
    seq(n, _ => OpenFile(k, false))
  }

  lemma {:induction false} AfterMore(s: Session, ops: seq<Op>, op: Op)
    ensures After(s, ops + [op]) == Step(After(s, ops), op)
    decreases |ops|
  {
    if ops != [] {
      assert (ops + [op])[1..] == ops[1..] + [op];
      AfterMore(Step(s, ops[0]), ops[1..], op);
    } else {
      assert ([] + [op])[1..] == [];
    }
  }

  /** 255 readers can open one file. */
  lemma {:induction false} ReadersOpen(s: Session, k: Key, n: nat)
    requires Consistent(s) && k.fs != 0 && n < WRITER && Check(s.table, k, 0).Ok? && Count(s.open, k, false) == 0
    ensures var u := After(s, Readers(k, n));
            Consistent(u) && Count(u.open, k, false) == n && Check(u.table, k, 0).Ok?
  {
    hide Consistent, Check, Count, Step;
    if n > 0 {
      ReadersOpen(s, k, n - 1);
      assert Readers(k, n) == Readers(k, n - 1) + [OpenFile(k, false)];
      AfterMore(s, Readers(k, n - 1), OpenFile(k, false));
      OneMore(After(s, Readers(k, n - 1)), k);
    }
  }

  lemma OneMore(u: Session, k: Key)
    requires Consistent(u) && k.fs != 0 && Check(u.table, k, 0).Ok? && Count(u.open, k, false) < WRITER - 1
    ensures var v := Step(u, OpenFile(k, false));
            && Consistent(v) && Count(v.open, k, false) == Count(u.open, k, false) + 1 && Check(v.table, k, 0).Ok?
  {
    hide Consistent, Enter;
    StepKeeps(u, OpenFile(k, false));
    CheckedEnterSucceeds(u, k, false);
    var e := Enter(u.table, k, 0);
    CountAppend(u.open, Handle(e.1, k, false), k, false);
    CountAppend(u.open, Handle(e.1, k, false), k, true);
    CheckMeans(u, k);
    CheckMeans(Step(u, OpenFile(k, false)), k);
  }

  /** So the 256th is met in a run from a new table: it breaks the table. */
  lemma TooManyReachable(t: seq<Sem>, k: Key)
    requires t != [] && (forall i :: 0 <= i < |t| ==> t[i].fs == 0) && k.fs != 0
    ensures var s := Session(t, []);
            Consistent(After(s, Readers(k, 255))) && !Consistent(After(s, Readers(k, 256)))
  {
    var s := Session(t, []);
    StartConsistent(t);
    CheckMeans(s, k);
    ReadersOpen(s, k, WRITER - 1);
    assert Readers(k, WRITER) == Readers(k, WRITER - 1) + [OpenFile(k, false)];
    AfterMore(s, Readers(k, WRITER - 1), OpenFile(k, false));
    OneTooMany(After(s, Readers(k, WRITER - 1)), k);
  }
}
