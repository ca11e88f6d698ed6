/** A directory as its entries, and the entries as a map from names. */
module DirTables {
  import opened Bytes
  import opened Names

  type Record = r: seq<Byte> | |r| == 32 witness seq(32, _ => 0)

  /** An 8.3 name as `CreateName` leaves it: never the mark of an unused or a
      deleted entry. */
  type Name = n: seq<Byte> | |n| == 11 && n[0] != 0 && n[0] != DELETED witness seq(11, _ => BLANK)

  function Blank(): (r: Record)
    ensures forall i :: 0 <= i < 32 ==> r[i] == 0
  {
    seq(32, _ => 0)
  }

  function Blanks(n: nat): (r: seq<Record>)
    ensures |r| == n
    ensures forall i :: 0 <= i < n ==> r[i] == Blank()
  {
    seq(n, _ => Blank())
  }

  /** A volume label, or part of a long name. */
  predicate IsVolume(r: Record) { r[11] as int / 8 % 2 == 1 }

  predicate IsVacant(r: Record) { r[0] == DELETED || r[0] == 0 }

  predicate Live(r: Record) { !IsVacant(r) && !IsVolume(r) }

  /** What a lookup accepts. */
  predicate Hit(r: Record, n: Name) { !IsVolume(r) && r[..11] == n }

  /** A fresh entry: the name, everything else zero. */
  function Fresh(n: Name): (r: Record)
    ensures r[..11] == n && forall i :: 11 <= i < 32 ==> r[i] == 0
  {
    n + seq(21, _ => 0)
  }

  function Erased(r: Record): (e: Record)
    ensures IsVacant(e) && e[0] != 0
  {
    r[0 := DELETED]
  }

  /** First entry from `i` on that matches; the table's size when an unused
      entry or the end comes first. */
  function Find(rs: seq<Record>, n: Name, i: nat): (k: nat)
    ensures i <= |rs| ==> i <= k <= |rs|
    ensures k < |rs| ==> Hit(rs[k], n)
    decreases |rs| - i
  {
    if i >= |rs| || rs[i][0] == 0 then |rs|
    else if Hit(rs[i], n) then i
    else Find(rs, n, i + 1)
  }

  /** First free entry from `i` on, or the table's size. */
  function Vacant(rs: seq<Record>, i: nat): (k: nat)
    ensures i <= |rs| ==> i <= k <= |rs|
    ensures k < |rs| ==> IsVacant(rs[k])
    ensures forall j :: i <= j < k && j < |rs| ==> !IsVacant(rs[j])
    decreases |rs| - i
  {
    if i >= |rs| then |rs| else if IsVacant(rs[i]) then i else Vacant(rs, i + 1)
  }

  /** The table with a fresh entry for `n` in the first free place, made by
      growing the table by `z` entries when there is none. */
  function Registered(rs: seq<Record>, z: nat, n: Name): seq<Record> {
    var qs := if Vacant(rs, 0) < |rs| then rs else rs + Blanks(z);
    if Vacant(qs, 0) < |qs| then qs[Vacant(qs, 0) := Fresh(n)] else qs
  }

  /** The table with the entry for `n` marked deleted. */
  function Unlinked(rs: seq<Record>, n: Name): seq<Record> {
    var k := Find(rs, n, 0);
    if k < |rs| then rs[k := Erased(rs[k])] else rs
  }

  /** After the first unused entry, all are. */
  ghost predicate Tidy(rs: seq<Record>) {
    forall i, j :: 0 <= i < j < |rs| && rs[i][0] == 0 ==> rs[j][0] == 0
  }

  /** No two live entries have one name. */
  ghost predicate Unique(rs: seq<Record>) {
    forall i, j :: 0 <= i < j < |rs| && Live(rs[i]) && Live(rs[j]) ==> rs[i][..11] != rs[j][..11]
  }

  ghost predicate Orderly(rs: seq<Record>) { Tidy(rs) && Unique(rs) }

  ghost predicate Named(rs: seq<Record>, n: seq<Byte>) {
    exists i :: 0 <= i < |rs| && Live(rs[i]) && n == rs[i][..11]
  }

  /** What the directory means: the live entries by name. */
  ghost function Listing(rs: seq<Record>): (m: map<seq<Byte>, Record>)
    requires Unique(rs)
    ensures forall i :: 0 <= i < |rs| && Live(rs[i]) ==> rs[i][..11] in m && m[rs[i][..11]] == rs[i]
    ensures forall n :: n in m ==> Named(rs, n)
  {
    map i | 0 <= i < |rs| && Live(rs[i]) :: rs[i][..11] := rs[i]
  }

  /** Whatever name a path segment stands for, dot names too, a deleted or unused
      entry never matches it. */
  lemma DeletedNeverMatches(path: seq<Byte>, p: nat, out: Segment, r: Record)
    requires p <= |path| && Parses(path, p, Ok, out) && IsVacant(r)
    ensures |out.sfn| == 11 && out.sfn[0] != 0 && out.sfn[0] != DELETED
    ensures !Hit(r, out.sfn)
  {
    hide Is83, Stored, Printed, Uppered, Trimmed, SkipSeparators;
    if At(path, p) != DOT { ParsePrintParse(path, p, out); }
    assert r[..11][0] == r[0];
  }

  lemma HitLives(r: Record, n: Name)
    ensures Hit(r, n) <==> Live(r) && r[..11] == n
  {
    if r[..11] == n { assert r[0] == r[..11][0]; }
  }

  lemma {:induction false} FindFirst(rs: seq<Record>, n: Name, i: nat, k: nat)
    requires Tidy(rs) && Unique(rs) && i <= k < |rs| && Hit(rs[k], n)
    ensures Find(rs, n, i) == k
    decreases k - i
  {
    HitLives(rs[k], n);
    HitLives(rs[i], n);
    if i < k { FindFirst(rs, n, i + 1, k); }
  }

  // ---- what the bytes of an entry say -------------------------------------------

  /** An entry in use: not a deleted one, and not behind the end. */
  predicate InUseBytes(r: Record) { r[0] != 0 && r[0] != 0xE5 }

  /** Entry `k` is the first with this name whose attributes have no bit 0x08, and
      no unused entry comes before it. */
  ghost predicate FirstNamed(rs: seq<Record>, n: seq<Byte>, k: nat) {
    && k < |rs| && rs[k][..11] == n && BitAnd(rs[k][11], 0x08) == 0
    && forall i :: 0 <= i < k ==> rs[i][0] != 0 && !(rs[i][..11] == n && BitAnd(rs[i][11], 0x08) == 0)
  }

  lemma VolumeBit(r: Record)
    ensures IsVolume(r) <==> BitAnd(r[11], 0x08) != 0
    ensures Live(r) <==> InUseBytes(r) && BitAnd(r[11], 0x08) == 0
    ensures IsVacant(r) <==> !InUseBytes(r)
  {
    hide BitAnd;
    AttributeBits(r[11]);
  }

  /** A lookup goes by name and attribute bit 0x08, on every table. */
  lemma FindIsFirst(rs: seq<Record>, n: Name, k: nat)
    ensures FirstNamed(rs, n, k) <==> Find(rs, n, 0) == k < |rs|
  {
    hide BitAnd, IsVolume, Find;
    FindSound(rs, n, 0);
    if FirstNamed(rs, n, k) { FindReaches(rs, n, 0, k); }
  }

  lemma {:induction false} FindSound(rs: seq<Record>, n: Name, i: nat)
    requires i <= |rs| && forall j :: 0 <= j < i ==> rs[j][0] != 0 && !Hit(rs[j], n)
    ensures Find(rs, n, i) < |rs| ==> FirstNamed(rs, n, Find(rs, n, i))
    decreases |rs| - i
  {
    hide BitAnd, IsVolume;
    if i < |rs| && rs[i][0] != 0 {
      if Hit(rs[i], n) {
        VolumeBit(rs[i]);
        forall j | 0 <= j < i ensures !(rs[j][..11] == n && BitAnd(rs[j][11], 0x08) == 0) { VolumeBit(rs[j]); }
      } else {
        FindSound(rs, n, i + 1);
      }
    }
  }

  lemma {:induction false} FindReaches(rs: seq<Record>, n: Name, i: nat, k: nat)
    requires i <= k && FirstNamed(rs, n, k)
    ensures Find(rs, n, i) == k
    decreases k - i
  {
    hide BitAnd, IsVolume;
    VolumeBit(rs[i]);
    assert i == k ==> rs[k][..11][0] == rs[k][0];
    if i < k { FindReaches(rs, n, i + 1, k); }
  }

  /** On an orderly table an entry in use is found under its name, a subdirectory
      (0x10) like a file, if its attributes have no bit 0x08. With that bit, as in
      a label (0x08) and a part of a long name (0x0F), it is never found and its
      name is none of the directory's. */
  lemma FoundByAttribute(rs: seq<Record>, k: nat)
    requires Orderly(rs) && k < |rs| && InUseBytes(rs[k])
    ensures BitAnd(rs[k][11], 0x08) == 0 ==>
              && Find(rs, rs[k][..11], 0) == k
              && rs[k][..11] in Listing(rs) && Listing(rs)[rs[k][..11]] == rs[k]
    ensures BitAnd(rs[k][11], 0x08) != 0 ==>
              && Find(rs, rs[k][..11], 0) != k
              && forall n :: n in Listing(rs) ==> Listing(rs)[n] != rs[k]
  {
    hide BitAnd, IsVolume, Listing, Tidy, Unique;
    var n: Name := rs[k][..11];
    VolumeBit(rs[k]);
    HitLives(rs[k], n);
    if Live(rs[k]) {
      FindFirst(rs, n, 0, k);
      assert Listing(rs)[n] == rs[k];
    } else {
      forall m | m in Listing(rs) ensures Listing(rs)[m] != rs[k] {
        var i :| 0 <= i < |rs| && Live(rs[i]) && m == rs[i][..11];
      }
    }
  }

  /** A directory's names are those of its entries in use without bit 0x08. */
  lemma ListingNames(rs: seq<Record>, n: seq<Byte>)
    requires Unique(rs)
    ensures n in Listing(rs) <==>
            exists i :: 0 <= i < |rs| && InUseBytes(rs[i]) && BitAnd(rs[i][11], 0x08) == 0 && rs[i][..11] == n
  {
    hide BitAnd, IsVolume, Live, InUseBytes, Listing;
    forall i | 0 <= i < |rs| ensures Live(rs[i]) <==> InUseBytes(rs[i]) && BitAnd(rs[i][11], 0x08) == 0 {
      VolumeBit(rs[i]);
    }
  }

  /** Registering takes the first entry that starts with 0 or 0xE5 and leaves the
      name and 21 zeros there. */
  lemma RegisteredBytes(rs: seq<Record>, z: nat, n: Name, k: nat)
    requires k < |rs| && !InUseBytes(rs[k]) && forall i :: 0 <= i < k ==> InUseBytes(rs[i])
    ensures Registered(rs, z, n) == rs[k := n + Blank()[11..]]
  {
    VacantIs(rs, k);
    assert n + Blank()[11..] == Fresh(n);
  }

  /** Unlinking stores 0xE5 over the first byte of the entry and nothing else. */
  lemma UnlinkedBytes(rs: seq<Record>, n: Name, k: nat)
    requires FirstNamed(rs, n, k)
    ensures Unlinked(rs, n) == rs[k := [0xE5] + rs[k][1..]]
  {
    hide Find;
    FindIsFirst(rs, n, k);
    assert Erased(rs[k]) == [0xE5] + rs[k][1..];
  }

  /** Lookup is map lookup. */
  lemma FindMeans(rs: seq<Record>, n: Name)
    requires Orderly(rs)
    ensures Find(rs, n, 0) < |rs| <==> n in Listing(rs)
    ensures n in Listing(rs) ==> rs[Find(rs, n, 0)] == Listing(rs)[n]
  {
    var m := Listing(rs);
    if n in m {
      var k :| 0 <= k < |rs| && Live(rs[k]) && n == rs[k][..11];
      HitLives(rs[k], n);
      FindFirst(rs, n, 0, k);
    }
    var k := Find(rs, n, 0);
    if k < |rs| { HitLives(rs[k], n); }
  }

  lemma FreshHits(n: Name)
    ensures Hit(Fresh(n), n)
  {
  }

  lemma SameListing(rs: seq<Record>, m: map<seq<Byte>, Record>)
    requires Unique(rs)
    requires forall i :: 0 <= i < |rs| && Live(rs[i]) ==> rs[i][..11] in m && m[rs[i][..11]] == rs[i]
    requires forall n :: n in m ==> Named(rs, n)
    ensures Listing(rs) == m
  {
    var l := Listing(rs);
    forall n | n in m ensures n in l && l[n] == m[n] {
      var i :| 0 <= i < |rs| && Live(rs[i]) && n == rs[i][..11];
    }
    forall n | n in l ensures n in m {
      var i :| 0 <= i < |rs| && Live(rs[i]) && n == rs[i][..11];
    }
  }

  /** Registering a name that was not found, in the first free entry, is map
      insertion. */
  lemma RegisterInserts(rs: seq<Record>, n: Name)
    requires Orderly(rs) && n !in Listing(rs) && Vacant(rs, 0) < |rs|
    ensures var qs := rs[Vacant(rs, 0) := Fresh(n)];
            Orderly(qs) && Listing(qs) == Listing(rs)[n := Fresh(n)]
  {
    hide IsVolume, Fresh, Vacant;
    var k := Vacant(rs, 0);
    var qs := rs[k := Fresh(n)];
    var m := Listing(rs)[n := Fresh(n)];
    FreshHits(n);
    HitLives(Fresh(n), n);
    assert Tidy(qs);
    assert forall j :: 0 <= j < |rs| && Live(rs[j]) ==> rs[j][..11] in Listing(rs);
    assert Unique(qs);
    forall x | x in m ensures Named(qs, x) {
      if x == n {
        assert Live(qs[k]);
      } else {
        var i :| 0 <= i < |rs| && Live(rs[i]) && x == rs[i][..11];
        assert i != k && Live(qs[i]);
      }
    }
    SameListing(qs, m);
  }

  /** Erasing a live entry is map removal. */
  lemma EraseRemoves(rs: seq<Record>, k: nat)
    requires Orderly(rs) && k < |rs| && Live(rs[k])
    ensures var qs := rs[k := Erased(rs[k])];
            Orderly(qs) && Listing(qs) == Listing(rs) - {rs[k][..11]}
  {
    hide IsVolume, Erased;
    var qs := rs[k := Erased(rs[k])];
    var m := Listing(rs) - {rs[k][..11]};
    forall x | x in m ensures Named(qs, x) {
      var i :| 0 <= i < |rs| && Live(rs[i]) && x == rs[i][..11];
      assert i != k && Live(qs[i]);
    }
    SameListing(qs, m);
  }

  /** Stretching the table by unused entries changes no meaning, and makes the
      first of them the free entry of a full table. */
  lemma StretchKeeps(rs: seq<Record>, z: nat)
    requires Orderly(rs) && Vacant(rs, 0) == |rs| && z > 0
    ensures var qs := rs + Blanks(z);
            Orderly(qs) && Listing(qs) == Listing(rs) && Vacant(qs, 0) == |rs|
  {
    hide IsVolume, IsVacant, Vacant, Blank, Blanks, Listing, Named, Tidy, Unique, Live;
    var qs := rs + Blanks(z);
    BlankVacant();
    assert forall i :: 0 <= i < |rs| ==> !IsVacant(rs[i]);
    Appended(rs, z);
    StretchOrderly(rs, qs);
    StretchListing(rs, qs);
    VacantIs(qs, |rs|);
  }

  lemma Appended(rs: seq<Record>, z: nat)
    ensures var qs := rs + Blanks(z);
            |qs| == |rs| + z && forall i :: 0 <= i < |qs| ==> qs[i] == if i < |rs| then rs[i] else Blank()
  {
  }

  lemma StretchOrderly(rs: seq<Record>, qs: seq<Record>)
    requires Orderly(rs) && |rs| <= |qs|
    requires forall i :: 0 <= i < |rs| ==> !IsVacant(rs[i])
    requires forall i :: 0 <= i < |qs| ==> qs[i] == if i < |rs| then rs[i] else Blank()
    ensures Orderly(qs)
  {
    hide IsVolume, IsVacant, Blank;
    BlankVacant();
  }

  lemma StretchListing(rs: seq<Record>, qs: seq<Record>)
    requires Unique(rs) && Unique(qs) && |rs| <= |qs|
    requires forall i :: 0 <= i < |qs| ==> qs[i] == if i < |rs| then rs[i] else Blank()
    ensures Listing(qs) == Listing(rs)
  {
    hide IsVolume, IsVacant, Blank, Listing;
    BlankVacant();
    var m := Listing(rs);
    forall x | x in m ensures Named(qs, x) {
      var i :| 0 <= i < |rs| && Live(rs[i]) && x == rs[i][..11];
      assert Live(qs[i]);
    }
    assert forall i :: 0 <= i < |qs| && Live(qs[i]) ==> i < |rs|;
    SameListing(qs, m);
  }

  lemma BlankVacant()
    ensures IsVacant(Blank()) && Blank()[0] == 0
    ensures forall r: Record :: r[0] == 0 ==> IsVacant(r)
  {
  }

  lemma VacantIs(rs: seq<Record>, k: nat)
    requires k < |rs| && IsVacant(rs[k]) && forall i :: 0 <= i < k ==> !IsVacant(rs[i])
    ensures Vacant(rs, 0) == k
  {
    hide IsVacant;
  }

  // ---- counting entries -------------------------------------------------------------

  /** Live entries. */
  function Lives(rs: seq<Record>): nat {
    if rs == [] then 0 else Lives(rs[..|rs| - 1]) + if Live(rs[|rs| - 1]) then 1 else 0
  }

  /** Entries in use that are no files: labels and parts of long names. */
  predicate IsOther(r: Record) { !IsVacant(r) && IsVolume(r) }

  function Others(rs: seq<Record>): nat {
    if rs == [] then 0 else Others(rs[..|rs| - 1]) + if IsOther(rs[|rs| - 1]) then 1 else 0
  }

  /** The directory has as many names as live entries. */
  lemma {:induction false} ListingSize(rs: seq<Record>)
    requires Unique(rs)
    ensures |Listing(rs)| == Lives(rs)
  {
    hide Live, Listing, Named;
    if rs == [] {
      SameListing(rs, map[]);
    } else {
      var p, r := rs[..|rs| - 1], rs[|rs| - 1];
      ListingSize(p);
      ListingGrows(rs, p, r);
    }
  }

  lemma ListingGrows(rs: seq<Record>, p: seq<Record>, r: Record)
    requires Unique(rs) && Unique(p) && rs == p + [r]
    ensures Live(r) ==> r[..11] !in Listing(p) && Listing(rs) == Listing(p)[r[..11] := r]
    ensures !Live(r) ==> Listing(rs) == Listing(p)
  {
    hide IsVolume, IsVacant, Listing;
    var l := Listing(p);
    assert forall i :: 0 <= i < |p| ==> rs[i] == p[i];
    assert rs[|p|] == r;
    assert Live(r) ==> r[..11] !in l;
    var m := if Live(r) then l[r[..11] := r] else l;
    forall n | n in m ensures Named(rs, n) {
      if Live(r) && n == r[..11] {
        assert Live(rs[|p|]);
      } else {
        var i :| 0 <= i < |p| && Live(p[i]) && n == p[i][..11];
        assert Live(rs[i]);
      }
    }
    SameListing(rs, m);
  }

  /** Entries in use fill the table exactly when none is free. */
  lemma {:induction false} InUse(rs: seq<Record>)
    ensures Lives(rs) + Others(rs) <= |rs|
    ensures Lives(rs) + Others(rs) == |rs| <==> forall i :: 0 <= i < |rs| ==> !IsVacant(rs[i])
  {
    hide IsVolume, IsVacant;
    if rs != [] {
      var p := rs[..|rs| - 1];
      InUse(p);
      assert forall i :: 0 <= i < |p| ==> rs[i] == p[i];
    }
  }

  /** Entries that are no files stay when others are replaced. */
  lemma {:induction false} OthersUpdate(rs: seq<Record>, k: nat, r: Record)
    requires k < |rs| && IsOther(r) == IsOther(rs[k])
    ensures Others(rs[k := r]) == Others(rs)
  {
    hide IsOther;
    var n := |rs| - 1;
    if k < n {
      assert rs[k := r][..n] == rs[..n][k := r];
      OthersUpdate(rs[..n], k, r);
    } else {
      assert rs[k := r][..n] == rs[..n];
    }
  }

  lemma {:induction false} OthersBlanks(rs: seq<Record>, z: nat)
    ensures Others(rs + Blanks(z)) == Others(rs)
  {
    hide IsVolume;
    var qs := rs + Blanks(z);
    if z == 0 {
      assert qs == rs;
    } else {
      assert qs[..|qs| - 1] == rs + Blanks(z - 1);
      BlankVacant();
      assert qs[|qs| - 1] == Blank();
      OthersBlanks(rs, z - 1);
    }
  }

  lemma OthersRegistered(rs: seq<Record>, z: nat, n: Name)
    ensures Others(Registered(rs, z, n)) == Others(rs)
  {
    hide Others, Vacant, Blanks;
    var qs := if Vacant(rs, 0) < |rs| then rs else rs + Blanks(z);
    OthersBlanks(rs, z);
    if Vacant(qs, 0) < |qs| {
      FreshHits(n);
      HitLives(Fresh(n), n);
      OthersUpdate(qs, Vacant(qs, 0), Fresh(n));
    }
  }

  lemma OthersUnlinked(rs: seq<Record>, n: Name)
    ensures Others(Unlinked(rs, n)) == Others(rs)
  {
    hide Others, Find;
    var k := Find(rs, n, 0);
    if k < |rs| {
      HitLives(rs[k], n);
      OthersUpdate(rs, k, Erased(rs[k]));
    }
  }

  /** Replacing a live entry's contents under its name. */
  lemma ReplaceKeeps(rs: seq<Record>, k: nat, r: Record)
    requires Orderly(rs) && k < |rs| && Live(rs[k]) && Live(r) && r[..11] == rs[k][..11]
    ensures var qs := rs[k := r]; Orderly(qs) && Listing(qs) == Listing(rs)[r[..11] := r]
  {
    hide IsVolume, Listing;
    var qs := rs[k := r];
    var m := Listing(rs)[r[..11] := r];
    assert Tidy(qs);
    assert forall j :: 0 <= j < |rs| && Live(rs[j]) ==> rs[j][..11] in Listing(rs);
    forall x | x in m ensures Named(qs, x) {
      if x == r[..11] {
        assert Live(qs[k]);
      } else {
        var i :| 0 <= i < |rs| && Live(rs[i]) && x == rs[i][..11];
        assert i != k && Live(qs[i]);
      }
    }
    SameListing(qs, m);
  }
}
