/** Cluster chains over the allocation table seen as an array of numbers:
    0 is free, a cluster number is a link, anything at or past the end of the
    table ends a chain. */
module Chains {

  type Table = seq<nat>

  ghost function FreeSet(t: Table): set<nat> {
    set c: nat | 2 <= c < |t| && t[c] == 0
  }

  /** An entry holds the value 1, which no chain has. */
  ghost predicate Corrupt(t: Table) { exists c :: 2 <= c < |t| && t[c] == 1 }

  ghost function UsedSet(t: Table): set<nat> {
    set c: nat | 2 <= c < |t| && t[c] != 0
  }

  ghost function Elems(ch: seq<nat>): set<nat> {
    set c | c in ch
  }

  ghost function Clusters(n: nat): (r: set<nat>)
    ensures forall c :: c in r <==> 2 <= c < n
    ensures n >= 2 ==> |r| == n - 2
  {
    if n <= 2 then {} else Clusters(n - 1) + {n - 1}
  }

  /** No repeated cluster: a chain is acyclic. */
  ghost predicate Distinct(ch: seq<nat>) {
    forall i, j :: 0 <= i < j < |ch| ==> ch[i] != ch[j]
  }

  /** `ch` is linked in `t` from its first cluster to an end mark, and never
      comes back to a cluster it visited. */
  ghost predicate IsChain(t: Table, ch: seq<nat>) {
    && (forall i :: 0 <= i < |ch| ==> 2 <= ch[i] < |t|)
    && Distinct(ch)
    && (forall i :: 0 <= i < |ch| - 1 ==> t[ch[i]] == ch[i + 1])
    && (|ch| > 0 ==> t[ch[|ch| - 1]] >= |t|)
  }

  /** Pairwise disjoint chains. */
  ghost predicate Forest(t: Table, cs: seq<seq<nat>>) {
    && (forall i :: 0 <= i < |cs| ==> |cs[i]| > 0 && IsChain(t, cs[i]))
    && (forall i, j, c :: 0 <= i < j < |cs| && c in cs[i] ==> c !in cs[j])
  }

  /** Every allocated cluster belongs to a listed chain. */
  ghost predicate Accounted(t: Table, cs: seq<seq<nat>>) {
    forall c :: 2 <= c < |t| && t[c] != 0 ==> Owned(cs, c)
  }

  ghost predicate Owned(cs: seq<seq<nat>>, c: nat) {
    exists i :: 0 <= i < |cs| && c in cs[i]
  }

  // ---- counting ---------------------------------------------------------

  lemma SubsetSize(a: set<nat>, b: set<nat>)
    requires a <= b
    ensures |a| <= |b|
  {
    assert b == a + (b - a);
  }

  /** At most every cluster is free, and not all of them once one is used. */
  lemma FreeBound(t: Table)
    requires |t| >= 2
    ensures |FreeSet(t)| <= |t| - 2
    ensures UsedSet(t) != {} ==> |FreeSet(t)| < |t| - 2
  {
    assert Clusters(|t|) == FreeSet(t) + UsedSet(t);
    SubsetSize(FreeSet(t), Clusters(|t|));
    if u :| u in UsedSet(t) {
      SubsetSize(FreeSet(t) + {u}, Clusters(|t|));
    }
  }

  lemma FreeOne(t: Table, c: nat)
    requires 2 <= c < |t| && t[c] != 0
    ensures FreeSet(t[c := 0]) == FreeSet(t) + {c}
    ensures |FreeSet(t[c := 0])| == |FreeSet(t)| + 1
    ensures UsedSet(t[c := 0]) == UsedSet(t) - {c}
  {
  }

  lemma UseOne(t: Table, c: nat, v: nat)
    requires 2 <= c < |t| && v != 0
    ensures FreeSet(t[c := v]) == FreeSet(t) - {c}
    ensures |FreeSet(t[c := v])| == |FreeSet(t)| - if t[c] == 0 then 1 else 0
  {
    if t[c] != 0 {
      assert FreeSet(t) - {c} == FreeSet(t);
    }
  }

  lemma UsedHere(t: Table, c: nat)
    requires 2 <= c < |t| && t[c] != 0
    ensures c in UsedSet(t)
  {
  }

  /** Turning a used entry into an end mark frees nothing. */
  lemma MarkEnd(t: Table, p: nat, eoc: nat)
    requires 2 <= p < |t| && t[p] != 0 && eoc != 0
    ensures FreeSet(t[p := eoc]) == FreeSet(t)
  {
  }

  // ---- removing a chain -------------------------------------------------

  /** What following links from `c` and freeing each cluster does to a table,
      whatever it holds: cross links and cycles run into a freed entry and
      stop. The flag is false when an entry holds the invalid value 1. */
  ghost function Sweep(t: Table, c: nat): (r: (Table, bool))
    ensures |r.0| == |t|
    ensures forall d :: 0 <= d < |t| ==> r.0[d] == t[d] || r.0[d] == 0
    decreases UsedSet(t)
  {
    if c < 2 || c >= |t| || t[c] == 0 then (t, true)
    else if t[c] == 1 then (t, false)
    else
      FreeOne(t, c);
      assert c in UsedSet(t);
      Sweep(t[c := 0], t[c])
  }

  ghost function ZeroAll(t: Table, ch: seq<nat>): (r: Table)
    ensures |r| == |t|
    ensures forall d :: 0 <= d < |t| ==> r[d] == if d in ch then 0 else t[d]
  {
    seq(|t|, d requires 0 <= d < |t| => if d in ch then 0 else t[d])
  }

  /** On a chain the sweep frees exactly that chain. */
  lemma {:induction false} SweepChain(t: Table, ch: seq<nat>)
    requires IsChain(t, ch) && |ch| > 0
    ensures Sweep(t, ch[0]) == (ZeroAll(t, ch), true)
    decreases |ch|
  {
    var c := ch[0];
    var u := t[c := 0];
    if |ch| == 1 {
      assert Sweep(u, t[c]) == (u, true);
      assert u == ZeroAll(t, ch);
    } else {
      var rest := ch[1..];
      assert rest[|rest| - 1] == ch[|ch| - 1];
      assert IsChain(u, rest);
      SweepChain(u, rest);
      assert ch == [c] + rest;
      assert ZeroAll(u, rest) == ZeroAll(t, ch);
    }
  }

  /** Clusters met following links, none of them twice, up to where the links leave
      the table, come back, or meet an entry that is free or invalid. */
  ghost predicate Trail(t: Table, ch: seq<nat>) {
    && ch != [] && Distinct(ch)
    && (forall i :: 0 <= i < |ch| ==> 2 <= ch[i] < |t| && t[ch[i]] >= 2)
    && (forall i :: 0 <= i < |ch| - 1 ==> t[ch[i]] == ch[i + 1])
    && var n := t[ch[|ch| - 1]]; n >= |t| || n in ch || t[n] < 2
  }

  /** On any table, cross links and cycles included, the sweep frees the clusters
      it meets and no others; it fails exactly when it ends at a 1. */
  lemma {:induction false} SweepAny(t: Table, c: nat) returns (ch: seq<nat>)
    requires 2 <= c < |t| && t[c] >= 2
    ensures Trail(t, ch) && ch[0] == c
    ensures var n := t[ch[|ch| - 1]]; Sweep(t, c) == (ZeroAll(t, ch), n >= |t| || n in ch || t[n] == 0)
    decreases UsedSet(t)
  {
    hide FreeSet, UsedSet;
    var n, u := t[c], t[c := 0];
    FreeOne(t, c);
    UsedHere(t, c);
    if n >= |t| || u[n] < 2 {
      ch := [c];
      assert u == ZeroAll(t, ch);
    } else {
      hide Trail, ZeroAll;
      var rest := SweepAny(u, n);
      ch := [c] + rest;
      TrailStep(t, c, rest);
    }
  }

  lemma TrailStep(t: Table, c: nat, rest: seq<nat>)
    requires 2 <= c < |t| && t[c] >= 2 && Trail(t[c := 0], rest) && rest[0] == t[c]
    ensures var u, ch, n := t[c := 0], [c] + rest, t[rest[|rest| - 1]];
            && Trail(t, ch) && ch[|ch| - 1] == rest[|rest| - 1] && ZeroAll(u, rest) == ZeroAll(t, ch)
            && u[rest[|rest| - 1]] == n
            && (n >= |t| || n in rest || u[n] == 0 <==> n >= |t| || n in ch || t[n] == 0)
  {
    var u, ch := t[c := 0], [c] + rest;
    assert c !in rest;
    assert ch[|ch| - 1] == rest[|rest| - 1];
    forall i, j | 0 <= i < j < |ch| ensures ch[i] != ch[j] {
      if i > 0 { assert rest[i - 1] != rest[j - 1]; }
    }
    assert ZeroAll(u, rest) == ZeroAll(t, ch);
  }

  lemma FreeAll(t: Table, ch: seq<nat>)
    requires IsChain(t, ch)
    ensures FreeSet(ZeroAll(t, ch)) == FreeSet(t) + Elems(ch)
    ensures FreeSet(t) !! Elems(ch)
  {
    forall i | 0 <= i < |ch| ensures t[ch[i]] != 0 {
      if i < |ch| - 1 { assert t[ch[i]] == ch[i + 1]; }
    }
  }

  /** `t` after unlinking cluster `c` from its predecessor `p` (0: none) and
      sweeping from `c`. */
  ghost function Removed(t: Table, eoc: nat, c: nat, p: nat): (r: (Table, bool))
    requires p == 0 || p < |t|
  {
    Sweep(if p == 0 then t else t[p := eoc], c)
  }

  ghost function Cut(t: Table, eoc: nat, ch: seq<nat>, k: nat): (r: Table)
    requires 0 < k <= |ch| ==> ch[k - 1] < |t|
    requires k <= |ch|
  {
    ZeroAll(if k == 0 then t else t[ch[k - 1] := eoc], ch[k..])
  }

  lemma TailChain(t: Table, eoc: nat, ch: seq<nat>, k: nat)
    requires IsChain(t, ch) && k < |ch| && eoc >= |t|
    ensures IsChain(if k == 0 then t else t[ch[k - 1] := eoc], ch[k..])
    ensures FreeSet(if k == 0 then t else t[ch[k - 1] := eoc]) == FreeSet(t)
  {
    var u := if k == 0 then t else t[ch[k - 1] := eoc];
    var tail := ch[k..];
    assert tail[|tail| - 1] == ch[|ch| - 1];
    assert forall i :: 0 <= i < |tail| ==> tail[i] == ch[k + i] && u[tail[i]] == t[ch[k + i]];
    if k > 0 { assert t[ch[k - 1]] == ch[k]; }
  }

  lemma HeadChain(t: Table, eoc: nat, ch: seq<nat>, k: nat)
    requires IsChain(t, ch) && k < |ch| && eoc >= |t|
    ensures IsChain(Cut(t, eoc, ch, k), ch[..k])
  {
    var v := Cut(t, eoc, ch, k);
    forall i | 0 <= i < k ensures ch[i] !in ch[k..] {
      assert forall j :: k <= j < |ch| ==> ch[i] != ch[j];
    }
    assert forall i :: 0 <= i < k - 1 ==> v[ch[i]] == t[ch[i]];
  }

  /** Removing the tail of a chain from position `k`: the head keeps its
      clusters and its end mark, the tail is free, other entries stay. */
  lemma RemoveTail(t: Table, eoc: nat, ch: seq<nat>, k: nat)
    requires IsChain(t, ch) && k < |ch| && eoc >= |t|
    ensures Removed(t, eoc, ch[k], if k == 0 then 0 else ch[k - 1]) == (Cut(t, eoc, ch, k), true)
    ensures IsChain(Cut(t, eoc, ch, k), ch[..k])
    ensures FreeSet(Cut(t, eoc, ch, k)) == FreeSet(t) + Elems(ch[k..])
    ensures forall c :: 0 <= c < |t| && c !in ch ==> Cut(t, eoc, ch, k)[c] == t[c]
    ensures forall i :: k <= i < |ch| ==> Cut(t, eoc, ch, k)[ch[i]] == 0
    ensures k > 0 ==> Cut(t, eoc, ch, k)[ch[k - 1]] == eoc
  {
    hide Sweep, FreeSet, Elems;
    TailChain(t, eoc, ch, k);
    HeadChain(t, eoc, ch, k);
    var u := if k == 0 then t else t[ch[k - 1] := eoc];
    SweepChain(u, ch[k..]);
    FreeAll(u, ch[k..]);
    CutEntries(t, eoc, ch, k);
    hide IsChain, ZeroAll, Distinct, Cut;
    assert Cut(t, eoc, ch, k) == ZeroAll(u, ch[k..]);
  }

  lemma CutEntries(t: Table, eoc: nat, ch: seq<nat>, k: nat)
    requires IsChain(t, ch) && k < |ch|
    ensures forall i :: k <= i < |ch| ==> Cut(t, eoc, ch, k)[ch[i]] == 0
    ensures k > 0 ==> Cut(t, eoc, ch, k)[ch[k - 1]] == eoc
    ensures forall c :: 0 <= c < |t| && c !in ch ==> Cut(t, eoc, ch, k)[c] == t[c]
  {
    var tail := ch[k..];
    forall i | k <= i < |ch| ensures Cut(t, eoc, ch, k)[ch[i]] == 0 {
      assert tail[i - k] == ch[i];
    }
    assert forall i :: 0 <= i < |tail| ==> tail[i] == ch[k + i];
  }

  // ---- growing a chain --------------------------------------------------

  ghost function Grown(t: Table, eoc: nat, c: nat, p: nat): (r: Table)
    requires c < |t| && (p == 0 || p < |t|)
    ensures |r| == |t|
  {
    var u := t[c := eoc];
    if p == 0 then u else u[p := c]
  }

  /** Linking free cluster `c` after the last cluster of `ch`. */
  lemma GrowChain(t: Table, eoc: nat, ch: seq<nat>, c: nat)
    requires IsChain(t, ch) && 2 <= c < |t| && t[c] == 0 && eoc >= |t|
    ensures IsChain(Grown(t, eoc, c, if ch == [] then 0 else ch[|ch| - 1]), ch + [c])
    ensures c !in ch
    ensures FreeSet(Grown(t, eoc, c, if ch == [] then 0 else ch[|ch| - 1])) == FreeSet(t) - {c}
  {
    forall i | 0 <= i < |ch| ensures t[ch[i]] != 0 {
      if i < |ch| - 1 { assert t[ch[i]] == ch[i + 1]; }
    }
    var u := Grown(t, eoc, c, if ch == [] then 0 else ch[|ch| - 1]);
    var d := ch + [c];
    assert forall i :: 0 <= i < |ch| - 1 ==> u[d[i]] == t[ch[i]];
  }

  // ---- choosing a cluster -------------------------------------------------

  /** The `i`-th cluster tried when the search starts after cluster `scl`. */
  function Candidate(n: nat, scl: nat, i: nat): nat {
    if scl + 1 + i < n then scl + 1 + i else scl + 3 + i - n
  }

  /** First free cluster in cyclic order from candidate `i` on; 1 when an entry
      holding the invalid value 1 comes first; 0 when there is neither. */
  ghost function FirstFree(t: Table, scl: nat, i: nat): (r: nat)
    requires |t| >= 3 && 1 <= scl < |t| && i <= |t| - 2
    decreases |t| - 2 - i
  {
    if i == |t| - 2 then 0
    else
      var c := Candidate(|t|, scl, i);
      if t[c] == 0 then c else if t[c] == 1 then 1 else FirstFree(t, scl, i + 1)
  }

  /** How the code steps from one candidate to the next, and when it has tried
      them all. */
  lemma CandidateStep(n: nat, scl: nat, i: nat, c: nat)
    requires n >= 3 && 1 <= scl < n && i <= n - 2 && (i == n - 2 ==> scl == 1)
    requires c == if i == 0 then scl else Candidate(n, scl, i - 1)
    ensures c + 1 >= n && 2 > scl ==> i == n - 2
    ensures !(c + 1 >= n && 2 > scl) ==>
              var d := if c + 1 >= n then 2 else c + 1;
              i < n - 2 && d == Candidate(n, scl, i) && (d == scl <==> i + 1 == n - 2 && scl != 1)
  {
  }

  lemma SearchOn(t: Table, scl: nat, i: nat)
    requires |t| >= 3 && 1 <= scl < |t| && i <= |t| - 2
    ensures FirstFree(t, scl, |t| - 2) == 0
    ensures i < |t| - 2 ==>
              var c := Candidate(|t|, scl, i);
              FirstFree(t, scl, i) == if t[c] == 0 then c else if t[c] == 1 then 1 else FirstFree(t, scl, i + 1)
  {
  }

  function Following(n: nat, c: nat): nat {
    if c + 1 >= n then 2 else c + 1
  }

  /** The cluster the allocator settles on: right after the chain's end if that
      is free, else the first free one after the hint. */
  ghost function Pick(t: Table, clst: nat, last: nat): (r: nat)
    requires |t| >= 3 && clst < |t|
  {
    if clst == 0 then FirstFree(t, if last == 0 || last >= |t| then 1 else last, 0)
    else
      var f := t[Following(|t|, clst)];
      if f == 0 then Following(|t|, clst)
      else if f == 1 then 1
      else FirstFree(t, if 2 <= last < |t| then last else clst, 0)
  }

  lemma {:induction false} FirstFreeSound(t: Table, scl: nat, i: nat)
    requires |t| >= 3 && 1 <= scl < |t| && i <= |t| - 2
    ensures var r := FirstFree(t, scl, i);
            && (r >= 2 ==> r < |t| && t[r] == 0)
            && (r == 1 ==> Corrupt(t))
            && (r == 0 ==> forall j :: i <= j < |t| - 2 ==> t[Candidate(|t|, scl, j)] != 0)
    decreases |t| - 2 - i
  {
    if i < |t| - 2 {
      FirstFreeSound(t, scl, i + 1);
    }
  }

  /** The candidates are all the clusters. */
  lemma CandidatesCover(n: nat, scl: nat, c: nat)
    requires n >= 3 && 1 <= scl < n && 2 <= c < n
    ensures exists i :: 0 <= i < n - 2 && Candidate(n, scl, i) == c
  {
    var i := if c > scl then c - scl - 1 else c + n - scl - 3;
    assert Candidate(n, scl, i) == c;
  }

  lemma PickSound(t: Table, clst: nat, last: nat)
    requires |t| >= 3 && clst < |t|
    ensures var r := Pick(t, clst, last);
            && (r >= 2 ==> r < |t| && t[r] == 0)
            && (r == 1 ==> Corrupt(t))
            && (r == 0 ==> FreeSet(t) == {})
  {
    var scl := if clst == 0 then (if last == 0 || last >= |t| then 1 else last)
               else if 2 <= last < |t| then last else clst;
    FirstFreeSound(t, scl, 0);
    if FirstFree(t, scl, 0) == 0 {
      forall c | 2 <= c < |t| ensures t[c] != 0 {
        CandidatesCover(|t|, scl, c);
      }
    }
    if clst != 0 { assert 2 <= Following(|t|, clst) < |t|; }
  }

  /** `r` is the first free cluster behind `s`, going round at the table's end. */
  ghost predicate FirstBehind(t: Table, s: nat, r: nat) {
    && 2 <= r < |t| && t[r] == 0
    && (forall c :: 2 <= c && s < c < |t| && (c < r || r <= s) ==> t[c] != 0)
    && (r <= s ==> forall c :: 2 <= c < r ==> t[c] != 0)
  }

  lemma {:induction false} FirstFreeFinds(t: Table, scl: nat, i: nat)
    requires |t| >= 3 && 1 <= scl < |t| && i <= |t| - 2
    requires forall j :: 0 <= j < i ==> t[Candidate(|t|, scl, j)] != 0
    ensures FirstFree(t, scl, i) >= 2 ==> FirstBehind(t, scl, FirstFree(t, scl, i))
    decreases |t| - 2 - i
  {
    if i < |t| - 2 {
      var c := Candidate(|t|, scl, i);
      if t[c] == 0 {
        forall d | 2 <= d < |t| && (if c > scl then scl < d < c else d > scl || d < c) ensures t[d] != 0 {
          var j := if d > scl then d - scl - 1 else d + |t| - scl - 3;
          assert j < i && Candidate(|t|, scl, j) == d;
        }
      } else if t[c] != 1 {
        FirstFreeFinds(t, scl, i + 1);
      }
    }
  }

  /** Which free cluster a request gets: behind the end of the chain if that one is
      free; else the first free one behind the hint, or for a useless hint behind
      that end; for a new chain the first free one behind the hint, or of all. */
  lemma PickIsFirst(t: Table, clst: nat, last: nat)
    requires |t| >= 3 && clst < |t| && Pick(t, clst, last) >= 2
    ensures var r := Pick(t, clst, last);
            if clst == 0 then FirstBehind(t, if 1 <= last < |t| then last else 1, r)
            else
              var f := if clst + 1 < |t| then clst + 1 else 2;
              if t[f] == 0 then r == f else FirstBehind(t, if 2 <= last < |t| then last else clst, r)
  {
    FirstFreeFinds(t, if clst == 0 then (if last == 0 || last >= |t| then 1 else last)
                      else if 2 <= last < |t| then last else clst, 0);
  }

  /** The search reports a full volume exactly when no cluster is free, for
      every hint, as long as no entry holds the invalid value 1. */
  lemma PickComplete(t: Table, clst: nat, last: nat)
    requires |t| >= 3 && clst < |t|
    requires !Corrupt(t)
    ensures Pick(t, clst, last) == 0 <==> FreeSet(t) == {}
    ensures Pick(t, clst, last) != 1
  {
    PickSound(t, clst, last);
    var r := Pick(t, clst, last);
    if r >= 2 { assert r in FreeSet(t); }
  }

  lemma GrownFree(t: Table, eoc: nat, c: nat, p: nat)
    requires 2 <= c < |t| && t[c] == 0 && eoc != 0
    requires p == 0 || (2 <= p < |t| && t[p] != 0)
    ensures FreeSet(Grown(t, eoc, c, p)) == FreeSet(t) - {c}
    ensures |FreeSet(Grown(t, eoc, c, p))| == |FreeSet(t)| - 1
  {
    UseOne(t, c, eoc);
    if p != 0 {
      var u := t[c := eoc];
      UseOne(u, p, c);
      assert FreeSet(u) - {p} == FreeSet(u);
    }
  }

  /** Reply of a request for the cluster after `clst` (0: for a new chain):
      0 for a full volume, 1 for a damaged table, else the cluster. */
  ghost function CreateReply(t: Table, free: nat, last: nat, clst: nat): (r: nat)
    requires |t| >= 3
  {
    if clst != 0 && (clst < 2 || clst >= |t| || t[clst] < 2) then 1
    else if clst != 0 && t[clst] < |t| then t[clst]
    else if free == 0 then 0
    else Pick(t, clst, last)
  }

  /** The request hands out a cluster that was free. */
  ghost predicate Allocates(t: Table, free: nat, last: nat, clst: nat)
    requires |t| >= 3
  {
    && (clst != 0 ==> 2 <= clst < |t| && t[clst] >= |t|)
    && CreateReply(t, free, last, clst) >= 2
  }

  ghost function CreateTable(t: Table, eoc: nat, free: nat, last: nat, clst: nat): (u: Table)
    requires |t| >= 3
    ensures |u| == |t|
  {
    if Allocates(t, free, last, clst) then
      PickSound(t, clst, last);
      Grown(t, eoc, CreateReply(t, free, last, clst), clst)
    else t
  }

  /** The free count is unknown (too big to be one) or exact. */
  ghost predicate CountRight(t: Table, free: nat) {
    free > |t| - 2 || free == |FreeSet(t)|
  }

  /** Allocator completeness: with a right count and no invalid entries, a
      request that needs a new cluster is refused exactly when none is free,
      and otherwise gets a cluster that was free. */
  lemma CreateComplete(t: Table, free: nat, last: nat, clst: nat)
    requires |t| >= 3 && CountRight(t, free)
    requires !Corrupt(t)
    requires clst != 0 ==> 2 <= clst < |t| && t[clst] >= |t|
    ensures CreateReply(t, free, last, clst) == 0 <==> FreeSet(t) == {}
    ensures CreateReply(t, free, last, clst) != 0 ==>
              Allocates(t, free, last, clst) && CreateReply(t, free, last, clst) in FreeSet(t)
  {
    PickSound(t, clst, last);
    PickComplete(t, clst, last);
  }

  /** Asking for the cluster after one inside a chain follows the chain. */
  lemma FollowRequest(t: Table, eoc: nat, free: nat, last: nat, ch: seq<nat>, j: nat)
    requires |t| >= 3 && IsChain(t, ch) && 0 < j < |ch|
    ensures CreateReply(t, free, last, ch[j - 1]) == ch[j]
    ensures CreateTable(t, eoc, free, last, ch[j - 1]) == t
  {
    assert t[ch[j - 1]] == ch[j];
  }

  /** Asking for the cluster after the end of a chain, or for a first one. */
  lemma StretchRequest(t: Table, eoc: nat, free: nat, last: nat, ch: seq<nat>)
    requires |t| >= 3 && IsChain(t, ch) && eoc >= |t|
    ensures var p := if ch == [] then 0 else ch[|ch| - 1];
            var r, u := CreateReply(t, free, last, p), CreateTable(t, eoc, free, last, p);
            && (forall c :: 0 <= c < |t| && c !in FreeSet(t) + Elems(ch) ==> u[c] == t[c]) &&
            if r >= 2 then
              && 2 <= r < |t| && t[r] == 0 && u[r] == eoc && r in FreeSet(t)
              && IsChain(u, ch + [r])
              && FreeSet(u) + Elems(ch + [r]) == FreeSet(t) + Elems(ch)
            else
              && u == t
              && (r == 0 ==> free == 0 || FreeSet(t) == {})
              && (r == 1 ==> Corrupt(t))
  {
    var p := if ch == [] then 0 else ch[|ch| - 1];
    var r, u := CreateReply(t, free, last, p), CreateTable(t, eoc, free, last, p);
    PickSound(t, p, last);
    if r >= 2 {
      assert Allocates(t, free, last, p);
      GrowChain(t, eoc, ch, r);
      assert Elems(ch + [r]) == Elems(ch) + {r};
    }
  }

  /** A request changes no entry but those of the two clusters it links. */
  lemma RequestTouches(t: Table, eoc: nat, free: nat, last: nat, clst: nat)
    requires |t| >= 3 && clst < |t|
    ensures var r, u := CreateReply(t, free, last, clst), CreateTable(t, eoc, free, last, clst);
            forall c :: 0 <= c < |t| && c != r && c != clst ==> u[c] == t[c]
  {
    PickSound(t, clst, last);
  }

  // ---- counting by scan -----------------------------------------------------

  /** Zero entries among the first `k`, counted as a scan does. */
  ghost function Zeros(t: Table, k: nat): nat
    requires k <= |t|
  {
    if k == 0 then 0 else Zeros(t, k - 1) + if t[k - 1] == 0 then 1 else 0
  }

  lemma {:induction false} ZerosFree(t: Table, k: nat)
    requires 2 <= k <= |t|
    ensures Zeros(t, k) == |FreeSet(t[..k])| + (if t[0] == 0 then 1 else 0) + if t[1] == 0 then 1 else 0
  {
    if k == 2 {
      assert FreeSet(t[..2]) == {};
      assert Zeros(t, 1) == if t[0] == 0 then 1 else 0;
    } else {
      ZerosFree(t, k - 1);
      assert FreeSet(t[..k]) == FreeSet(t[..k - 1]) + if t[k - 1] == 0 then {k - 1} else {};
    }
  }

  lemma ZerosNext(t: Table, k: nat)
    requires k < |t|
    ensures Zeros(t, k + 1) == Zeros(t, k) + if t[k] == 0 then 1 else 0
  {
  }

  /** Zero entries behind the two reserved ones are the free clusters. */
  lemma ZerosAll(t: Table)
    requires |t| >= 2
    ensures Zeros(t, |t|) == Zeros(t, 2) + |FreeSet(t)|
  {
    ZerosFree(t, |t|);
    assert t[..|t|] == t;
    assert Zeros(t, 1) == if t[0] == 0 then 1 else 0;
  }

  /** A raw scan of the whole table counts the free clusters exactly when the
      two reserved entries are not zero. */
  lemma RawScanExact(t: Table)
    requires |t| >= 2
    ensures Zeros(t, |t|) == |FreeSet(t)| <==> t[0] != 0 && t[1] != 0
  {
    ZerosFree(t, |t|);
    assert t[..|t|] == t;
  }

  // ---- the whole forest ---------------------------------------------------

  lemma ChainKept(t: Table, u: Table, ch: seq<nat>)
    requires IsChain(t, ch) && |u| == |t| && forall c :: c in ch ==> u[c] == t[c]
    ensures IsChain(u, ch)
  {
  }

  lemma ChainUsed(t: Table, ch: seq<nat>, c: nat)
    requires IsChain(t, ch) && c in ch
    ensures 2 <= c < |t| && t[c] != 0
  {
    var i :| 0 <= i < |ch| && ch[i] == c;
    if i < |ch| - 1 { assert t[ch[i]] == ch[i + 1]; }
  }

  /** A fresh chain of one free cluster keeps the forest. */
  lemma ForestCreate(t: Table, eoc: nat, cs: seq<seq<nat>>, c: nat)
    requires Forest(t, cs) && 2 <= c < |t| && t[c] == 0 && eoc >= |t|
    ensures Forest(Grown(t, eoc, c, 0), cs + [[c]])
    ensures Accounted(t, cs) ==> Accounted(Grown(t, eoc, c, 0), cs + [[c]])
  {
    var u := Grown(t, eoc, c, 0);
    var ds := cs + [[c]];
    forall i | 0 <= i < |cs| ensures c !in cs[i] && IsChain(u, cs[i]) {
      if c in cs[i] { ChainUsed(t, cs[i], c); }
      ChainKept(t, u, cs[i]);
    }
    assert ds[|cs|] == [c] && IsChain(u, [c]);
    if Accounted(t, cs) {
      forall d | 2 <= d < |u| && u[d] != 0 ensures Owned(ds, d) {
        if d == c { assert d in ds[|cs|]; } else {
          var i :| 0 <= i < |cs| && d in cs[i];
          assert d in ds[i];
        }
      }
    }
  }

  /** Stretching chain `k` by a free cluster keeps the forest. */
  lemma ForestStretch(t: Table, eoc: nat, cs: seq<seq<nat>>, k: nat, c: nat)
    requires Forest(t, cs) && k < |cs| && 2 <= c < |t| && t[c] == 0 && eoc >= |t|
    ensures Forest(Grown(t, eoc, c, cs[k][|cs[k]| - 1]), cs[k := cs[k] + [c]])
  {
    var p := cs[k][|cs[k]| - 1];
    var u := Grown(t, eoc, c, p);
    var ds := cs[k := cs[k] + [c]];
    assert p in cs[k];
    GrowChain(t, eoc, cs[k], c);
    assert ds[k] == cs[k] + [c];
    forall i | 0 <= i < |cs| ensures c !in cs[i] && IsChain(u, ds[i]) {
      if c in cs[i] { ChainUsed(t, cs[i], c); }
      if i != k {
        assert p !in cs[i];
        ChainKept(t, u, cs[i]);
      }
    }
    assert forall i, d :: 0 <= i < |ds| && d in ds[i] ==> d in cs[i] || (i == k && d == c);
  }

  lemma AccountedStretch(t: Table, eoc: nat, cs: seq<seq<nat>>, k: nat, c: nat)
    requires Forest(t, cs) && Accounted(t, cs) && k < |cs| && 2 <= c < |t| && t[c] == 0
    ensures Accounted(Grown(t, eoc, c, cs[k][|cs[k]| - 1]), cs[k := cs[k] + [c]])
  {
    var p := cs[k][|cs[k]| - 1];
    ChainUsed(t, cs[k], p);
    var u := Grown(t, eoc, c, p);
    var ds := cs[k := cs[k] + [c]];
    forall d | 2 <= d < |u| && u[d] != 0 ensures Owned(ds, d) {
      if d == c { assert d in ds[k]; } else {
        assert Owned(cs, d);
        var i :| 0 <= i < |cs| && d in cs[i];
        assert d in ds[i];
      }
    }
  }

  /** The chains left when chain `k` is cut at position `j`. */
  function Pruned(cs: seq<seq<nat>>, k: nat, j: nat): (ds: seq<seq<nat>>)
    requires k < |cs| && j <= |cs[k]|
  {
    if j == 0 then cs[..k] + cs[k + 1..] else cs[k := cs[k][..j]]
  }

  /** Where the clusters of a pruned forest come from. */
  lemma PrunedAt(cs: seq<seq<nat>>, k: nat, j: nat, i: nat)
    requires k < |cs| && j <= |cs[k]| && i < |Pruned(cs, k, j)|
    ensures Pruned(cs, k, j)[i] ==
            if j > 0 && i == k then cs[k][..j] else if j == 0 && i >= k then cs[i + 1] else cs[i]
  {
  }

  /** Cutting chain `k` at position `j` keeps the forest. */
  lemma ForestRemove(t: Table, eoc: nat, cs: seq<seq<nat>>, k: nat, j: nat)
    requires Forest(t, cs) && k < |cs| && j < |cs[k]| && eoc >= |t|
    ensures Forest(Cut(t, eoc, cs[k], j), Pruned(cs, k, j))
  {
    var u := Cut(t, eoc, cs[k], j);
    var ds := Pruned(cs, k, j);
    RemoveTail(t, eoc, cs[k], j);
    forall i | 0 <= i < |cs| && i != k ensures IsChain(u, cs[i]) {
      assert forall c :: c in cs[i] ==> c !in cs[k];
      ChainKept(t, u, cs[i]);
    }
    assert forall c :: c in cs[k][..j] ==> c in cs[k];
    forall i | 0 <= i < |ds| ensures |ds[i]| > 0 && IsChain(u, ds[i]) {
      PrunedAt(cs, k, j, i);
    }
    forall i, m, c | 0 <= i < m < |ds| && c in ds[i] ensures c !in ds[m] {
      PrunedAt(cs, k, j, i);
      PrunedAt(cs, k, j, m);
    }
  }

  lemma CutFree(t: Table, eoc: nat, ch: seq<nat>, k: nat)
    requires IsChain(t, ch) && k < |ch|
    ensures forall d :: 0 <= d < |t| && Cut(t, eoc, ch, k)[d] != 0 ==> d !in ch[k..] && t[d] != 0
  {
    if k > 0 { assert t[ch[k - 1]] == ch[k]; }
  }

  lemma AccountedRemove(t: Table, eoc: nat, cs: seq<seq<nat>>, k: nat, j: nat)
    requires Forest(t, cs) && Accounted(t, cs) && k < |cs| && j < |cs[k]| && eoc >= |t|
    ensures Accounted(Cut(t, eoc, cs[k], j), Pruned(cs, k, j))
  {
    hide Removed, Pruned, Elems, Owned, Sweep;
    var u := Cut(t, eoc, cs[k], j);
    RemoveTail(t, eoc, cs[k], j);
    CutFree(t, eoc, cs[k], j);
    forall d | 2 <= d < |u| && u[d] != 0 ensures Owned(Pruned(cs, k, j), d) {
      assert d !in cs[k][j..] && t[d] != 0;
      OwnedPruned(cs, k, j, d);
    }
  }

  lemma OwnedPruned(cs: seq<seq<nat>>, k: nat, j: nat, d: nat)
    requires k < |cs| && j < |cs[k]| && Owned(cs, d) && d !in cs[k][j..]
    ensures Owned(Pruned(cs, k, j), d)
  {
    var i :| 0 <= i < |cs| && d in cs[i];
    var e := if i > k && j == 0 then i - 1 else i;
    if i == k {
      var m :| 0 <= m < |cs[k]| && cs[k][m] == d;
      assert d == cs[k][..j][m];
    }
    PrunedAt(cs, k, j, e);
    assert d in Pruned(cs, k, j)[e];
  }

  ghost function TotalLength(cs: seq<seq<nat>>): nat {
    if cs == [] then 0 else |cs[0]| + TotalLength(cs[1..])
  }

  ghost function Union(cs: seq<seq<nat>>): set<nat> {
    if cs == [] then {} else Elems(cs[0]) + Union(cs[1..])
  }

  lemma {:induction false} ElemsSize(ch: seq<nat>)
    requires Distinct(ch)
    ensures |Elems(ch)| == |ch|
  {
    if ch == [] {
      assert Elems(ch) == {};
    } else {
      var rest := ch[1..];
      ElemsSize(rest);
      assert ch == [ch[0]] + rest;
      assert Elems(ch) == Elems(rest) + {ch[0]};
    }
  }

  lemma {:induction false} UnionSize(t: Table, cs: seq<seq<nat>>)
    requires Forest(t, cs)
    ensures |Union(cs)| == TotalLength(cs)
    ensures forall c :: c in Union(cs) <==> Owned(cs, c)
  {
    if cs != [] {
      assert IsChain(t, cs[0]) && Distinct(cs[0]);
      hide IsChain, Distinct;
      var rest := cs[1..];
      assert forall i :: 0 <= i < |rest| ==> rest[i] == cs[i + 1];
      UnionSize(t, rest);
      ElemsSize(cs[0]);
      forall c | c in Union(rest) ensures c !in Elems(cs[0]) {
        assert Owned(rest, c);
        var i :| 0 <= i < |rest| && c in rest[i];
        assert c in cs[i + 1];
      }
      forall c ensures c in Union(cs) <==> Owned(cs, c) {
        if i :| 0 <= i < |cs| && c in cs[i] {
          if i > 0 { assert c in rest[i - 1]; }
        }
        if c in Union(rest) {
          assert Owned(rest, c);
          var i :| 0 <= i < |rest| && c in rest[i];
          assert c in cs[i + 1];
        }
      }
    }
  }

  /** Conservation: free clusters and the clusters of the chains are together
      all clusters of the volume. */
  lemma Conservation(t: Table, cs: seq<seq<nat>>)
    requires |t| >= 2 && Forest(t, cs) && Accounted(t, cs)
    ensures |FreeSet(t)| + TotalLength(cs) == |t| - 2
  {
    UnionSize(t, cs);
    UsedIsUnion(t, cs);
    assert Clusters(|t|) == FreeSet(t) + UsedSet(t) && FreeSet(t) !! UsedSet(t);
  }

  lemma UsedIsUnion(t: Table, cs: seq<seq<nat>>)
    requires Forest(t, cs) && Accounted(t, cs)
    ensures UsedSet(t) == Union(cs)
  {
    UnionSize(t, cs);
    forall c | c in Union(cs) ensures c in UsedSet(t) {
      assert Owned(cs, c);
      var i :| 0 <= i < |cs| && c in cs[i];
      ChainUsed(t, cs[i], c);
    }
  }
}
