/** Matching names against `?` and `*` patterns. */
module Wildcard {
  import opened Bytes
  import opened CodePage

  const QUERY: Byte := 0x3F
  const STAR: Byte := 0x2A

  predicate IsWild(c: Byte) { c == QUERY || c == STAR }

  // ---- what a pattern means -----------------------------------------------

  /** `?` is any one character, `*` any string, other characters themselves up
      to case. */
  ghost predicate Glob(p: seq<Byte>, n: seq<Byte>)
    decreases |p| + |n|
  {
    if p == [] then n == []
    else if p[0] == QUERY then n != [] && Glob(p[1..], n[1..])
    else if p[0] == STAR then Glob(p[1..], n) || (n != [] && Glob(p, n[1..]))
    else n != [] && Upper(p[0]) == Upper(n[0]) && Glob(p[1..], n[1..])
  }

  /** The same by the pattern's first byte: 0x2A stands for any string, 0x3F for any
      one character, every other byte for itself in either case. */
  lemma GlobMeans(c: Byte, p: seq<Byte>, n: seq<Byte>)
    ensures Glob([], n) <==> n == []
    ensures c == 0x2A ==> (Glob([c] + p, n) <==> exists j :: 0 <= j <= |n| && Glob(p, n[j..]))
    ensures c == 0x3F ==> (Glob([c] + p, n) <==> n != [] && Glob(p, n[1..]))
    ensures c != 0x2A && c != 0x3F ==>
              (Glob([c] + p, n) <==> n != [] && Upper(c) == Upper(n[0]) && Glob(p, n[1..]))
  {
    hide Upper;
    assert ([c] + p)[1..] == p;
    if c == 0x2A { StarMeans(p, n); }
  }

  lemma {:induction false} StarMeans(p: seq<Byte>, n: seq<Byte>)
    ensures Glob([0x2A] + p, n) <==> exists j :: 0 <= j <= |n| && Glob(p, n[j..])
    decreases |n|
  {
    hide Upper;
    assert ([0x2A] + p)[1..] == p && n[0..] == n;
    if n != [] {
      StarMeans(p, n[1..]);
      assert forall j :: 0 <= j < |n| ==> n[1..][j..] == n[j + 1..];
      if j :| 1 <= j <= |n| && Glob(p, n[j..]) { assert n[1..][j - 1..] == n[j..]; }
    }
  }

  /** Length of the wildcard term a pattern starts with. */
  function TermLength(p: seq<Byte>): (k: nat)
    ensures k <= |p|
    ensures forall i :: 0 <= i < k ==> IsWild(p[i])
    ensures k < |p| ==> !IsWild(p[k])
  {
    if p == [] || !IsWild(p[0]) then 0 else 1 + TermLength(p[1..])
  }

  function Queries(w: seq<Byte>): nat {
    if w == [] then 0 else Queries(w[1..]) + if w[0] == QUERY then 1 else 0
  }

  predicate HasStar(w: seq<Byte>) { STAR in w }

  /** A literal, or a run of wildcards: `k` characters and, with `star`, any more. */
  datatype Token = Lit(c: Byte) | Wild(k: nat, star: bool)

  function Tokens(p: seq<Byte>): seq<Token> {
    if p == [] then []
    else if IsWild(p[0]) then
      var l := TermLength(p);
      [Wild(Queries(p[..l]), HasStar(p[..l]))] + Tokens(p[l..])
    else [Lit(p[0])] + Tokens(p[1..])
  }

  ghost predicate GlobTokens(ts: seq<Token>, n: seq<Byte>)
    decreases |ts|
  {
    if ts == [] then n == []
    else match ts[0]
         case Lit(c) => n != [] && Upper(c) == Upper(n[0]) && GlobTokens(ts[1..], n[1..])
         case Wild(k, star) =>
           if star then exists j :: k <= j <= |n| && GlobTokens(ts[1..], n[j..])
           else k <= |n| && GlobTokens(ts[1..], n[k..])
  }

  /** A run of wildcards at the front of a pattern. */
  lemma {:induction false} GlobTerm(w: seq<Byte>, p: seq<Byte>, n: seq<Byte>)
    requires forall i :: 0 <= i < |w| ==> IsWild(w[i])
    ensures Glob(w + p, n) <==>
            if HasStar(w) then exists j :: Queries(w) <= j <= |n| && Glob(p, n[j..])
            else Queries(w) <= |n| && Glob(p, n[Queries(w)..])
    decreases |w| + |n|
  {
    if w == [] {
      assert w + p == p && n[0..] == n;
    } else {
      var v := w[1..];
      assert w == [w[0]] + v && (w + p)[1..] == v + p;
      if w[0] == QUERY {
        if n != [] {
          GlobTerm(v, p, n[1..]);
          ShiftBy1(p, n, Queries(v));
        }
      } else {
        GlobTerm(v, p, n);
        if n != [] {
          GlobTerm(w, p, n[1..]);
          ShiftBy1(p, n, Queries(v));
        }
        StarStep(v, p, n, Queries(v));
      }
    }
  }

  /** Suffixes of the tail are suffixes of the whole. */
  lemma ShiftBy1(p: seq<Byte>, n: seq<Byte>, q: nat)
    requires n != []
    ensures forall j :: 1 <= j <= |n| ==> n[1..][j - 1..] == n[j..]
    ensures (exists j :: q <= j <= |n[1..]| && Glob(p, n[1..][j..])) <==>
            (exists j :: q + 1 <= j <= |n| && Glob(p, n[j..]))
  {
    if j :| q <= j <= |n[1..]| && Glob(p, n[1..][j..]) {
      assert n[1..][j..] == n[j + 1..];
    }
    if j :| q + 1 <= j <= |n| && Glob(p, n[j..]) {
      assert n[1..][j - 1..] == n[j..];
    }
  }

  /** A star takes nothing, or one character and goes on. */
  lemma StarStep(v: seq<Byte>, p: seq<Byte>, n: seq<Byte>, q: nat)
    requires q == Queries(v)
    ensures (exists j :: q <= j <= |n| && Glob(p, n[j..])) <==>
            (q <= |n| && Glob(p, n[q..])) || (exists j :: q + 1 <= j <= |n| && Glob(p, n[j..]))
  {
  }

  /** The character meaning of a pattern and its meaning term by term agree. */
  lemma {:induction false} GlobIsTokens(p: seq<Byte>, n: seq<Byte>)
    ensures Glob(p, n) <==> GlobTokens(Tokens(p), n)
    decreases |p|
  {
    if p != [] {
      if IsWild(p[0]) {
        var l := TermLength(p);
        var w, rest := p[..l], p[l..];
        assert w + rest == p;
        GlobTerm(w, rest, n);
        var ts := Tokens(rest);
        assert Tokens(p)[1..] == ts;
        forall j | 0 <= j <= |n| ensures Glob(rest, n[j..]) <==> GlobTokens(ts, n[j..]) {
          GlobIsTokens(rest, n[j..]);
        }
        assert forall j :: 0 <= j <= |n| ==> (Glob(rest, n[j..]) <==> GlobTokens(ts, n[j..]));
      } else {
        assert Tokens(p)[1..] == Tokens(p[1..]);
        if n != [] { GlobIsTokens(p[1..], n[1..]); }
      }
    }
  }

  // ---- what the code computes -----------------------------------------------

  /** The running code of a wildcard term: a count in the low byte, bit 8 and up
      for a star; the count carries into bit 8. */
  function TermStep(sk: nat, c: Byte): nat {
    if c == QUERY then sk + 1 else if sk / 256 % 2 == 1 then sk else sk + 256
  }

  function TermCode(w: seq<Byte>): nat {
    if w == [] then 0 else TermStep(TermCode(w[..|w| - 1]), w[|w| - 1])
  }

  /** The code's reading of a pattern at the start of a name, with `r` wildcard
      terms still allowed. */
  ghost predicate Here(p: seq<Byte>, n: seq<Byte>, r: nat)
    decreases |p|, 0
  {
    if p == [] then n == []
    else if IsWild(p[0]) then
      var l := TermLength(p);
      r > 0 && After(p[l..], n, TermCode(p[..l]), r - 1)
    else n != [] && Upper(p[0]) == Upper(n[0]) && Here(p[1..], n[1..], r)
  }

  /** The same behind a wildcard term of code `sk`. */
  ghost predicate After(p: seq<Byte>, n: seq<Byte>, sk: nat, r: nat)
    decreases |p|, 1
  {
    && sk % 256 <= |n|
    && if sk >= 256 then exists j :: sk % 256 <= j <= |n| && Here(p, n[j..], r)
       else Here(p, n[sk..], r)
  }

  /** Literals before the first wildcard. */
  function LiteralRun(p: seq<Byte>): nat {
    if p == [] || IsWild(p[0]) then 0 else 1 + LiteralRun(p[1..])
  }

  lemma {:induction false} NeedsLiterals(p: seq<Byte>, n: seq<Byte>, r: nat)
    requires Here(p, n, r)
    ensures |n| >= LiteralRun(p)
  {
    if p != [] && !IsWild(p[0]) {
      NeedsLiterals(p[1..], n[1..], r);
    }
  }

  lemma {:induction false} RunCovers(p: seq<Byte>, k: nat)
    requires k <= |p| && forall i :: 0 <= i < k ==> !IsWild(p[i])
    ensures LiteralRun(p) == k + LiteralRun(p[k..])
  {
    if k > 0 {
      RunCovers(p[1..], k - 1);
      assert p[1..][k - 1..] == p[k..];
    } else {
      assert p[0..] == p;
    }
  }

  /** With no term left to spend, a pattern that still has one matches nothing. */
  lemma {:induction false} NoTermsLeft(p: seq<Byte>, n: seq<Byte>, i: nat)
    requires i < |p| && IsWild(p[i])
    ensures !Here(p, n, 0)
  {
    if !IsWild(p[0]) && n != [] {
      NoTermsLeft(p[1..], n[1..], i - 1);
    }
  }

  /** Character at `i`, upper-cased; 0 at the end. */
  function CharAt(s: seq<Byte>, i: nat): Byte {
    if i < |s| then Upper(s[i]) else 0
  }

  /** The matcher: `skip` characters (and, from 256 on, any more) may go first. */
  method PatternMatch(pat: seq<Byte>, nam: seq<Byte>, skip0: nat, recur: nat) returns (r: bool)
    requires 0 !in pat && 0 !in nam
    ensures r == After(pat, nam, skip0, recur)
    decreases recur
  {
    hide Here, Upper;
    var skip, n, enough := PreSkip(|nam|, skip0);
    if !enough { return false; }
    if |pat| == 0 && skip != 0 {
      NothingLeft(nam, recur);
      assert pat == [] && Here(pat, nam[|nam|..], recur);
      return true;
    }
    ghost var start := n;
    while true
      invariant start <= n <= |nam|
      invariant forall j :: start <= j < n ==> !Here(pat, nam[j..], recur)
      invariant n > start ==> skip != 0
      decreases |nam| - n
    {
      var more;
      r, more := TryAt(pat, nam, n, recur);
      if r { return true; }
      if skip == 0 || !more { return false; }
      n := n + 1;
    }
  }

  lemma NothingLeft(nam: seq<Byte>, r: nat)
    ensures Here([], nam[|nam|..], r)
  {
  }

  /** Skips the counted characters of a name of length `len`. */
  method PreSkip(len: nat, skip0: nat) returns (skip: nat, n: nat, enough: bool)
    ensures enough <==> skip0 % 256 <= len
    ensures enough ==> n == skip0 % 256 && (skip != 0 <==> skip0 >= 256)
  {
    ghost var h, m := skip0 / 256, skip0 % 256;
    assert skip0 == 256 * h + m;
    skip, n := skip0, 0;
    RemainderUnique(skip, 256, h, m - n);
    while skip % 256 != 0
      invariant n <= len && n <= m
      invariant skip == 256 * h + (m - n) && skip % 256 == m - n
    {
      if n == len { return skip, n, false; }
      n := n + 1;
      skip := skip - 1;
      RemainderUnique(skip, 256, h, m - n);
    }
    enough := true;
  }

  /** One attempt at position `n` of the name. On a mismatch `more` is false when
      no later position can match either. */
  method TryAt(pat: seq<Byte>, nam: seq<Byte>, n: nat, recur: nat) returns (r: bool, more: bool)
    requires 0 !in pat && 0 !in nam && n <= |nam|
    ensures r == Here(pat, nam[n..], recur)
    ensures !r && more ==> n < |nam|
    ensures !r && !more ==> forall j :: n < j <= |nam| ==> !Here(pat, nam[j..], recur)
    decreases recur, 1
  {
    hide Upper, TermLength, TermCode;
    var p, q: nat := 0, n;
    while true
      invariant p <= |pat| && q <= |nam| && q == n + p
      invariant forall i :: 0 <= i < p ==> !IsWild(pat[i])
      invariant Here(pat, nam[n..], recur) == Here(pat[p..], nam[q..], recur)
      decreases |pat| - p
    {
      if p < |pat| && IsWild(pat[p]) {
        r, more := TryTerm(pat, nam, n, p, recur);
        return;
      }
      var pchr, nchr := CharAt(pat, p), CharAt(nam, q);
      CharNotZero(pat, p);
      CharNotZero(nam, q);
      if pchr != nchr {
        MismatchHere(pat, nam, n, p, recur);
        return false, nchr != 0;
      }
      if pchr == 0 {
        assert pat[p..] == [] && nam[q..] == [];
        return true, false;
      }
      assert pat[p..][1..] == pat[p + 1..] && nam[q..][1..] == nam[q + 1..];
      p, q := p + 1, q + 1;
    }
  }

  lemma CharNotZero(s: seq<Byte>, i: nat)
    requires 0 !in s
    ensures CharAt(s, i) == 0 <==> i >= |s|
  {
    if i < |s| {
      assert s[i] in s;
      UpperIdempotent(s[i]);
    }
  }

  lemma MismatchHere(pat: seq<Byte>, nam: seq<Byte>, n: nat, p: nat, recur: nat)
    requires 0 !in pat && 0 !in nam && p <= |pat| && n + p <= |nam|
    requires forall i :: 0 <= i < p ==> !IsWild(pat[i])
    requires p < |pat| ==> !IsWild(pat[p])
    requires CharAt(pat, p) != CharAt(nam, n + p)
    ensures !Here(pat[p..], nam[n + p..], recur)
    ensures CharAt(nam, n + p) != 0 ==> n < |nam|
    ensures CharAt(nam, n + p) == 0 ==> forall j :: n < j <= |nam| ==> !Here(pat, nam[j..], recur)
  {
    CharNotZero(pat, p);
    CharNotZero(nam, n + p);
    if n + p == |nam| {
      RunCovers(pat, p);
      forall j | n < j <= |nam| ensures !Here(pat, nam[j..], recur) {
        if Here(pat, nam[j..], recur) { NeedsLiterals(pat, nam[j..], recur); }
      }
    }
  }

  /** At a wildcard term: spends one, and matches the rest of the pattern behind it. */
  method TryTerm(pat: seq<Byte>, nam: seq<Byte>, n: nat, p0: nat, recur: nat) returns (r: bool, more: bool)
    requires 0 !in pat && 0 !in nam && p0 < |pat| && n + p0 <= |nam| && IsWild(pat[p0])
    requires forall i :: 0 <= i < p0 ==> !IsWild(pat[i])
    ensures r == Here(pat[p0..], nam[n + p0..], recur)
    ensures !r && more ==> n < |nam|
    ensures !r && !more ==> forall j :: n < j <= |nam| ==> !Here(pat, nam[j..], recur)
    decreases recur, 0
  {
    if recur == 0 {
      forall j | n <= j <= |nam| ensures !Here(pat, nam[j..], 0) { NoTermsLeft(pat, nam[j..], p0); }
      return false, false;
    }
    var p, sk := ScanTerm(pat, p0);
    assert pat[p0..][p - p0..] == pat[p..] && pat[p0..][..p - p0] == pat[p0..p];
    r := PatternMatch(pat[p..], nam[n + p0..], sk, recur - 1);
    more := n + p0 < |nam|;
    if !more {
      RunCovers(pat, p0);
      forall j | n < j <= |nam| ensures !Here(pat, nam[j..], recur) {
        if Here(pat, nam[j..], recur) { NeedsLiterals(pat, nam[j..], recur); }
      }
    }
  }

  /** Analyzes the wildcard term at `p0`: where it ends, and its code. */
  method ScanTerm(pat: seq<Byte>, p0: nat) returns (p: nat, sk: nat)
    requires p0 < |pat| && IsWild(pat[p0])
    ensures p0 < p <= |pat| && p - p0 == TermLength(pat[p0..]) && sk == TermCode(pat[p0..p])
  {
    p, sk := p0, 0;
    while true
      invariant p0 <= p < |pat| && IsWild(pat[p])
      invariant forall i :: p0 <= i <= p ==> IsWild(pat[i])
      invariant sk == TermCode(pat[p0..p])
      decreases |pat| - p
    {
      assert pat[p0..p + 1][..p - p0] == pat[p0..p];
      sk := if pat[p] == QUERY then sk + 1 else if sk / 256 % 2 == 1 then sk else sk + 256;
      p := p + 1;
      if !(p < |pat| && IsWild(pat[p])) { break; }
    }
    TermIs(pat[p0..], p - p0);
  }

  lemma {:induction false} TermIs(p: seq<Byte>, k: nat)
    requires k <= |p| && (forall i :: 0 <= i < k ==> IsWild(p[i])) && (k < |p| ==> !IsWild(p[k]))
    ensures TermLength(p) == k
  {
    if k > 0 {
      TermIs(p[1..], k - 1);
    }
  }

  // ---- what the code accepts, against what the pattern means ------------------

  lemma {:induction false} QueriesBack(w: seq<Byte>, c: Byte)
    ensures Queries(w + [c]) == Queries(w) + if c == QUERY then 1 else 0
  {
    if w != [] {
      QueriesBack(w[1..], c);
      assert (w + [c])[1..] == w[1..] + [c];
    }
  }

  /** A term's code keeps its count modulo 256, and says "any more" for a star
      or a count that left the low byte. */
  lemma {:induction false} TermCodeMeans(w: seq<Byte>)
    requires forall i :: 0 <= i < |w| ==> IsWild(w[i])
    ensures TermCode(w) % 256 == Queries(w) % 256
    ensures TermCode(w) >= 256 <==> HasStar(w) || Queries(w) >= 256
    ensures TermCode(w) >= Queries(w)
  {
    if w != [] {
      var v, c := w[..|w| - 1], w[|w| - 1];
      assert w == v + [c];
      TermCodeMeans(v);
      QueriesBack(v, c);
      CodeGap(TermCode(v), Queries(v), HasStar(v), c);
    }
  }

  /** One more wildcard: `t` is the code and `q` the count so far. */
  lemma CodeGap(t: nat, q: nat, star: bool, c: Byte)
    requires t % 256 == q % 256 && IsWild(c) && t >= q
    requires t >= 256 <==> star || q >= 256
    ensures TermStep(t, c) % 256 == (q + if c == QUERY then 1 else 0) % 256
    ensures TermStep(t, c) >= 256 <==> star || c == STAR || q + (if c == QUERY then 1 else 0) >= 256
  {
    var a, b, m := t / 256, q / 256, t % 256;
    assert t == 256 * a + m && q == 256 * b + m;
    if c == QUERY {
      if m == 255 {
        RemainderUnique(t + 1, 256, a + 1, 0);
        RemainderUnique(q + 1, 256, b + 1, 0);
      } else {
        RemainderUnique(t + 1, 256, a, m + 1);
        RemainderUnique(q + 1, 256, b, m + 1);
      }
    } else {
      RemainderUnique(t + 256, 256, a + 1, m);
    }
  }

  /** The pattern the code effectively matches: counts modulo 256, a count of
      256 or more acting as a star. */
  function Reduce(ts: seq<Token>): (rs: seq<Token>)
    ensures |rs| == |ts|
  {
    if ts == [] then []
    else [match ts[0]
          case Lit(c) => ts[0]
          case Wild(k, star) => Wild(k % 256, star || k >= 256)] + Reduce(ts[1..])
  }

  function Terms(ts: seq<Token>): nat {
    if ts == [] then 0 else Terms(ts[1..]) + if ts[0].Wild? then 1 else 0
  }

  /** The matcher accepts a name exactly when the pattern has at most `r`
      wildcard terms and its reduced form matches. */
  lemma {:induction false} HereMeans(p: seq<Byte>, n: seq<Byte>, r: nat)
    ensures Here(p, n, r) <==> Terms(Tokens(p)) <= r && GlobTokens(Reduce(Tokens(p)), n)
    decreases |p|
  {
    if p != [] {
      if IsWild(p[0]) {
        var l := TermLength(p);
        var w, rest, ts := p[..l], p[l..], Tokens(p[l..]);
        assert Tokens(p)[1..] == ts;
        assert Reduce(Tokens(p))[1..] == Reduce(ts);
        TermCodeMeans(w);
        if r > 0 {
          forall j | 0 <= j <= |n|
            ensures Here(rest, n[j..], r - 1) <==> Terms(ts) <= r - 1 && GlobTokens(Reduce(ts), n[j..])
          {
            HereMeans(rest, n[j..], r - 1);
          }
        }
        AfterMeans(rest, ts, n, TermCode(w), r, Wild(Queries(w) % 256, HasStar(w) || Queries(w) >= 256));
      } else {
        assert Tokens(p)[1..] == Tokens(p[1..]);
        assert Reduce(Tokens(p))[1..] == Reduce(Tokens(p[1..]));
        if n != [] { HereMeans(p[1..], n[1..], r); }
      }
    }
  }

  lemma AfterMeans(rest: seq<Byte>, ts: seq<Token>, n: seq<Byte>, sk: nat, r: nat, t: Token)
    requires t.Wild? && t.k == sk % 256 && (t.star <==> sk >= 256)
    requires r > 0 ==> forall j :: 0 <= j <= |n| ==>
               (Here(rest, n[j..], r - 1) <==> Terms(ts) <= r - 1 && GlobTokens(Reduce(ts), n[j..]))
    ensures (r > 0 && After(rest, n, sk, r - 1)) <==> Terms(ts) + 1 <= r && GlobTokens([t] + Reduce(ts), n)
  {
    var us := [t] + Reduce(ts);
    assert us[1..] == Reduce(ts) && us[0] == t;
    var k := sk % 256;
    if sk < 256 { assert k == sk; }
    if r > 0 && sk >= 256 {
      assert After(rest, n, sk, r - 1) <==> k <= |n| && exists j :: k <= j <= |n| && Here(rest, n[j..], r - 1);
    }
  }

  // ---- when the two agree -----------------------------------------------------

  /** Every term stays below 256 question marks. */
  predicate SmallCounts(ts: seq<Token>) {
    forall i :: 0 <= i < |ts| && ts[i].Wild? ==> ts[i].k < 256
  }

  function Least(ts: seq<Token>): nat {
    if ts == [] then 0 else Least(ts[1..]) + match ts[0] case Lit(_) => 1 case Wild(k, _) => k
  }

  /** A name the pattern accepts, as short as can be. */
  function Sample(ts: seq<Token>): (n: seq<Byte>)
    ensures |n| == Least(ts)
  {
    if ts == [] then []
    else (match ts[0] case Lit(c) => [c] case Wild(k, _) => seq(k, _ => 0x41)) + Sample(ts[1..])
  }

  lemma {:induction false} SampleMatches(ts: seq<Token>)
    ensures GlobTokens(ts, Sample(ts))
  {
    if ts != [] {
      SampleMatches(ts[1..]);
      var k := if ts[0].Lit? then 1 else ts[0].k;
      assert Sample(ts)[k..] == Sample(ts[1..]);
    }
  }

  lemma {:induction false} SampleClean(ts: seq<Token>)
    requires forall i :: 0 <= i < |ts| && ts[i].Lit? ==> ts[i].c != 0
    ensures 0 !in Sample(ts)
  {
    if ts != [] {
      SampleClean(ts[1..]);
    }
  }

  lemma {:induction false} LeastNeeded(ts: seq<Token>, n: seq<Byte>)
    requires GlobTokens(ts, n)
    ensures |n| >= Least(ts)
  {
    if ts != [] {
      match ts[0]
      case Lit(c) => LeastNeeded(ts[1..], n[1..]);
      case Wild(k, star) =>
        if star {
          var j :| k <= j <= |n| && GlobTokens(ts[1..], n[j..]);
          LeastNeeded(ts[1..], n[j..]);
        } else {
          LeastNeeded(ts[1..], n[k..]);
        }
    }
  }

  lemma {:induction false} ReduceSmall(ts: seq<Token>)
    ensures SmallCounts(ts) ==> Reduce(ts) == ts
    ensures Least(Reduce(ts)) <= Least(ts)
    ensures !SmallCounts(ts) ==> Least(Reduce(ts)) < Least(ts)
    ensures forall i :: 0 <= i < |ts| && Reduce(ts)[i].Lit? ==> ts[i] == Reduce(ts)[i]
  {
    if ts != [] {
      ReduceSmall(ts[1..]);
      assert ts == [ts[0]] + ts[1..];
      if SmallCounts(ts) { assert forall i :: 0 <= i < |ts[1..]| ==> ts[1..][i] == ts[i + 1]; }
      if SmallCounts(ts[1..]) && (ts[0].Wild? ==> ts[0].k < 256) {
        assert forall i :: 0 < i < |ts| ==> ts[i] == ts[1..][i - 1];
      }
    }
  }

  lemma {:induction false} TokensClean(p: seq<Byte>)
    requires 0 !in p
    ensures forall i :: 0 <= i < |Tokens(p)| && Tokens(p)[i].Lit? ==> Tokens(p)[i].c != 0
    decreases |p|
  {
    if p != [] {
      assert p[0] in p;
      var l := if IsWild(p[0]) then TermLength(p) else 1;
      assert forall c :: c in p[l..] ==> c in p;
      TokensClean(p[l..]);
    }
  }

  /** The matcher agrees with the meaning of a pattern on every name exactly when
      the pattern keeps within `r` terms of fewer than 256 question marks each. */
  lemma MatcherExact(p: seq<Byte>, r: nat)
    requires 0 !in p
    ensures (forall n :: 0 !in n ==> (Here(p, n, r) <==> Glob(p, n))) <==>
            Terms(Tokens(p)) <= r && SmallCounts(Tokens(p))
  {
    var ts := Tokens(p);
    ReduceSmall(ts);
    TokensClean(p);
    if Terms(ts) <= r && SmallCounts(ts) {
      forall n | 0 !in n ensures Here(p, n, r) <==> Glob(p, n) {
        HereMeans(p, n, r);
        GlobIsTokens(p, n);
      }
    } else {
      var m := if Terms(ts) > r then Sample(ts) else Sample(Reduce(ts));
      SampleClean(ts);
      SampleClean(Reduce(ts));
      SampleMatches(ts);
      SampleMatches(Reduce(ts));
      HereMeans(p, m, r);
      GlobIsTokens(p, m);
      if Terms(ts) <= r && GlobTokens(ts, m) { LeastNeeded(ts, m); }
      assert 0 !in m && !(Here(p, m, r) <==> Glob(p, m));
    }
  }

  const FIND_RECURS := 4   // wildcard terms a search pattern may have

  /** The test of one name in a directory search: exact for patterns within the
      limits, and for others as if each count of question marks were taken modulo
      256 with a star for what is lost. */
  method MatchName(pat: seq<Byte>, nam: seq<Byte>) returns (r: bool)
    requires 0 !in pat && 0 !in nam
    ensures r <==> Terms(Tokens(pat)) <= FIND_RECURS && GlobTokens(Reduce(Tokens(pat)), nam)
    ensures SmallCounts(Tokens(pat)) ==> (r <==> Terms(Tokens(pat)) <= 4 && Glob(pat, nam))
  {
    r := PatternMatch(pat, nam, 0, FIND_RECURS);
    assert nam[0..] == nam;
    HereMeans(pat, nam, FIND_RECURS);
    GlobIsTokens(pat, nam);
    ReduceSmall(Tokens(pat));
  }

  function Marks(q: nat): (p: seq<Byte>)
    ensures |p| == q && forall i :: 0 <= i < q ==> p[i] == QUERY
  {
    seq(q, _ => QUERY)
  }

  lemma {:induction false} MarksCounted(q: nat)
    ensures Queries(Marks(q)) == q
  {
    if q > 0 {
      assert Marks(q)[1..] == Marks(q - 1);
      MarksCounted(q - 1);
    }
  }

  /** `q` question marks mean a name of `q` characters. To the search they mean
      that below 256 only; from there on, any name of at least `q` modulo 256. */
  lemma MarksAccepted(q: nat, n: seq<Byte>)
    requires q > 0
    ensures Glob(Marks(q), n) <==> |n| == q
    ensures Here(Marks(q), n, FIND_RECURS) <==> if q < 256 then |n| == q else |n| >= q % 256
  {
    hide Glob, Here, GlobTokens, Tokens, Marks;
    var p := Marks(q);
    MarksTokens(q);
    GlobIsTokens(p, n);
    OneTerm(q, false, n);
    HereMeans(p, n, FIND_RECURS);
    OneTerm(q % 256, q >= 256, n);
  }

  lemma MarksTokens(q: nat)
    requires q > 0
    ensures Tokens(Marks(q)) == [Wild(q, false)] && Terms(Tokens(Marks(q))) == 1
    ensures Reduce(Tokens(Marks(q))) == [Wild(q % 256, q >= 256)]
  {
    var p := Marks(q);
    MarksCounted(q);
    hide Queries, Marks;
    assert TermLength(p) == q && p[..q] == p && p[q..] == [] && !HasStar(p);
    assert Tokens(p) == [Wild(q, false)] + Tokens([]);
    assert Tokens([]) == [];
  }

  lemma OneTerm(k: nat, star: bool, n: seq<Byte>)
    ensures GlobTokens([Wild(k, star)], n) <==> if star then |n| >= k else |n| == k
  {
    var ts := [Wild(k, star)];
    assert ts[1..] == [];
    if star && |n| >= k { assert n[|n|..] == [] && GlobTokens(ts[1..], n[|n|..]); }
  }

  /** A search for 256 question marks finds the file "A". */
  lemma LongTermFinds()
    ensures Here(Marks(256), [0x41], FIND_RECURS) && !Glob(Marks(256), [0x41])
  {
    MarksAccepted(256, [0x41]);
  }
}
