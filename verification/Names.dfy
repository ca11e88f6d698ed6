/** 8.3 names: from a path segment to the eleven bytes of a directory entry, and
    back to a printed name. */
module Names {
  import opened Bytes
  import opened CodePage

  const BLANK: Byte := 0x20
  const DOT: Byte := 0x2E
  const DELETED: Byte := 0xE5    // first byte of a deleted entry
  const STAND_IN: Byte := 0x05   // stored for a real leading 0xE5
  const NS_LAST := 0x04
  const NS_DOT := 0x20

  predicate IsSeparator(c: Byte) { c == 0x2F || c == 0x5C }

  /** Ends a segment: a separator, a blank or a control character. */
  predicate EndsSegment(c: Byte) { c <= BLANK || IsSeparator(c) }

  /** Character at `i`; 0 at the end of the string. */
  function At(s: seq<Byte>, i: nat): Byte { if i < |s| then s[i] else 0 }

  /** Where the segment that starts at `p` ends. */
  function SegmentEnd(path: seq<Byte>, p: nat): (e: nat)
    requires p <= |path|
    ensures p <= e <= |path|
    ensures forall i :: p <= i < e ==> !EndsSegment(path[i])
    ensures EndsSegment(At(path, e))
    decreases |path| - p
  {
    if p == |path| || EndsSegment(path[p]) then p else SegmentEnd(path, p + 1)
  }

  /** Where the next segment starts: duplicated separators are skipped, other
      characters that end a segment are not. */
  function SkipSeparators(path: seq<Byte>, p: nat): (e: nat)
    requires p <= |path|
    ensures p <= e <= |path|
    decreases |path| - p
  {
    if p < |path| && IsSeparator(path[p]) then SkipSeparators(path, p + 1) else p
  }

  /** Characters an 8.3 name cannot hold. */
  const ILLEGAL: seq<Byte> := [0x2A, 0x2B, 0x2C, 0x3A, 0x3B, 0x3C, 0x3D, 0x3E, 0x5B, 0x5D, 0x7C, 0x22, 0x3F, 0x7F]

  predicate Legal(c: Byte) { (if c >= 0x80 then Extended(c) else c) !in ILLEGAL }

  function Uppered(s: seq<Byte>): (r: seq<Byte>)
    ensures |r| == |s|
    ensures forall i :: 0 <= i < |s| ==> r[i] == Upper(s[i])
  {
    seq(|s|, i requires 0 <= i < |s| => Upper(s[i]))
  }

  function Pad(s: seq<Byte>, n: nat): (r: seq<Byte>)
    requires |s| <= n
    ensures |r| == n
    ensures forall i :: 0 <= i < n ==> r[i] == if i < |s| then s[i] else BLANK
  {
    s + seq(n - |s|, _ => BLANK)
  }

  /** A real leading 0xE5 is stored as its stand-in. */
  function Guard(s: seq<Byte>): (r: seq<Byte>)
    requires |s| > 0
    ensures |r| == |s|
  {
    if s[0] == DELETED then s[0 := STAND_IN] else s
  }

  /** First dot of a segment, or its length. */
  function DotAt(s: seq<Byte>): (d: nat)
    ensures d <= |s|
    ensures forall i :: 0 <= i < d ==> s[i] != DOT
    ensures d < |s| ==> s[d] == DOT
  {
    if s == [] || s[0] == DOT then 0 else 1 + DotAt(s[1..])
  }

  function Body(s: seq<Byte>): seq<Byte> { s[..DotAt(s)] }

  function Ext(s: seq<Byte>): seq<Byte> { if DotAt(s) < |s| then s[DotAt(s) + 1..] else [] }

  /** An 8.3 name: one to eight legal characters, and at most one dot with up to
      three more behind it. */
  predicate Is83(s: seq<Byte>) { |Body(s)| > 0 && Fits(s) }

  predicate Fits(s: seq<Byte>) {
    && |Body(s)| <= 8 && |Ext(s)| <= 3
    && (forall i :: 0 <= i < |Body(s)| ==> Legal(Body(s)[i]))
    && (forall i :: 0 <= i < |Ext(s)| ==> Legal(Ext(s)[i]) && Ext(s)[i] != DOT)
  }

  /** Its directory form. */
  function Stored(s: seq<Byte>): (r: seq<Byte>)
    requires Is83(s)
    ensures |r| == 11
  {
    Guard(Pad(Uppered(Body(s)), 8) + Pad(Uppered(Ext(s)), 3))
  }

  // ---- which characters, and where -------------------------------------------------

  /** Printable characters of an 8.3 name, besides letters and digits. */
  const MARKS: seq<Byte> := [0x21, 0x23, 0x24, 0x25, 0x26, 0x27, 0x28, 0x29, 0x2D,
                             0x40, 0x5E, 0x5F, 0x60, 0x7B, 0x7D, 0x7E]

  /** What may stand in a name: letters, digits, the marks `!#$%&'()-@^_` and
      backquote, braces and tilde, and every extended character; dots apart. A
      segment ends at a blank, a control character, `/` or backslash. */
  lemma LegalMeans(c: Byte)
    ensures !EndsSegment(c) && Legal(c) && c != 0x2E <==>
            0x30 <= c <= 0x39 || 0x41 <= c <= 0x5A || 0x61 <= c <= 0x7A || c in MARKS || c >= 0x80
    ensures EndsSegment(c) <==> c <= 0x20 || c == 0x2F || c == 0x5C
    ensures Upper(c) == if 0x61 <= c <= 0x7A then c - 0x20 else if c >= 0x80 then PlainLetter(c) else c
  {
    hide Extended, PlainLetter;
    if c >= 0x80 {
      ExtendedIsUpper(c);
      ExtendedByLetter(c);
    }
  }

  /** A segment is its body and, behind the first dot, its extension. */
  lemma SegmentParts(s: seq<Byte>)
    ensures 0x2E !in Body(s)
    ensures (s == Body(s) && Ext(s) == []) || s == Body(s) + [0x2E] + Ext(s)
  {
  }

  /** The eleven bytes, one by one: upper-case body from 0, upper-case extension
      from 8, blanks for the rest. */
  lemma StoredBytes(s: seq<Byte>)
    requires Is83(s) && forall i :: 0 <= i < |s| ==> !EndsSegment(s[i])
    ensures |Body(s)| <= 8 && |Ext(s)| <= 3
    ensures forall i :: 0 <= i < 8 ==> Stored(s)[i] == if i < |Body(s)| then Upper(Body(s)[i]) else 0x20
    ensures forall i :: 0 <= i < 3 ==> Stored(s)[8 + i] == if i < |Ext(s)| then Upper(Ext(s)[i]) else 0x20
  {
    hide Upper, Legal, EndsSegment;
    UpperKeeps(Body(s)[0]);
  }

  /** The next segment starts behind all the separators there are, at the end of
      the path or at another character; behind anything else, one further. */
  lemma BehindMeans(path: seq<Byte>, e: nat)
    requires e <= |path|
    ensures var n := Behind(path, e);
            if IsSeparator(At(path, e)) then
              && e < n <= |path| && (n == |path| || !IsSeparator(path[n]))
              && forall i :: e <= i < n ==> path[i] == 0x2F || path[i] == 0x5C
            else n == e + 1
  {
    if IsSeparator(At(path, e)) { Skipped(path, e + 1); }
  }

  lemma {:induction false} Skipped(path: seq<Byte>, p: nat)
    requires p <= |path|
    ensures var n := SkipSeparators(path, p);
            (n == |path| || !IsSeparator(path[n])) && forall i :: p <= i < n ==> IsSeparator(path[i])
    decreases |path| - p
  {
    if p < |path| && IsSeparator(path[p]) { Skipped(path, p + 1); }
  }

  /** The flag byte of a segment: 0x20 marks a dot entry, 0x04 the last segment. */
  lemma FlagMeans(path: seq<Byte>, p: nat, out: Segment)
    requires p <= |path| && Parses(path, p, Ok, out)
    ensures var e := SegmentEnd(path, p);
            var more := (At(path, e) == 0x2F || At(path, e) == 0x5C)
                        && (At(path, p) == 0x2E || At(path, Behind(path, e)) > 0x20);
            out.flag == (if At(path, p) == 0x2E then 0x20 else 0) + if more then 0 else 0x04
  {
    hide Is83, Stored, SkipSeparators, SegmentEnd;
  }

  // ---- parsing ------------------------------------------------------------------

  datatype Segment = Segment(sfn: seq<Byte>, flag: int, next: nat)

  /** What a path segment stands for; nothing when it is no legal name. */
  ghost predicate Parses(path: seq<Byte>, p: nat, r: FResult, out: Segment)
    requires p <= |path|
  {
    var e := SegmentEnd(path, p);
    var s := path[p..e];
    if At(path, p) == DOT then
      && r == (if s == [DOT] || s == [DOT, DOT] then Ok else InvalidName)
      && (r == Ok ==> out == Segment(Pad(s, 11), NS_DOT + (if IsSeparator(At(path, e)) then 0 else NS_LAST), e + 1))
    else
      && r == (if Is83(s) then Ok else InvalidName)
      && (r == Ok ==> && out.sfn == Stored(s) && out.next == Behind(path, e)
                      && out.flag == if IsSeparator(At(path, e)) && At(path, out.next) > BLANK then 0 else NS_LAST)
  }

  /** Where the next segment starts, behind the one that ends at `e`. */
  function Behind(path: seq<Byte>, e: nat): nat
    requires e <= |path|
  {
    if IsSeparator(At(path, e)) then SkipSeparators(path, e + 1) else e + 1
  }

  method CreateName(path: seq<Byte>, p: nat) returns (r: FResult, out: Segment)
    requires p <= |path|
    ensures Parses(path, p, r, out)
  {
    if At(path, p) == DOT { r, out := DotName(path, p); return; }
    r, out := PlainName(path, p);
  }

  method DotName(path: seq<Byte>, p: nat) returns (r: FResult, out: Segment)
    requires p <= |path| && At(path, p) == DOT
    ensures Parses(path, p, r, out)
  {
    hide Is83, Stored, SkipSeparators;
    ghost var e := SegmentEnd(path, p);
    var sfn := Pad([], 11);
    var si, i := 0, 0;
    var c := At(path, p + si);
    si := si + 1;
    while c == DOT && si < 3
      invariant si == i + 1 && i <= 2 && p + i <= e && c == At(path, p + i)
      invariant forall k :: p <= k < p + i ==> path[k] == DOT
      invariant i == 0 ==> c == DOT
      invariant sfn == Pad(path[p..p + i], 11)
      decreases 3 - i
    {
      assert p + i < e;
      sfn := sfn[i := c];
      i := i + 1;
      c := At(path, p + si);
      si := si + 1;
    }
    ghost var s := path[p..e];
    assert forall k :: 0 <= k < i ==> s[k] == path[p + k];
    assert s == [DOT] ==> |s| == 1;
    assert s == [DOT, DOT] ==> |s| == 2;
    if !IsSeparator(c) && c > BLANK {
      assert p + i < e && (c == DOT ==> i == 2);
      assert s[i] == c;
      return InvalidName, Segment(sfn, 0, p);
    }
    assert EndsSegment(At(path, p + i));
    r, out := Ok, Segment(sfn, if c <= BLANK then NS_LAST + NS_DOT else NS_DOT, p + si);
  }

  lemma DotOf(t: seq<Byte>, c: Byte)
    ensures DotAt(t + [c]) == if DotAt(t) < |t| || c == DOT then DotAt(t) else |t| + 1
  {
    var d := if DotAt(t) < |t| || c == DOT then DotAt(t) else |t| + 1;
    DotIs(t + [c], d);
  }

  /** How one more character changes the two parts. */
  lemma PartsStep(t: seq<Byte>, c: Byte)
    ensures DotAt(t) < |t| ==> Body(t + [c]) == Body(t) && Ext(t + [c]) == Ext(t) + [c]
    ensures DotAt(t) == |t| && c != DOT ==> Body(t + [c]) == t + [c] && Ext(t + [c]) == []
    ensures DotAt(t) == |t| && c == DOT ==> Body(t + [c]) == t && Ext(t + [c]) == []
  {
    hide DotAt;
    DotOf(t, c);
    Slices(t, c, DotAt(t));
  }

  lemma Slices(t: seq<Byte>, c: Byte, d: nat)
    requires d <= |t|
    ensures (t + [c])[..d] == t[..d]
    ensures d < |t| ==> (t + [c])[d + 1..] == t[d + 1..] + [c]
    ensures (t + [c])[..|t| + 1] == t + [c] && t[..|t|] == t
  {
  }

  /** What starts an 8.3 name fits itself. */
  lemma {:induction false} PrefixFits(s: seq<Byte>, n: nat)
    requires Fits(s) && n <= |s|
    ensures Fits(s[..n])
    decreases |s|
  {
    hide Legal;
    if n < |s| {
      var t, c := s[..|s| - 1], s[|s| - 1];
      assert s == t + [c];
      PartsStep(t, c);
      FitsBefore(t, c);
      assert t[..n] == s[..n];
      PrefixFits(t, n);
    } else {
      assert s[..n] == s;
    }
  }

  lemma FitsBefore(t: seq<Byte>, c: Byte)
    ensures Fits(t + [c]) <==>
            && Fits(t)
            && if DotAt(t) < |t| then |Ext(t)| < 3 && c != DOT && Legal(c)
               else c == DOT || (|t| < 8 && Legal(c))
  {
    hide Legal, DotAt;
    PartsStep(t, c);
    DotOf(t, c);
    var u := t + [c];
    if DotAt(t) < |t| {
      assert Ext(u)[|Ext(t)|] == c;
      assert forall i :: 0 <= i < |Ext(t)| ==> Ext(u)[i] == Ext(t)[i];
    } else if c != DOT {
      assert Body(u)[|t|] == c;
      assert forall i :: 0 <= i < |t| ==> Body(u)[i] == Body(t)[i];
    }
  }

  /** The name field once `t` has been read. */
  function Field(t: seq<Byte>): (r: seq<Byte>)
    requires Fits(t)
    ensures |r| == 11
  {
    FieldOf(Body(t), Ext(t))
  }

  function FieldOf(b: seq<Byte>, e: seq<Byte>): (r: seq<Byte>)
    requires |b| <= 8 && |e| <= 3
    ensures |r| == 11
  {
    Pad(Uppered(b), 8) + Pad(Uppered(e), 3)
  }

  /** Position of the next character in that field. */
  function Fill(t: seq<Byte>): nat { if DotAt(t) < |t| then 8 + |Ext(t)| else |t| }

  lemma FieldStep(t: seq<Byte>, c: Byte)
    requires Fits(t) && Fits(t + [c])
    ensures c == DOT ==> Field(t + [c]) == Field(t) && Fill(t + [c]) == 8
    ensures c != DOT ==> Fill(t) < 11 && Fill(t + [c]) == Fill(t) + 1 && Field(t + [c]) == Field(t)[Fill(t) := Upper(c)]
    ensures DotAt(t + [c]) < |t| + 1 <==> DotAt(t) < |t| || c == DOT
  {
    hide Legal, Upper, DotAt, FieldOf, Body, Ext;
    FitsBefore(t, c);
    PartsStep(t, c);
    DotOf(t, c);
    if DotAt(t) == |t| { NoExt(t); }
    if c != DOT {
      if DotAt(t) < |t| { ExtStep(Body(t), Ext(t), c); } else { BodyStep(t, c); }
    }
  }

  lemma NoExt(t: seq<Byte>)
    requires DotAt(t) == |t|
    ensures Body(t) == t && Ext(t) == []
  {
  }

  lemma BodyStep(b: seq<Byte>, c: Byte)
    requires |b| < 8
    ensures FieldOf(b + [c], []) == FieldOf(b, [])[|b| := Upper(c)]
  {
    hide Upper;
    PadStep(b, c, 8);
  }

  lemma ExtStep(b: seq<Byte>, e: seq<Byte>, c: Byte)
    requires |b| <= 8 && |e| < 3
    ensures FieldOf(b, e + [c]) == FieldOf(b, e)[8 + |e| := Upper(c)]
  {
    hide Upper;
    PadStep(e, c, 3);
  }

  lemma PadStep(a: seq<Byte>, c: Byte, n: nat)
    requires |a| < n
    ensures Pad(Uppered(a + [c]), n) == Pad(Uppered(a), n)[|a| := Upper(c)]
  {
    hide Upper;
  }

  /** The field, its fill and its limit once `t` has been read. */
  ghost predicate Scanned(t: seq<Byte>, sfn: seq<Byte>, i: nat, ni: nat) {
    Fits(t) && sfn == Field(t) && i == Fill(t) && ni == if DotAt(t) < |t| then 11 else 8
  }

  lemma Refuses(t: seq<Byte>, c: Byte, sfn: seq<Byte>, i: nat, ni: nat)
    requires Scanned(t, sfn, i, ni)
    ensures Fits(t + [c]) <==> if c == DOT then ni != 11 else i < ni && Legal(c)
    ensures |sfn| == 11 && i <= ni <= 11
  {
    hide Legal, Fits, Field, Fill, DotAt;
    FitsBefore(t, c);
    FillIs(t);
  }

  lemma Takes(t: seq<Byte>, c: Byte, sfn: seq<Byte>, i: nat, ni: nat)
    requires Scanned(t, sfn, i, ni) && Fits(t + [c])
    ensures c == DOT ==> Scanned(t + [c], sfn, 8, 11)
    ensures c != DOT ==> i < |sfn| && Scanned(t + [c], sfn[i := Upper(c)], i + 1, ni)
  {
    hide Legal, Upper, Fits, Field, Fill, DotAt;
    FieldStep(t, c);
  }

  /** Reads one segment, and one character behind it. */
  method ScanSegment(path: seq<Byte>, p: nat) returns (ok: bool, sfn: seq<Byte>, i: nat, si: nat)
    requires p <= |path|
    ensures ok <==> Fits(path[p..SegmentEnd(path, p)])
    ensures ok ==> sfn == Field(path[p..SegmentEnd(path, p)]) && i == Fill(path[p..SegmentEnd(path, p)])
                   && si == SegmentEnd(path, p) + 1
  {
    hide Legal, Upper, Extended, SegmentEnd, Scanned, Fits, DotAt, Field, Fill;
    ghost var e := SegmentEnd(path, p);
    sfn, si, i := Pad([], 11), p, 0;
    var ni := 8;
    ghost var t: seq<Byte> := [];
    EmptyField();
    var c := At(path, si);
    si := si + 1;
    while !(c <= BLANK) && !IsSeparator(c)
      invariant p < si <= e + 1 && c == At(path, si - 1)
      invariant t == path[p..si - 1] && Scanned(t, sfn, i, ni)
      decreases |path| + 1 - si
    {
      assert !EndsSegment(At(path, si - 1));
      Refuses(t, c, sfn, i, ni);
      Longer(path, p, si, e);
      if c == DOT || i >= ni {
        if ni == 11 || c != DOT { return false, sfn, i, si; }
        Takes(t, c, sfn, i, ni);
        i := 8;
        ni := 11;
      } else {
        var d := if c >= 0x80 then Extended(c) else c;
        LegalIs(c);
        if d in ILLEGAL { return false, sfn, i, si; }
        Takes(t, c, sfn, i, ni);
        UpperIs(c);
        if IsLower(d) { d := d - 0x20; }
        sfn := sfn[i := d];
        i := i + 1;
      }
      t := t + [c];
      c := At(path, si);
      si := si + 1;
    }
    assert EndsSegment(At(path, si - 1));
    ScannedIs(t, sfn, i, ni);
    ok := true;
  }

  method PlainName(path: seq<Byte>, p: nat) returns (r: FResult, out: Segment)
    requires p <= |path| && At(path, p) != DOT
    ensures Parses(path, p, r, out)
  {
    hide Legal, Upper, Fits, Field, Fill, Is83, Stored;
    ghost var s := path[p..SegmentEnd(path, p)];
    FirstNotDot(s);
    var ok, sfn, i, si := ScanSegment(path, p);
    if !ok { return InvalidName, Segment(sfn, 0, p); }
    var c := At(path, si - 1);
    if IsSeparator(c) {
      ghost var from := si;
      while IsSeparator(At(path, si))
        invariant from <= si <= |path|
        invariant SkipSeparators(path, from) == SkipSeparators(path, si)
        decreases |path| - si
      {
        si := si + 1;
      }
    }
    if i == 0 { return InvalidName, Segment(sfn, 0, p); }
    StoredIs(s);
    if sfn[0] == DELETED { sfn := sfn[0 := STAND_IN]; }
    r, out := Ok, Segment(sfn, if c <= BLANK || At(path, si) <= BLANK then NS_LAST else 0, si);
  }

  lemma Sliced(path: seq<Byte>, p: nat, si: nat, e: nat)
    requires p < si <= e <= |path|
    ensures path[p..si] == path[p..si - 1] + [path[si - 1]] == path[p..e][..si - p]
  {
  }

  lemma EmptyField()
    ensures Scanned([], Pad([], 11), 0, 8)
  {
  }

  lemma Longer(path: seq<Byte>, p: nat, si: nat, e: nat)
    requires p < si <= e <= |path|
    ensures path[p..si] == path[p..si - 1] + [path[si - 1]]
    ensures Fits(path[p..e]) ==> Fits(path[p..si - 1] + [path[si - 1]])
  {
    hide Fits;
    Sliced(path, p, si, e);
    if Fits(path[p..e]) { PrefixFits(path[p..e], si - p); }
  }

  lemma ScannedIs(t: seq<Byte>, sfn: seq<Byte>, i: nat, ni: nat)
    requires Scanned(t, sfn, i, ni)
    ensures Fits(t) && sfn == Field(t) && i == Fill(t)
  {
  }

  lemma FillIs(t: seq<Byte>)
    requires Fits(t)
    ensures Fill(t) == if DotAt(t) < |t| then 8 + |Ext(t)| else |t|
    ensures Fill(t) <= if DotAt(t) < |t| then 11 else 8
  {
  }

  lemma FirstNotDot(s: seq<Byte>)
    ensures Is83(s) ==> Fits(s)
    ensures Fits(s) && (s == [] || s[0] != DOT) ==> (Is83(s) <==> Fill(s) != 0)
  {
  }

  lemma LegalIs(c: Byte)
    ensures Legal(c) <==> (if c >= 0x80 then Extended(c) else c) !in ILLEGAL
  {
  }

  lemma UpperIs(c: Byte)
    ensures var d := if c >= 0x80 then Extended(c) else c;
            Upper(c) == if 0x61 <= d <= 0x7A then d - 0x20 else d
  {
    hide Extended;
    if c >= 0x80 { ExtendedIsUpper(c); }
  }

  lemma StoredIs(s: seq<Byte>)
    requires Is83(s)
    ensures Fits(s) && Stored(s) == Guard(Field(s))
  {
  }

  // ---- printing -----------------------------------------------------------------

  /** Drops blanks and restores a stand-in. */
  function Compact(s: seq<Byte>): seq<Byte> {
    if s == [] then []
    else Compact(s[..|s| - 1]) + var c := s[|s| - 1];
           if c == BLANK then [] else if c == STAND_IN then [DELETED] else [c]
  }

  function Printed(f: seq<Byte>): seq<Byte>
    requires |f| == 11
  {
    Compact(f[..8]) + (if f[8] == BLANK then [] else [DOT]) + Compact(f[8..])
  }

  /** Printing gives the characters that are no blanks, in order; a stored 0x05
      prints as 0xE5. */
  lemma {:induction false} CompactMeans(s: seq<Byte>, c: Byte)
    ensures Compact([]) == []
    ensures Compact(s + [c]) == Compact(s) + if c == 0x20 then [] else if c == 0x05 then [0xE5] else [c]
  {
    assert (s + [c])[..|s|] == s;
  }

  method FileName(dir: seq<Byte>) returns (name: seq<Byte>)
    requires |dir| >= 11
    ensures name == Printed(dir[..11])
  {
    name := [];
    var si := 0;
    while si < 11
      invariant 0 <= si <= 11
      invariant name == if si <= 8 then Compact(dir[..si])
                        else Compact(dir[..8]) + (if dir[8] == BLANK then [] else [DOT]) + Compact(dir[8..si])
    {
      var c := dir[si];
      si := si + 1;
      assert dir[..si][..si - 1] == dir[..si - 1];
      if si > 8 { assert dir[8..si][..si - 9] == dir[8..si - 1]; }
      if c == BLANK { continue; }
      if c == STAND_IN { c := DELETED; }
      if si == 9 { name := name + [DOT]; }
      name := name + [c];
    }
    assert dir[..11][..8] == dir[..8] && dir[..11][8..] == dir[8..11];
  }

  lemma {:induction false} CompactPad(s: seq<Byte>, n: nat)
    requires |s| <= n && forall i :: 0 <= i < |s| ==> s[i] != BLANK && s[i] != STAND_IN
    ensures Compact(Pad(s, n)) == s
    decreases n
  {
    hide Pad;
    if n > 0 {
      var p := Pad(s, n);
      if |s| < n {
        assert p[..n - 1] == Pad(s, n - 1);
        CompactPad(s, n - 1);
      } else {
        assert p == s && s[..n - 1] == Pad(s[..n - 1], n - 1);
        CompactPad(s[..n - 1], n - 1);
        assert s == s[..n - 1] + [s[n - 1]];
      }
    }
  }

  /** Upper-casing a legal, printable character gives one that is legal again,
      prints as itself and is not the deleted mark. */
  lemma UpperKeeps(c: Byte)
    requires !EndsSegment(c) && Legal(c)
    ensures !EndsSegment(Upper(c)) && Legal(Upper(c)) && Upper(Upper(c)) == Upper(c)
    ensures Upper(c) == DOT <==> c == DOT
    ensures Upper(c) != DELETED && Upper(c) != STAND_IN && Upper(c) != BLANK && Upper(c) != 0
  {
    UpperIdempotent(c);
    if c >= 0x80 { ExtendedIsUpper(c); }
  }

  /** A segment without its bare trailing dot. */
  function Trimmed(s: seq<Byte>): seq<Byte> {
    if |s| > 0 && DotAt(s) == |s| - 1 then s[..|s| - 1] else s
  }

  /** Printing a stored name gives the upper-cased segment, and storing that again
      gives the same eleven bytes; a deleted or unused entry is never written. */
  lemma NameRoundTrip(s: seq<Byte>)
    requires Is83(s) && forall i :: 0 <= i < |s| ==> !EndsSegment(s[i])
    ensures Printed(Stored(s)) == Uppered(Trimmed(s))
    ensures Is83(Printed(Stored(s))) && Stored(Printed(Stored(s))) == Stored(s)
    ensures forall i :: 0 <= i < |Printed(Stored(s))| ==> !EndsSegment(Printed(Stored(s))[i])
    ensures Stored(s)[0] != DELETED && Stored(s)[0] != 0
  {
    assert Upper(DOT) == DOT;
    hide Upper, Legal, EndsSegment, Pad, Compact, Uppered;
    var b, e := Body(s), Ext(s);
    UpperAll(s, b);
    UpperAll(s, e);
    var f := Pad(Uppered(b), 8) + Pad(Uppered(e), 3);
    assert f[0] == Uppered(b)[0];
    assert Stored(s) == f;
    assert f[..8] == Pad(Uppered(b), 8) && f[8..] == Pad(Uppered(e), 3);
    CompactPad(Uppered(b), 8);
    CompactPad(Uppered(e), 3);
    var p := Uppered(Trimmed(s));
    assert Printed(f) == Uppered(b) + (if e == [] then [] else [DOT]) + Uppered(e);
    TrimmedParts(s);
    assert p == Printed(f);
    PartsAgain(s, p);
  }

  /** Parse, print and parse again: the printed name is the upper-cased segment
      without a bare trailing dot, and stands for the same eleven bytes. */
  lemma ParsePrintParse(path: seq<Byte>, p: nat, out: Segment)
    requires p <= |path| && At(path, p) != DOT && Parses(path, p, Ok, out)
    ensures |out.sfn| == 11 && out.sfn[0] != DELETED && out.sfn[0] != 0
    ensures var name := Printed(out.sfn);
            && name == Uppered(Trimmed(path[p..SegmentEnd(path, p)]))
            && Parses(name, 0, Ok, Segment(out.sfn, NS_LAST, |name| + 1))
  {
    hide Is83, Stored, Printed, Uppered, Trimmed;
    var s := path[p..SegmentEnd(path, p)];
    NameRoundTrip(s);
    var name := Printed(out.sfn);
    assert SegmentEnd(name, 0) == |name|;
    assert name[..|name|] == name;
    LeadingDot(name);
  }

  lemma LeadingDot(s: seq<Byte>)
    requires Is83(s)
    ensures At(s, 0) != DOT
  {
  }

  /** Facts about the upper-cased characters of a part of a segment. */
  lemma UpperAll(s: seq<Byte>, b: seq<Byte>)
    requires forall i :: 0 <= i < |s| ==> !EndsSegment(s[i])
    requires forall i :: 0 <= i < |b| ==> b[i] in s && Legal(b[i]) && b[i] != DOT
    ensures forall i :: 0 <= i < |b| ==>
              var u := Uppered(b)[i];
              && u != BLANK && u != STAND_IN && u != DELETED && u != 0 && u != DOT
              && !EndsSegment(u) && Legal(u) && Upper(u) == u
  {
    forall i | 0 <= i < |b|
      ensures var u := Uppered(b)[i];
              && u != BLANK && u != STAND_IN && u != DELETED && u != 0 && u != DOT
              && !EndsSegment(u) && Legal(u) && Upper(u) == u
    {
      UpperKeeps(b[i]);
    }
  }

  lemma TrimmedParts(s: seq<Byte>)
    requires Upper(DOT) == DOT
    ensures Uppered(Trimmed(s)) == Uppered(Body(s)) + (if Ext(s) == [] then [] else [DOT]) + Uppered(Ext(s))
  {
    var d := DotAt(s);
    var l, r := Uppered(Trimmed(s)), Uppered(Body(s)) + (if Ext(s) == [] then [] else [DOT]) + Uppered(Ext(s));
    assert |l| == |r|;
    assert forall i :: 0 <= i < |l| ==> l[i] == r[i];
  }

  /** The printed form splits where the segment does. */
  lemma PartsAgain(s: seq<Byte>, p: seq<Byte>)
    requires Is83(s) && p == Uppered(Body(s)) + (if Ext(s) == [] then [] else [DOT]) + Uppered(Ext(s))
    requires forall i :: 0 <= i < |Body(s)| ==>
               var u := Uppered(Body(s))[i]; u != DOT && Legal(u) && Upper(u) == u && !EndsSegment(u)
    requires forall i :: 0 <= i < |Ext(s)| ==>
               var u := Uppered(Ext(s))[i]; u != DOT && Legal(u) && Upper(u) == u && !EndsSegment(u)
    ensures Body(p) == Uppered(Body(s)) && Ext(p) == Uppered(Ext(s))
    ensures Is83(p) && Stored(p) == Stored(s)
    ensures forall i :: 0 <= i < |p| ==> !EndsSegment(p[i])
  {
    hide Upper, Legal, EndsSegment, Pad, Guard;
    var k := |Body(s)|;
    DotIs(p, k);
    EndsDot();
    assert Body(p) == Uppered(Body(s)) && Ext(p) == Uppered(Ext(s));
    assert Uppered(Body(p)) == Uppered(Body(s));
    assert Uppered(Ext(p)) == Uppered(Ext(s));
  }

  lemma EndsDot()
    ensures !EndsSegment(DOT)
  {
  }

  lemma DotIs(s: seq<Byte>, k: nat)
    requires k <= |s| && (forall i :: 0 <= i < k ==> s[i] != DOT) && (k < |s| ==> s[k] == DOT)
    ensures DotAt(s) == k
  {
  }
}
