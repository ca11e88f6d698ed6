/** Bytes, sectors and little-endian words, as every layer of the file system
    sees them. A C byte or word is an `int` in range; shifts and masks by a
    constant are written as `/` and `%`. */
module Bytes {

  type Byte = b: int | 0 <= b < 256

  /** The volume is built for one sector size, 512 bytes. */
  type Sector = s: seq<Byte> | |s| == 512 witness seq(512, _ => 0)

  function ZeroSector(): Sector { seq(512, _ => 0) }

  function ZeroSectors(n: nat): (z: seq<Sector>)
    ensures |z| == n
    ensures forall k :: 0 <= k < n ==> z[k] == ZeroSector()
  {
    seq(n, _ => ZeroSector())
  }

  const WORD_VALUES := 0x1_0000
  const DWORD_VALUES := 0x1_0000_0000
  const DISK_ERROR := 0xFFFF_FFFF

  datatype FResult =
    | Ok | DiskErr | IntErr | NoFile | Denied | InvalidName | Exist | Locked | TooManyOpenFiles | NoFilesystem

  function LdWord(s: seq<Byte>, i: nat): (v: nat)
    requires i + 2 <= |s|
    ensures v < WORD_VALUES
  {
    s[i] as int + 256 * (s[i + 1] as int)
  }

  function LdDword(s: seq<Byte>, i: nat): (v: nat)
    requires i + 4 <= |s|
    ensures v < DWORD_VALUES
  {
    s[i] as int + 256 * (s[i + 1] as int) + 0x1_0000 * (s[i + 2] as int) + 0x100_0000 * (s[i + 3] as int)
  }

  function StWord(s: seq<Byte>, i: nat, v: nat): (r: seq<Byte>)
    requires i + 2 <= |s|
    ensures |r| == |s|
    ensures LdWord(r, i) == v % WORD_VALUES
    ensures forall j :: 0 <= j < |s| && !(i <= j < i + 2) ==> r[j] == s[j]
  {
    s[i := v % 256][i + 1 := v / 256 % 256]
  }

  function StDword(s: seq<Byte>, i: nat, v: nat): (r: seq<Byte>)
    requires i + 4 <= |s|
    ensures |r| == |s|
    ensures LdDword(r, i) == v % DWORD_VALUES
    ensures forall j :: 0 <= j < |s| && !(i <= j < i + 4) ==> r[j] == s[j]
  {
    var v1 := v / 256;
    var v2 := v1 / 256;
    var v3 := v2 / 256;
    s[i := v % 256][i + 1 := v1 % 256][i + 2 := v2 % 256][i + 3 := v3 % 256]
  }

  /** The low `n` bytes of a number, lowest first. */
  function LowBytes(v: nat, n: nat): (r: seq<Byte>)
    ensures |r| == n
  {
    if n == 0 then [] else [v % 256] + LowBytes(v / 256, n - 1)
  }

  lemma WordBytes(s: seq<Byte>, i: nat, v: nat)
    requires i + 2 <= |s|
    ensures StWord(s, i, v)[i..i + 2] == LowBytes(v, 2)
  {
    assert LowBytes(v, 2) == [v % 256] + ([v / 256 % 256] + LowBytes(v / 256 / 256, 0));
  }

  lemma DwordBytes(s: seq<Byte>, i: nat, v: nat)
    requires i + 4 <= |s|
    ensures StDword(s, i, v)[i..i + 4] == LowBytes(v, 4)
  {
    var v1 := v / 256;
    var v2 := v1 / 256;
    var v3 := v2 / 256;
    assert LowBytes(v3, 1) == [v3 % 256] + LowBytes(v3 / 256, 0);
    assert LowBytes(v2, 2) == [v2 % 256] + LowBytes(v3, 1);
    assert LowBytes(v1, 3) == [v1 % 256] + LowBytes(v2, 2);
    assert LowBytes(v, 4) == [v % 256] + LowBytes(v1, 3);
  }

  /** The number whose bytes are `f`, lowest first. */
  function Value(f: seq<Byte>): nat {
    if f == [] then 0 else f[0] as int + 256 * Value(f[1..])
  }

  /** Bytes from `k` on are the digits from 256^k on. */
  lemma {:induction false} ValueSplit(f: seq<Byte>, k: nat)
    requires k <= |f|
    ensures Value(f) == Value(f[..k]) + Pow2(8 * k) * Value(f[k..]) && Value(f[..k]) < Pow2(8 * k)
  {
    if k == 0 {
      assert f[0..] == f && f[..0] == [];
    } else {
      hide Pow2;
      var h, l := f[1..], f[..k];
      var p, v := Pow2(8 * (k - 1)), Value(f[k..]);
      ValueSplit(h, k - 1);
      assert h[..k - 1] == l[1..] && h[k - 1..] == f[k..];
      assert Value(f) == f[0] as int + 256 * Value(h) && Value(l) == f[0] as int + 256 * Value(l[1..]);
      ByteUp(8 * (k - 1));
      MulMul(256, p, v);
    }
  }

  lemma ByteUp(k: nat)
    ensures Pow2(8 + k) == 256 * Pow2(k)
  {
    Pow2Add(8, k);
  }

  lemma MulMul(a: int, b: int, c: int)
    ensures a * b * c == a * (b * c)
  {
  }

  lemma ValueAt(f: seq<Byte>, k: nat)
    requires k <= |f|
    ensures Value(f) / Pow2(8 * k) == Value(f[k..])
  {
    ValueSplit(f, k);
    RemainderUnique(Value(f), Pow2(8 * k), Value(f[k..]), Value(f[..k]));
  }

  lemma WordValue(f: seq<Byte>)
    requires |f| >= 2
    ensures Value(f) == LdWord(f, 0) + 0x1_0000 * Value(f[2..])
  {
    assert f[1..][1..] == f[2..];
  }

  lemma DwordValue(f: seq<Byte>)
    requires |f| >= 4
    ensures Value(f) == LdDword(f, 0) + 0x1_0000_0000 * Value(f[4..])
  {
    assert f[2..][2..] == f[4..];
    WordValue(f);
    WordValue(f[2..]);
  }

  lemma WordOf(f: seq<Byte>, i: nat)
    requires i + 2 <= |f|
    ensures Value(f[i..i + 2]) == LdWord(f, i)
  {
    WordValue(f[i..i + 2]);
  }

  lemma DwordOf(f: seq<Byte>, i: nat)
    requires i + 4 <= |f|
    ensures Value(f[i..i + 4]) == LdDword(f, i)
  {
    DwordValue(f[i..i + 4]);
  }

  /** Other bytes in place of `m` bytes at `k` change the number by the difference
      of theirs, moved up. */
  lemma ValuePatch(f: seq<Byte>, r: seq<Byte>, k: nat, m: nat)
    requires k + m <= |f| == |r| && r[..k] == f[..k] && r[k + m..] == f[k + m..]
    ensures Value(r) - Value(f) == Pow2(8 * k) * (Value(r[k..k + m]) - Value(f[k..k + m]))
  {
    hide Value, Pow2;
    TailPatch(f, r, k);
    SliceOf(f, k, m);
    SliceOf(r, k, m);
    HeadPatch(f[k..], r[k..], m);
    var d := Value(r[k..]) - Value(f[k..]);
    assert d == Value(r[k..k + m]) - Value(f[k..k + m]);
  }

  lemma SliceOf(f: seq<Byte>, k: nat, m: nat)
    requires k + m <= |f|
    ensures f[k..][..m] == f[k..k + m] && f[k..][m..] == f[k + m..]
  {
  }

  lemma TailPatch(f: seq<Byte>, r: seq<Byte>, k: nat)
    requires k <= |f| && k <= |r| && f[..k] == r[..k]
    ensures Value(r) - Value(f) == Pow2(8 * k) * (Value(r[k..]) - Value(f[k..]))
  {
    hide Value, Pow2;
    ValueSplit(f, k);
    ValueSplit(r, k);
    MulAdd(Pow2(8 * k), Value(f[k..]), Value(r[k..]) - Value(f[k..]));
  }

  lemma HeadPatch(a: seq<Byte>, b: seq<Byte>, m: nat)
    requires m <= |a| && m <= |b| && a[m..] == b[m..]
    ensures Value(b) - Value(a) == Value(b[..m]) - Value(a[..m])
  {
    ValueSplit(a, m);
    ValueSplit(b, m);
  }

  /** `m` with the items of `d` put over it from position `p` on. */
  function Blit<T>(m: seq<T>, p: nat, d: seq<T>): (r: seq<T>)
    requires p + |d| <= |m|
    ensures |r| == |m|
    ensures forall i :: 0 <= i < |m| ==> r[i] == if p <= i < p + |d| then d[i - p] else m[i]
  {
    m[..p] + d + m[p + |d|..]
  }

  /** The same memory outside `n` sectors from `s` on. */
  ghost predicate OutsideSame(a: seq<Sector>, b: seq<Sector>, s: nat, n: nat) {
    |a| == |b| && forall i :: 0 <= i < |a| && !(s <= i < s + n) ==> b[i] == a[i]
  }

  /** What a read of `n` sectors of a drive may answer: the sectors, or an error. */
  ghost predicate DriveReads(m: seq<Sector>, s: nat, n: nat, ok: bool, data: seq<Sector>) {
    ok ==> s + n <= |m| && data == m[s..s + n]
  }

  /** What a write may do to a drive: store the sectors, or fail and leave anything
      in them; no other sector changes. */
  ghost predicate DriveWrites(m: seq<Sector>, k: seq<Sector>, s: nat, data: seq<Sector>, ok: bool) {
    OutsideSame(m, k, s, |data|) && (ok ==> s + |data| <= |m| && k == Blit(m, s, data))
  }

  lemma BlitNothing<T>(m: seq<T>, p: nat)
    requires p <= |m|
    ensures Blit(m, p, []) == m
  {
  }

  /** Zeroing one more sector behind `n` zeroed ones. */
  lemma BlitZeros(m: seq<Sector>, p: nat, n: nat, w: Sector)
    requires p + n + 1 <= |m| && forall i :: 0 <= i < 512 ==> w[i] == 0
    ensures Blit(Blit(m, p, ZeroSectors(n)), p + n, [w]) == Blit(m, p, ZeroSectors(n + 1))
  {
    assert w == ZeroSector();
  }

  /** Overwrite from position `p`, growing past the end when `d` reaches that far. */
  function Splice<T>(s: seq<T>, p: nat, d: seq<T>): (r: seq<T>)
    requires p <= |s|
    ensures |r| == if p + |d| > |s| then p + |d| else |s|
    ensures forall i :: 0 <= i < |r| ==> r[i] == if p <= i < p + |d| then d[i - p] else s[i]
  {
    s[..p] + d + if p + |d| < |s| then s[p + |d|..] else []
  }

  /** Two adjoining writes are one write of the joined data. */
  lemma SpliceSplice<T>(s: seq<T>, p: nat, d: seq<T>, e: seq<T>)
    requires p <= |s|
    ensures Splice(Splice(s, p, d), p + |d|, e) == Splice(s, p, d + e)
  {
    var a, b := Splice(Splice(s, p, d), p + |d|, e), Splice(s, p, d + e);
    assert |a| == |b|;
    assert forall i :: 0 <= i < |a| ==> a[i] == b[i];
  }

  /** Bitwise and of two unsigned words. */
  function BitAnd(x: nat, y: nat): nat
  {
    if x == 0 || y == 0 then 0 else 2 * BitAnd(x / 2, y / 2) + if x % 2 == 1 && y % 2 == 1 then 1 else 0
  }

  function Pow2(k: nat): (p: nat)
    ensures p > 0
  {
    if k == 0 then 1 else 2 * Pow2(k - 1)
  }

  lemma {:induction false} Pow2Add(a: nat, b: nat)
    ensures Pow2(a + b) == Pow2(a) * Pow2(b)
  {
    if a > 0 {
      Pow2Add(a - 1, b);
      assert Pow2(a) * Pow2(b) == 2 * (Pow2(a - 1) * Pow2(b));
    }
  }

  /** Bits `p` to `p + b - 1` of a number. */
  function BitField(v: nat, p: nat, b: nat): nat {
    v / Pow2(p) % Pow2(b)
  }

  /** `u` is `v` with the low bits of `x` in these `b` bits, all others as before. */
  ghost predicate FieldSet(v: nat, u: nat, p: nat, b: nat, x: nat) {
    u - v == Pow2(p) * (x % Pow2(b) - BitField(v, p, b))
  }

  /** Masking with a power of two picks one bit. */
  lemma {:induction false} AndBit(x: nat, k: nat)
    ensures BitAnd(x, Pow2(k)) == if x / Pow2(k) % 2 == 1 then Pow2(k) else 0
  {
    if k > 0 {
      var p := Pow2(k - 1);
      AndBit(x / 2, k - 1);
      HalveTwice(x, p);
      AndDouble(x, p);
    }
  }

  lemma AndDouble(x: nat, y: nat)
    ensures BitAnd(x, 2 * y) == 2 * BitAnd(x / 2, y)
  {
    assert 2 * y / 2 == y && 2 * y % 2 == 0;
  }

  lemma HalveTwice(x: nat, p: nat)
    requires p > 0
    ensures x / (2 * p) == x / 2 / p
  {
    DivDiv(x, 2, p);
  }

  lemma DivDiv(x: nat, a: nat, b: nat)
    requires a > 0 && b > 0
    ensures a * b > 0 && x / (a * b) == x / a / b
  {
    var y := x / a;
    var q, r := y / b, y % b;
    assert x == a * y + x % a && y == b * q + r;
    assert a * (b * q + r) == (a * b) * q + a * r by { MulAdd(a, b * q, r); }
    MulGap(a, r, b);
    MulGap(a, 0, b);
    RemainderUnique(x, a * b, q, a * r + x % a);
  }

  /** Two attribute masks of directory entries: 0x08 and 0x20. */
  lemma AttributeBits(a: nat)
    ensures BitAnd(a, 0x08) == if a / 8 % 2 == 1 then 8 else 0
    ensures BitAnd(a, 0x20) == if a / 32 % 2 == 1 then 32 else 0
  {
    assert Pow2(3) == 8 && Pow2(5) == 32;
    AndBit(a, 3);
    AndBit(a, 5);
  }

  /** Masking with a power of two less one is the remainder. The code relies on
      it to split a file offset into cluster and sector. */
  lemma {:induction false} MaskIsRemainder(x: nat, k: nat)
    ensures BitAnd(x, Pow2(k) - 1) == x % Pow2(k)
  {
    if k > 0 {
      MaskIsRemainder(x / 2, k - 1);
      MaskStep(x, Pow2(k - 1));
    }
  }

  lemma MaskStep(x: nat, p: nat)
    requires p > 0 && BitAnd(x / 2, p - 1) == x / 2 % p
    ensures BitAnd(x, 2 * p - 1) == x % (2 * p)
  {
    hide BitAnd;
    HalveMask(p);
    HalveRemainder(x, p);
    AndOdd(x, 2 * p - 1);
  }

  lemma AndOdd(x: nat, m: nat)
    requires m % 2 == 1
    ensures BitAnd(x, m) == 2 * BitAnd(x / 2, m / 2) + x % 2
  {
  }

  lemma HalveMask(p: nat)
    requires p > 0
    ensures (2 * p - 1) / 2 == p - 1 && (2 * p - 1) % 2 == 1
  {
  }

  lemma HalveRemainder(x: nat, p: nat)
    requires p > 0
    ensures x % (2 * p) == 2 * (x / 2 % p) + x % 2
  {
    var h := x / 2;
    var q, r := h / p, h % p;
    assert h == p * q + r;
    assert 2 * (p * q) == (2 * p) * q;
    RemainderUnique(x, 2 * p, q, 2 * r + x % 2);
  }

  lemma RemainderUnique(x: int, d: nat, q: int, r: int)
    requires d > 0 && x == d * q + r && 0 <= r < d
    ensures x / d == q && x % d == r
  {
    var q', r' := x / d, x % d;
    assert x == d * q' + r';
    MulGap(d, q, q');
  }

  lemma MulAdd(d: int, a: int, b: int)
    ensures d * (a + b) == d * a + d * b
  {
  }

  lemma {:induction false} MulGap(d: nat, a: int, b: int)
    ensures a < b ==> d * a + d <= d * b
    ensures b < a ==> d * b + d <= d * a
    decreases if a < b then b - a else a - b
  {
    if a < b {
      assert d * b == d * (b - 1) + d;
      MulGap(d, a, b - 1);
    } else if b < a {
      assert d * a == d * (a - 1) + d;
      MulGap(d, a - 1, b);
    }
  }
}
