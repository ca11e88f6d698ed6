/** The packed file allocation table: FAT12, FAT16 and FAT32 entries over the
    bytes of the first FAT. */
module FatCodec {
  import opened Bytes
  import opened Layout

  /** Bytes `f` are long enough to hold `n` entries of type `t`. */
  predicate Holds(t: FsType, f: seq<Byte>, n: nat) {
    FatSize(t, n) <= |f|
  }

  lemma Span12(c: nat)
    ensures c + c / 2 + 2 <= FatSize(FAT12, c + 1)
  {
    var h := c / 2;
    assert c == 2 * h || c == 2 * h + 1;
  }

  /** Value of entry `c`. A FAT12 entry spans two bytes and shares one of them
      with a neighbour; a FAT32 entry ignores its top four bits. */
  function Entry(t: FsType, f: seq<Byte>, c: nat): (v: nat)
    requires Holds(t, f, c + 1)
    ensures v < EntryValues(t)
  {
    match t
    case FAT12 =>
      Span12(c);
      var wc := LdWord(f, c + c / 2);
      if c % 2 == 1 then wc / 16 else wc % 0x1000
    case FAT16 => LdWord(f, 2 * c)
    case FAT32 => LdDword(f, 4 * c) % 0x1000_0000
  }

  /** First byte a FAT12 store puts at the entry's offset, given the byte there. */
  function Low12(c: nat, old0: Byte, v: nat): Byte {
    if c % 2 == 1 then old0 % 16 + v % 16 * 16 else v % 256
  }

  /** Second byte of a FAT12 store. */
  function High12(c: nat, old1: Byte, v: nat): Byte {
    if c % 2 == 1 then v / 16 % 256 else v / 256 % 16 + old1 / 16 * 16
  }

  /** The 32-bit word a FAT32 store writes over `w`. */
  function Merge32(w: nat, v: nat): nat {
    v % 0x1000_0000 + (w - w % 0x1000_0000)
  }

  function PutEntry(t: FsType, f: seq<Byte>, c: nat, v: nat): (r: seq<Byte>)
    requires Holds(t, f, c + 1)
    ensures |r| == |f|
  {
    match t
    case FAT12 =>
      Span12(c);
      var b := c + c / 2;
      f[b := Low12(c, f[b], v)][b + 1 := High12(c, f[b + 1], v)]
    case FAT16 => StWord(f, 2 * c, v)
    case FAT32 => StDword(f, 4 * c, Merge32(LdDword(f, 4 * c), v))
  }

  /** The table as the allocator sees it: one number per entry. */
  function Entries(t: FsType, f: seq<Byte>, n: nat): (r: seq<nat>)
    requires Holds(t, f, n)
    ensures |r| == n
    ensures forall c :: 0 <= c < n ==> r[c] == Entry(t, f, c) && r[c] < EntryValues(t)
  {
    seq(n, c requires 0 <= c < n => Entry(t, f, c))
  }

  lemma Put12Same(c: nat, x: Byte, y: Byte, v: nat)
    ensures var wc := Low12(c, x, v) as int + 256 * (High12(c, y, v) as int);
            (if c % 2 == 1 then wc / 16 else wc % 0x1000) == v % 0x1000
  {
    if c % 2 == 1 {
      Halves(Low12(c, x, v), High12(c, y, v));
      Nibble(x % 16, v % 16);
      SplitLow(v);
    } else {
      Halves(Low12(c, x, v), High12(c, y, v));
      Nibble(v / 256 % 16, y / 16);
      SplitHigh(v);
    }
  }

  lemma Nibble(lo: nat, hi: nat)
    requires lo < 16
    ensures (lo + hi * 16) / 16 == hi && (lo + hi * 16) % 16 == lo
  {
  }

  lemma SplitLow(v: nat)
    ensures v % 0x1000 == v % 16 + 16 * (v / 16 % 256)
  {
    var q := v / 16;
    assert v == 16 * q + v % 16;
    assert q == 256 * (q / 256) + q % 256;
    RemainderUnique(v, 0x1000, q / 256, v % 16 + 16 * (q % 256));
  }

  lemma SplitHigh(v: nat)
    ensures v % 0x1000 == v % 256 + 256 * (v / 256 % 16)
  {
    var q := v / 256;
    assert v == 256 * q + v % 256;
    assert q == 16 * (q / 16) + q % 16;
    RemainderUnique(v, 0x1000, q / 16, v % 256 + 256 * (q % 16));
  }

  /** The half byte that belongs to the neighbour survives. */
  lemma Put12Shared(c: nat, x: Byte, y: Byte, v: nat)
    ensures c % 2 == 1 ==> Low12(c, x, v) as int % 16 == x as int % 16
    ensures c % 2 == 0 ==> High12(c, y, v) as int / 16 == y as int / 16
  {
  }

  lemma Halves(x: nat, y: nat)
    requires x < 256
    ensures (x + 256 * y) % 0x1000 == x + 256 * (y % 16)
    ensures (x + 256 * y) / 16 == x / 16 + 16 * y
  {
    RemainderUnique(x + 256 * y, 0x1000, y / 16, x + 256 * (y % 16));
    RemainderUnique(x + 256 * y, 16, x / 16 + 16 * y, x % 16);
  }

  lemma Put12(f: seq<Byte>, c: nat, d: nat, v: nat)
    requires Holds(FAT12, f, c + 1) && Holds(FAT12, f, d + 1)
    ensures Entry(FAT12, PutEntry(FAT12, f, c, v), d) == if c == d then v % 0x1000 else Entry(FAT12, f, d)
  {
    Span12(c);
    Span12(d);
    var b, e := c + c / 2, d + d / 2;
    var g := PutEntry(FAT12, f, c, v);
    Put12Same(c, f[b], f[b + 1], v);
    Put12Shared(c, f[b], f[b + 1], v);
    if c == d {
      assert LdWord(g, b) == Low12(c, f[b], v) as int + 256 * (High12(c, f[b + 1], v) as int);
    } else {
      Neighbours(c, d);
      Halves(f[e], f[e + 1]);
      Halves(g[e], g[e + 1]);
    }
  }

  lemma Neighbours(c: nat, d: nat)
    requires c != d
    ensures c + c / 2 != d + d / 2
    ensures c + c / 2 + 1 == d + d / 2 ==> c % 2 == 0 && d % 2 == 1
    ensures d + d / 2 + 1 == c + c / 2 ==> d % 2 == 0 && c % 2 == 1
  {
  }

  lemma Put16(f: seq<Byte>, c: nat, d: nat, v: nat)
    requires Holds(FAT16, f, c + 1) && Holds(FAT16, f, d + 1)
    ensures Entry(FAT16, PutEntry(FAT16, f, c, v), d) == if c == d then v % 0x1_0000 else Entry(FAT16, f, d)
  {
  }

  lemma DwordSame(f: seq<Byte>, g: seq<Byte>, i: nat)
    requires i + 4 <= |f| == |g| && forall j :: i <= j < i + 4 ==> g[j] == f[j]
    ensures LdDword(g, i) == LdDword(f, i)
  {
  }

  lemma Put32(f: seq<Byte>, c: nat, d: nat, v: nat)
    requires Holds(FAT32, f, c + 1) && Holds(FAT32, f, d + 1)
    ensures Entry(FAT32, PutEntry(FAT32, f, c, v), d) == if c == d then v % 0x1000_0000 else Entry(FAT32, f, d)
    ensures LdDword(PutEntry(FAT32, f, c, v), 4 * d) / 0x1000_0000 == LdDword(f, 4 * d) / 0x1000_0000
  {
    hide LdDword, StDword;
    var w := LdDword(f, 4 * c);
    if c != d { DwordSame(f, PutEntry(FAT32, f, c, v), 4 * d); }
    var m := Merge32(w, v);
    assert m % DWORD_VALUES == m && m % 0x1000_0000 == v % 0x1000_0000 && m / 0x1000_0000 == w / 0x1000_0000;
    assert c != d ==> 4 * c + 4 <= 4 * d || 4 * d + 4 <= 4 * c;
  }

  /** Storing an entry changes that entry's value and no other, for every
      sub-type: a packed table is an array of numbers. */
  lemma PutIsUpdate(t: FsType, f: seq<Byte>, n: nat, c: nat, v: nat)
    requires Holds(t, f, n) && c < n && Holds(t, f, c + 1)
    ensures Entries(t, PutEntry(t, f, c, v), n) == Entries(t, f, n)[c := v % EntryValues(t)]
  {
    var g := PutEntry(t, f, c, v);
    forall d | 0 <= d < n
      ensures Holds(t, f, d + 1) && Entry(t, g, d) == if c == d then v % EntryValues(t) else Entry(t, f, d)
    {
      match t
      case FAT12 => Put12(f, c, d, v);
      case FAT16 => Put16(f, c, d, v);
      case FAT32 => Put32(f, c, d, v);
    }
  }

  /** A FAT32 store leaves the reserved top four bits of every entry alone. */
  lemma PutKeepsReservedBits(f: seq<Byte>, c: nat, d: nat, v: nat)
    requires Holds(FAT32, f, c + 1) && Holds(FAT32, f, d + 1)
    ensures LdDword(PutEntry(FAT32, f, c, v), 4 * d) / 0x1000_0000 == LdDword(f, 4 * d) / 0x1000_0000
  {
    Put32(f, c, d, v);
  }

  /** Where entry `c` begins in the table: entries lie 12, 16 or 32 bits apart. */
  function FirstBit(t: FsType, c: nat): nat {
    match t
    case FAT12 => 12 * c
    case FAT16 => 16 * c
    case FAT32 => 32 * c
  }

  /** A table of `n` entries takes the least number of bytes that has their bits. */
  lemma FatSizeLeast(t: FsType, n: nat)
    ensures FirstBit(t, n) <= 8 * FatSize(t, n) < FirstBit(t, n) + 8
  {
    var m, r := n / 2, n % 2;
    assert n == 2 * m + r;
    RemainderUnique(n * 3, 2, 3 * m + r, r);
  }

  /** Bits of one entry's value. */
  function Bits(t: FsType): nat {
    match t
    case FAT12 => 12
    case FAT16 => 16
    case FAT32 => 28
  }

  lemma EntryRange(t: FsType)
    ensures EntryValues(t) == Pow2(Bits(t))
  {
    Pow2Add(12, 16);
    assert Pow2(4) == 16 && Pow2(8) == 16 * Pow2(4) && Pow2(12) == 16 * Pow2(8) && Pow2(16) == 16 * Pow2(12);
  }

  /** Which bits of the table make an entry: of the first FAT, read as one
      little-endian number, the low 12, 16 or 28 bits from bit 12, 16 or 32 times
      `c` on. */
  lemma EntryIsBits(t: FsType, f: seq<Byte>, c: nat)
    requires Holds(t, f, c + 1)
    ensures Entry(t, f, c) == BitField(Value(f), FirstBit(t, c), Bits(t))
  {
    hide Value, LdWord, LdDword, Pow2;
    EntryRange(t);
    match t
    case FAT12 => Bits12(f, c);
    case FAT16 =>
      var g := f[2 * c..];
      ValueAt(f, 2 * c);
      WordValue(g);
      LdWordFrom(f, 2 * c);
      RemainderUnique(Value(g), 0x1_0000, Value(g[2..]), LdWord(g, 0));
    case FAT32 =>
      var g := f[4 * c..];
      ValueAt(f, 4 * c);
      DwordValue(g);
      LdDwordFrom(f, 4 * c);
      LowOf(Value(g), 0x1000_0000, 16, Value(g[4..]), LdDword(g, 0));
  }

  lemma Bits12(f: seq<Byte>, c: nat)
    requires Holds(FAT12, f, c + 1)
    ensures Entry(FAT12, f, c) == Value(f) / Pow2(12 * c) % 0x1000
  {
    hide Value, LdWord, Pow2;
    Span12(c);
    var b := c + c / 2;
    var g := f[b..];
    var w, u := LdWord(g, 0), Value(g[2..]);
    ValueAt(f, b);
    WordValue(g);
    LdWordFrom(f, b);
    Place12(c);
    if c % 2 == 1 {
      DivDiv(Value(f), Pow2(8 * b), 16);
      RemainderUnique(Value(g), 16, w / 16 + 0x1000 * u, w % 16);
      RemainderUnique(w / 16 + 0x1000 * u, 0x1000, u, w / 16);
    } else {
      LowOf(Value(g), 0x1000, 16, u, w);
    }
  }

  /** Where a FAT12 entry begins: at a byte, or half a byte further. */
  lemma Place12(c: nat)
    ensures Pow2(12 * c) == Pow2(8 * (c + c / 2)) * if c % 2 == 1 then 16 else 1
  {
    var h := c / 2;
    if c % 2 == 1 {
      assert 12 * c == 8 * (c + h) + 4;
      Pow2Add(8 * (c + h), 4);
      assert Pow2(4) == 16;
    } else {
      assert 12 * c == 8 * (c + h);
    }
  }

  lemma LdWordFrom(f: seq<Byte>, i: nat)
    requires i + 2 <= |f|
    ensures LdWord(f, i) == LdWord(f[i..], 0)
  {
  }

  lemma LdDwordFrom(f: seq<Byte>, i: nat)
    requires i + 4 <= |f|
    ensures LdDword(f, i) == LdDword(f[i..], 0)
  {
  }

  lemma LowOf(x: nat, d: nat, k: nat, u: nat, w: nat)
    requires d > 0 && x == w + d * k * u
    ensures x % d == w % d
  {
    var q, r := w / d, w % d;
    assert d * k * u == d * (k * u) && w == d * q + r;
    MulAdd(d, q, k * u);
    RemainderUnique(x, d, q + k * u, r);
  }

  /** Storing an entry changes these bits and no others. */
  lemma PutIsBits(t: FsType, f: seq<Byte>, c: nat, v: nat)
    requires Holds(t, f, c + 1)
    ensures FieldSet(Value(f), Value(PutEntry(t, f, c, v)), FirstBit(t, c), Bits(t), v)
  {
    hide Value, Pow2, Entry, PutEntry;
    EntryRange(t);
    EntryIsBits(t, f, c);
    match t
    case FAT12 => Put12Bits(f, c, v);
    case FAT16 => Put16Bits(f, c, v);
    case FAT32 => Put32Bits(f, c, v);
  }

  lemma Put16Bits(f: seq<Byte>, c: nat, v: nat)
    requires Holds(FAT16, f, c + 1)
    ensures Value(PutEntry(FAT16, f, c, v)) - Value(f) == Pow2(16 * c) * (v % 0x1_0000 - Entry(FAT16, f, c) as int)
  {
    hide Value, LdWord, StWord, Pow2;
    var r := PutEntry(FAT16, f, c, v);
    ValuePatch(f, r, 2 * c, 2);
    WordOf(f, 2 * c);
    WordOf(r, 2 * c);
  }

  lemma Put32Bits(f: seq<Byte>, c: nat, v: nat)
    requires Holds(FAT32, f, c + 1)
    ensures Value(PutEntry(FAT32, f, c, v)) - Value(f) ==
            Pow2(32 * c) * (v % 0x1000_0000 - Entry(FAT32, f, c) as int)
  {
    hide Value, LdDword, StDword, Pow2;
    var r := PutEntry(FAT32, f, c, v);
    ValuePatch(f, r, 4 * c, 4);
    DwordOf(f, 4 * c);
    DwordOf(r, 4 * c);
  }

  lemma Put12Bits(f: seq<Byte>, c: nat, v: nat)
    requires Holds(FAT12, f, c + 1)
    ensures Value(PutEntry(FAT12, f, c, v)) - Value(f) ==
            Pow2(12 * c) * (v % 0x1000 - Entry(FAT12, f, c) as int)
  {
    hide Value, Pow2, Low12, High12;
    Span12(c);
    var b := c + c / 2;
    var r := PutEntry(FAT12, f, c, v);
    ValuePatch(f, r, b, 2);
    WordOf(f, b);
    WordOf(r, b);
    Put12Word(c, f[b], f[b + 1], v);
    Place12(c);
    var d := v % 0x1000 - Entry(FAT12, f, c) as int;
    MulMul(Pow2(8 * b), 16, d);
    assert LdWord(r, b) - LdWord(f, b) == if c % 2 == 1 then 16 * d else d;
  }

  /** What the store does to the two bytes as a word. */
  lemma Put12Word(c: nat, x: Byte, y: Byte, v: nat)
    ensures var w, u := x as int + 256 * (y as int), Low12(c, x, v) as int + 256 * (High12(c, y, v) as int);
            u - w == if c % 2 == 1 then 16 * (v % 0x1000 - w / 16) else v % 0x1000 - w % 0x1000
  {
    var w, u := x as int + 256 * (y as int), Low12(c, x, v) as int + 256 * (High12(c, y, v) as int);
    Put12Same(c, x, y, v);
    Put12Shared(c, x, y, v);
    Halves(x, y);
    Halves(Low12(c, x, v), High12(c, y, v));
  }
}
