/** Code page 850: upper-casing of names, one byte a character. */
module CodePage {
  import opened Bytes

  /** Upper case of the extended characters, one row for each of 0x80, 0x90, ... */
  function Row(k: nat): (r: seq<Byte>)
    ensures |r| == 16
  {
    if k == 0 then [0x43, 0x55, 0x45, 0x41, 0x41, 0x41, 0x41, 0x43, 0x45, 0x45, 0x45, 0x49, 0x49, 0x49, 0x41, 0x41]
    else if k == 1 then [0x45, 0x92, 0x92, 0x4F, 0x4F, 0x4F, 0x55, 0x55, 0x59, 0x4F, 0x55, 0x4F, 0x9C, 0x4F, 0x9E, 0x9F]
    else if k == 2 then [0x41, 0x49, 0x4F, 0x55, 0xA5, 0xA5, 0xA6, 0xA7, 0xA8, 0xA9, 0xAA, 0xAB, 0xAC, 0xAD, 0xAE, 0xAF]
    else if k == 3 then [0xB0, 0xB1, 0xB2, 0xB3, 0xB4, 0x41, 0x41, 0x41, 0xB8, 0xB9, 0xBA, 0xBB, 0xBC, 0xBD, 0xBE, 0xBF]
    else if k == 4 then [0xC0, 0xC1, 0xC2, 0xC3, 0xC4, 0xC5, 0x41, 0x41, 0xC8, 0xC9, 0xCA, 0xCB, 0xCC, 0xCD, 0xCE, 0xCF]
    else if k == 5 then [0xD1, 0xD1, 0x45, 0x45, 0x45, 0x49, 0x49, 0x49, 0x49, 0xD9, 0xDA, 0xDB, 0xDC, 0xDD, 0x49, 0xDF]
    else if k == 6 then [0x4F, 0xE1, 0x4F, 0x4F, 0x4F, 0x4F, 0xE6, 0xE8, 0xE8, 0x55, 0x55, 0x55, 0x59, 0x59, 0xEE, 0xEF]
    else [0xF0, 0xF1, 0xF2, 0xF3, 0xF4, 0xF5, 0xF6, 0xF7, 0xF8, 0xF9, 0xFA, 0xFB, 0xFC, 0xFD, 0xFE, 0xFF]
  }

  predicate IsLower(c: Byte) { 0x61 <= c <= 0x7A }

  function Extended(c: Byte): Byte
    requires c >= 0x80
  {
    Row(c / 16 - 8)[c % 16]
  }

  /** Upper case of any character. */
  function Upper(c: Byte): Byte {
    if IsLower(c) then c - 0x20 else if c >= 0x80 then Extended(c) else c
  }

  /** The table holds only capital letters and extended characters that are
      their own upper case; the deleted-entry mark 0xE5 is not among them. */
  lemma ExtendedIsUpper(c: Byte)
    requires c >= 0x80
    ensures 0x41 <= Extended(c) <= 0x5A || (Extended(c) >= 0x80 && Extended(Extended(c)) == Extended(c))
    ensures Extended(c) != 0xE5
  {
    var k := c / 16 - 8;
    RowUpper(k, c % 16);
  }

  predicate UpperEntry(v: Byte) {
    v != 0xE5 && (0x41 <= v <= 0x5A || (v >= 0x80 && Extended(v) == v))
  }

  lemma RowUpper(k: nat, i: nat)
    requires k < 8 && i < 16
    ensures UpperEntry(Row(k)[i])
  {
    if k < 2 { RowsLow(k, i); }
    else if k < 4 { RowsMid(k, i); }
    else if k < 6 { RowsHigh(k, i); }
    else { RowsTop(k, i); }
  }

  lemma RowsLow(k: nat, i: nat)
    requires 0 <= k < 2 && i < 16
    ensures UpperEntry(Row(k)[i])
  {
    if k == 0 { assert UpperEntry(Row(0)[i]); } else { assert UpperEntry(Row(1)[i]); }
  }

  lemma RowsMid(k: nat, i: nat)
    requires 2 <= k < 4 && i < 16
    ensures UpperEntry(Row(k)[i])
  {
    if k == 2 { assert UpperEntry(Row(2)[i]); } else { assert UpperEntry(Row(3)[i]); }
  }

  lemma RowsHigh(k: nat, i: nat)
    requires 4 <= k < 6 && i < 16
    ensures UpperEntry(Row(k)[i])
  {
    if k == 4 { assert UpperEntry(Row(4)[i]); } else { assert UpperEntry(Row(5)[i]); }
  }

  lemma RowsTop(k: nat, i: nat)
    requires 6 <= k < 8 && i < 16
    ensures UpperEntry(Row(k)[i])
  {
    if k == 6 { assert UpperEntry(Row(6)[i]); } else { assert UpperEntry(Row(7)[i]); }
  }

  /** The same by letters: the accented forms of a letter lose their accent, four
      pairs of letters without a plain form keep their capital, and the rest stay. */
  function PlainLetter(c: Byte): Byte {
    if 0x83 <= c <= 0x86 || c in {0x8E, 0x8F, 0xA0, 0xB5, 0xB6, 0xB7, 0xC6, 0xC7} then 0x41                 // A
    else if c in {0x80, 0x87} then 0x43                                                                     // C
    else if c in {0x82, 0x88, 0x89, 0x8A, 0x90, 0xD2, 0xD3, 0xD4} then 0x45                                 // E
    else if c in {0x8B, 0x8C, 0x8D, 0xA1, 0xD5, 0xD6, 0xD7, 0xD8, 0xDE} then 0x49                           // I
    else if c in {0x93, 0x94, 0x95, 0x99, 0x9B, 0x9D, 0xA2, 0xE0} || 0xE2 <= c <= 0xE5 then 0x4F            // O
    else if c in {0x81, 0x96, 0x97, 0x9A, 0xA3, 0xE9, 0xEA, 0xEB} then 0x55                                 // U
    else if c in {0x98, 0xEC, 0xED} then 0x59                                                               // Y
    else if c in {0x91, 0xA4, 0xD0, 0xE7} then c + 1
    else c
  }

  lemma ExtendedByLetter(c: Byte)
    requires c >= 0x80
    ensures Extended(c) == PlainLetter(c)
  {
    hide Row, PlainLetter;
    RowByLetter(c / 16 - 8, c % 16);
    assert c == 0x80 + 16 * (c / 16 - 8) + c % 16;
  }

  lemma RowByLetter(k: nat, i: nat)
    requires k < 8 && i < 16
    ensures Row(k)[i] == PlainLetter(0x80 + 16 * k + i)
  {
    if k < 2 { LettersLow(k, i); }
    else if k < 4 { LettersMid(k, i); }
    else if k < 6 { LettersHigh(k, i); }
    else { LettersTop(k, i); }
  }

  lemma LettersLow(k: nat, i: nat)
    requires 0 <= k < 2 && i < 16
    ensures Row(k)[i] == PlainLetter(0x80 + 16 * k + i)
  {
    if k == 0 { assert Row(0)[i] == PlainLetter(0x80 + i); } else { assert Row(1)[i] == PlainLetter(0x90 + i); }
  }

  lemma LettersMid(k: nat, i: nat)
    requires 2 <= k < 4 && i < 16
    ensures Row(k)[i] == PlainLetter(0x80 + 16 * k + i)
  {
    if k == 2 { assert Row(2)[i] == PlainLetter(0xA0 + i); } else { assert Row(3)[i] == PlainLetter(0xB0 + i); }
  }

  lemma LettersHigh(k: nat, i: nat)
    requires 4 <= k < 6 && i < 16
    ensures Row(k)[i] == PlainLetter(0x80 + 16 * k + i)
  {
    if k == 4 { assert Row(4)[i] == PlainLetter(0xC0 + i); } else { assert Row(5)[i] == PlainLetter(0xD0 + i); }
  }

  lemma LettersTop(k: nat, i: nat)
    requires 6 <= k < 8 && i < 16
    ensures Row(k)[i] == PlainLetter(0x80 + 16 * k + i)
  {
    if k == 6 { assert Row(6)[i] == PlainLetter(0xE0 + i); } else { assert Row(7)[i] == PlainLetter(0xF0 + i); }
  }

  /** Upper-casing twice is upper-casing once. */
  lemma UpperIdempotent(c: Byte)
    ensures Upper(Upper(c)) == Upper(c)
    ensures c != 0 ==> Upper(c) != 0
  {
    if c >= 0x80 { ExtendedIsUpper(c); }
  }
}
