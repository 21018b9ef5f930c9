/**
 Physical memory as bytes, and the accessed and dirty bits in the lowest byte of a
 page-table entry. Entries are four bytes long, or eight where `wide` holds.
 */
module EntryBits {
  import opened Words

  type Byte = b: int | 0 <= b < 0x100 witness 0

  function SetAccessed(b: Byte): Byte {
    if b / 0x20 % 2 == 1 then b else b + 0x20
  }

  function SetDirty(b: Byte): Byte {
    if b / 0x40 % 2 == 1 then b else b + 0x40
  }

  predicate Accessed(m: seq<Byte>, a: nat) {
    a < |m| && m[a] / 0x20 % 2 == 1
  }

  predicate EntryAligned(p: nat, wide: bool) {
    if wide then p % 8 == 0 else p % 4 == 0
  }

  /** `b'` is `b` with the accessed or the dirty bit set, or both. */
  predicate ByteGrows(b: Byte, b': Byte) {
    b' % 8 == b % 8 && b' / 0x80 == b / 0x80 && b' / 0x20 % 2 >= b / 0x20 % 2
  }

  /** `m'` is `m` with some accessed or dirty bits of entries set. */
  predicate BitsGrow(m: seq<Byte>, m': seq<Byte>, wide: bool) {
    && |m'| == |m|
    && forall p {:trigger m'[p]} :: 0 <= p < |m| ==>
         m'[p] == m[p] || (EntryAligned(p, wide) && ByteGrows(m[p], m'[p]))
  }

  lemma ByteBits(b: Byte)
    ensures ByteGrows(b, SetAccessed(b)) && SetAccessed(b) / 0x20 % 2 == 1
    ensures ByteGrows(b, SetDirty(b))
  {
    var h, d, a, l := b / 0x80, b / 0x40 % 2, b / 0x20 % 2, b % 0x20;
    assert b == 0x80 * h + 0x40 * d + 0x20 * a + l;
    ByteFields(h, d, a, l);
    ByteFields(h, d, 1, l);
    ByteFields(h, 1, a, l);
  }

  lemma ByteFields(h: nat, d: nat, a: nat, l: nat)
    requires h <= 1 && d <= 1 && a <= 1 && l < 0x20
    ensures var b := 0x80 * h + 0x40 * d + 0x20 * a + l; b % 8 == l % 8 && b / 0x80 == h && b / 0x20 % 2 == a
  {
  }

  // ---------- the bits themselves ----------

  /** Adding the value of a clear bit sets it and changes no other. */
  lemma {:induction false} AddedBit(x: nat, k: nat, n: nat)
    requires Bit(x, k) == 0
    ensures Bit(x + Shl(1, k), n) == if n == k then 1 else Bit(x, n)
    decreases k
  {
    if k == 0 {
      if n > 0 { assert (x + 1) / 2 == x / 2; }
    } else {
      AddedBit(x / 2, k - 1, if n > 0 then n - 1 else 0);
      assert (x + Shl(1, k)) / 2 == x / 2 + Shl(1, k - 1) && (x + Shl(1, k)) % 2 == x % 2;
    }
  }

  lemma OnePlace(x: nat)
    ensures Shr(x, 1) == x / 2 && Shl(x, 1) == 2 * x
  {
  }

  lemma HalveTwice(x: nat)
    ensures x / 16 / 2 == x / 0x20 && x / 0x20 / 2 == x / 0x40
  {
  }

  lemma BitsFiveAndSix(x: nat)
    ensures Bit(x, 5) == x / 0x20 % 2 && Bit(x, 6) == x / 0x40 % 2
  {
    hide Shr;
    HalveTwice(x);
    ShrFour(x);
    ShrShr(x, 4, 1);
    ShrShr(x, 5, 1);
    OnePlace(x / 16);
    OnePlace(x / 0x20);
  }

  lemma ValuesFiveAndSix()
    ensures Shl(1, 5) == 0x20 && Shl(1, 6) == 0x40
  {
    assert Shl(1, 5) == 2 * Shl(1, 4) == 4 * Shl(1, 3) == 8 * Shl(1, 2) == 16 * Shl(1, 1);
    assert Shl(1, 6) == 2 * Shl(1, 5);
  }

  /** Bit 5 is the accessed bit and bit 6 the dirty bit; every other bit stays. */
  lemma SetsOneBit(b: Byte, n: nat)
    ensures Bit(SetAccessed(b), n) == if n == 5 then 1 else Bit(b, n)
    ensures Bit(SetDirty(b), n) == if n == 6 then 1 else Bit(b, n)
  {
    hide Bit, Shl;
    BitsFiveAndSix(b);
    ValuesFiveAndSix();
    if Bit(b, 5) == 0 { AddedBit(b, 5, n); }
    if Bit(b, 6) == 0 { AddedBit(b, 6, n); }
  }

  /** `m'` is `m` with bit 5 of the bytes at `accessed` set, and bit 6 of the bytes at `dirty`. */
  ghost predicate BitsSet(m: seq<Byte>, m': seq<Byte>, accessed: seq<nat>, dirty: seq<nat>) {
    && |m'| == |m|
    && forall p, n: nat :: 0 <= p < |m| ==>
         Bit(m'[p], n) == if (n == 5 && p in accessed) || (n == 6 && p in dirty) then 1 else Bit(m[p], n)
  }

  lemma NothingSet(m: seq<Byte>)
    ensures BitsSet(m, m, [], [])
  {
  }

  lemma AccessedSet(m: seq<Byte>, m': seq<Byte>, accessed: seq<nat>, a: nat)
    requires BitsSet(m, m', accessed, []) && a < |m|
    ensures BitsSet(m, m'[a := SetAccessed(m'[a])], accessed + [a], [])
  {
    hide Bit, SetAccessed;
    forall n: nat ensures Bit(SetAccessed(m'[a]), n) == if n == 5 then 1 else Bit(m'[a], n) { SetsOneBit(m'[a], n); }
  }

  lemma DirtySet(m: seq<Byte>, m': seq<Byte>, accessed: seq<nat>, a: nat)
    requires BitsSet(m, m', accessed, []) && a < |m|
    ensures BitsSet(m, m'[a := SetDirty(m'[a])], accessed, [a])
  {
    hide Bit, SetDirty;
    forall n: nat ensures Bit(SetDirty(m'[a]), n) == if n == 6 then 1 else Bit(m'[a], n) { SetsOneBit(m'[a], n); }
  }

  lemma SettingGrows(m: seq<Byte>, a: nat, wide: bool)
    requires a < |m| && EntryAligned(a, wide)
    ensures BitsGrow(m, m[a := SetAccessed(m[a])], wide) && Accessed(m[a := SetAccessed(m[a])], a)
    ensures BitsGrow(m, m[a := SetDirty(m[a])], wide)
    ensures Accessed(m, a) ==> m[a := SetAccessed(m[a])] == m
  {
    hide ByteGrows, SetDirty, EntryAligned;
    ByteBits(m[a]);
  }

  lemma GrowsSelf(m: seq<Byte>, wide: bool)
    ensures BitsGrow(m, m, wide)
  {
  }

  lemma GrowsTransitive(a: seq<Byte>, b: seq<Byte>, c: seq<Byte>, wide: bool)
    requires BitsGrow(a, b, wide) && BitsGrow(b, c, wide)
    ensures BitsGrow(a, c, wide)
  {
    forall p {:trigger c[p]} | 0 <= p < |a|
      ensures c[p] == a[p] || (EntryAligned(p, wide) && ByteGrows(a[p], c[p]))
    {
      assert b[p] == b[p];
    }
  }

  lemma MarksKept(m: seq<Byte>, m': seq<Byte>, a: nat, wide: bool)
    requires BitsGrow(m, m', wide) && Accessed(m, a)
    ensures Accessed(m', a)
  {
  }

  lemma LowThree(e: nat)
    ensures e % 2 == e % 8 % 2 && e / 2 % 2 == e % 8 / 2 % 2 && e / 4 % 2 == e % 8 / 4
  {
    var q, r := e / 8, e % 8;
    assert e == 2 * (4 * q + r / 2) + r % 2;
    assert e / 2 == 4 * q + r / 2 && e / 2 == 2 * (2 * q + r / 4) + r / 2 % 2;
    assert e / 4 == 2 * q + r / 4;
  }
}
