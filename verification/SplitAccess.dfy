/**
 Loads and stores of 16, 32 and 64 bits in physical memory, where an access that straddles two
 linear pages is cut into pieces by the low four bits of its first address.
 */
module SplitAccess {
  import opened Words
  import opened EntryBits

  const PAGE := 0x1000

  // ---------- numbers as little-endian bytes ----------

  function Value(b: seq<Byte>): (v: nat)
    ensures v < Shl(1, 8 * |b|)
    decreases |b|
  {
    if b == [] then 0 else
    TimesByte(|b| - 1);
    var low: int := b[0];
    low + 0x100 * Value(b[1..])
  }

  function Digits(v: nat, n: nat): (d: seq<Byte>)
    ensures |d| == n
    decreases n
  {
    if n == 0 then [] else [v % 0x100] + Digits(v / 0x100, n - 1)
  }

  lemma TimesByte(n: nat)
    ensures Shl(1, 8 * (n + 1)) == 0x100 * Shl(1, 8 * n)
  {
    hide Shl;
    ShlShl(1, 8 * n, 8);
    ShlEight(Shl(1, 8 * n));
  }

  lemma {:induction false} ValueOfDigits(v: nat, n: nat)
    requires v < Shl(1, 8 * n)
    ensures Value(Digits(v, n)) == v
    decreases n
  {
    if n > 0 {
      TimesByte(n - 1);
      ValueOfDigits(v / 0x100, n - 1);
      assert Digits(v, n)[1..] == Digits(v / 0x100, n - 1);
    }
  }

  lemma {:induction false} DigitsOfValue(b: seq<Byte>)
    ensures Digits(Value(b), |b|) == b
    decreases |b|
  {
    if b != [] {
      DigitsOfValue(b[1..]);
      assert [b[0]] + b[1..] == b;
      LowByteOf(b[0], Value(b[1..]));
    }
  }

  lemma LowByteOf(low: Byte, high: nat)
    ensures (low + 0x100 * high) % 0x100 == low && (low + 0x100 * high) / 0x100 == high
  {
  }

  /** `low | high << 8 * |a|`, the way the pieces of a load are put together. */
  lemma {:induction false} JoinValues(a: seq<Byte>, b: seq<Byte>)
    ensures Or(Value(a), Shl(Value(b), 8 * |a|)) == Value(a + b)
  {
    hide Or, Shl, Value;
    OrCommutes(Value(a), Shl(Value(b), 8 * |a|));
    OrDisjoint(Value(b), Value(a), 8 * |a|);
    ValueOfSum(a, b);
  }

  lemma {:induction false} ValueOfSum(a: seq<Byte>, b: seq<Byte>)
    ensures Value(a + b) == Value(a) + Shl(Value(b), 8 * |a|)
    decreases |a|
  {
    if a == [] {
      assert a + b == b;
    } else {
      assert (a + b)[1..] == a[1..] + b && (a + b)[0] == a[0];
      ValueOfSum(a[1..], b);
      assert Shl(Value(b), 8 * |a|) == 0x100 * Shl(Value(b), 8 * |a[1..]|) by {
        hide Shl, Value;
        ShlShl(Value(b), 8 * |a[1..]|, 8);
        ShlEight(Shl(Value(b), 8 * |a[1..]|));
      }
    }
  }

  lemma {:induction false} SplitDigits(v: nat, i: nat, j: nat)
    ensures Digits(v, i + j) == Digits(v, i) + Digits(Shr(v, 8 * i), j)
    decreases i
  {
    if i > 0 {
      SplitDigits(v / 0x100, i - 1, j);
      assert Shr(v, 8 * i) == Shr(v / 0x100, 8 * (i - 1)) by {
        hide Shr;
        ShrShr(v, 8, 8 * (i - 1));
        ShrEight(v);
      }
    }
  }

  // ---------- where an access lies ----------

  datatype Span = One(addr1: nat) | Two(addr1: nat, addr2: nat)

  /** `translate_laddr`, when the page of `la` lies in frame `f1` and the page after it in `f2`. */
  function Place(la: nat, size: nat, f1: nat, f2: nat): Span {
    if la % PAGE > PAGE - size then Two(PAGE * f1 + la % PAGE, PAGE * f2) else One(PAGE * f1 + la % PAGE)
  }

  /** The physical address of byte `k` of an access. */
  function Where(s: Span, k: nat): nat {
    match s
    case One(a) => a + k
    case Two(a1, a2) => var first := PAGE - a1 % PAGE; if k < first then a1 + k else a2 + (k - first)
  }

  /** Translating `la + k` by itself. */
  function Alone(la: nat, k: nat, f1: nat, f2: nat): nat {
    PAGE * (if (la + k) / PAGE == la / PAGE then f1 else f2) + (la + k) % PAGE
  }

  /** Every byte of an access is where it would be if it were translated by itself. */
  lemma PlaceIsBytewise(la: nat, size: nat, f1: nat, f2: nat, k: nat)
    requires k < size <= 8
    ensures Where(Place(la, size, f1, f2), k) == Alone(la, k, f1, f2)
  {
    var p, o := la / PAGE, la % PAGE;
    assert la == PAGE * p + o;
    InPage(f1, o);
    if o + k < PAGE { InPage(p, o + k); } else { InPage(p + 1, o + k - PAGE); }
  }

  lemma InPage(p: nat, o: nat)
    requires o < PAGE
    ensures (PAGE * p + o) / PAGE == p && (PAGE * p + o) % PAGE == o
  {
  }

  /** A span that `translate_laddr` can form over RAM of `n` bytes, for an access of `size`. */
  predicate InRam(s: Span, size: nat, n: nat) {
    match s
    case One(a) => a + size <= n
    case Two(a1, a2) => a1 % PAGE > PAGE - size && a1 + (PAGE - a1 % PAGE) <= n && a2 % PAGE == 0 && a2 + PAGE <= n
  }

  lemma PlacesInRam(la: nat, size: nat, f1: nat, f2: nat, n: nat)
    requires 1 <= size <= 8 && PAGE * (f1 + 1) <= n && (la % PAGE > PAGE - size ==> PAGE * (f2 + 1) <= n)
    ensures InRam(Place(la, size, f1, f2), size, n)
  {
    InPage(f1, la % PAGE);
    InPage(f2, 0);
  }

  lemma WhereInRam(s: Span, size: nat, n: nat, k: nat)
    requires InRam(s, size, n) && k < size <= 8
    ensures Where(s, k) < n
  {
  }

  /** The bytes of an access, each read by itself. */
  function Bytes(m: seq<Byte>, s: Span, size: nat): (b: seq<Byte>)
    requires InRam(s, size, |m|) && size <= 8
    ensures |b| == size && forall k :: 0 <= k < size ==> Where(s, k) < |m| && b[k] == m[Where(s, k)]
  {
    seq(size, k requires 0 <= k < size => WhereInRam(s, size, |m|, k); m[Where(s, k)])
  }

  function Splice(m: seq<Byte>, a: nat, d: seq<Byte>): (r: seq<Byte>)
    requires a + |d| <= |m|
    ensures |r| == |m|
  {
    m[..a] + d + m[a + |d|..]
  }

  /** The memory after the bytes `d` have been put where an access lies. */
  function Stored(m: seq<Byte>, s: Span, d: seq<Byte>): (r: seq<Byte>)
    requires InRam(s, |d|, |m|) && |d| <= 8
    ensures |r| == |m|
  {
    match s
    case One(a) => Splice(m, a, d)
    case Two(a1, a2) => var first := PAGE - a1 % PAGE; Splice(Splice(m, a1, d[..first]), a2, d[first..])
  }

  /** The end of a page is not the start of one. */
  lemma BeforePageStart(a1: nat, k: nat, a2: nat, n: nat)
    requires a1 % PAGE + k < PAGE && a2 % PAGE == 0 && n <= a1 % PAGE
    ensures !(a2 <= a1 + k < a2 + n)
  {
    var q, t := a1 / PAGE, a2 / PAGE;
    assert a1 == PAGE * q + a1 % PAGE && a2 == PAGE * t;
    if q < t { assert a1 + k < PAGE * (q + 1) <= a2; } else { assert a1 + k >= PAGE * t + n; }
  }

  lemma StoredHit(m: seq<Byte>, s: Span, d: seq<Byte>, k: nat)
    requires InRam(s, |d|, |m|) && k < |d| <= 8
    ensures Where(s, k) < |m| && Stored(m, s, d)[Where(s, k)] == d[k]
  {
    if s.Two? {
      var first := PAGE - s.addr1 % PAGE;
      if k < first {
        var m1 := Splice(m, s.addr1, d[..first]);
        assert m1[s.addr1 + k] == d[k];
        BeforePageStart(s.addr1, k, s.addr2, |d| - first);
      }
    }
  }

  lemma StoredMiss(m: seq<Byte>, s: Span, d: seq<Byte>, p: nat)
    requires InRam(s, |d|, |m|) && p < |m| && |d| <= 8
    ensures Stored(m, s, d)[p] == m[p] || exists k :: 0 <= k < |d| && Where(s, k) == p
  {
    if s.One? {
      if s.addr1 <= p < s.addr1 + |d| { assert Where(s, p - s.addr1) == p; }
    } else {
      var first := PAGE - s.addr1 % PAGE;
      if s.addr1 <= p < s.addr1 + first { assert Where(s, p - s.addr1) == p; }
      if s.addr2 <= p < s.addr2 + (|d| - first) { assert Where(s, first + (p - s.addr2)) == p; }
    }
  }

  /** Every byte of the value arrives where that byte alone would have been stored, and no other byte changes. */
  lemma StoredIsBytewise(m: seq<Byte>, s: Span, d: seq<Byte>)
    requires InRam(s, |d|, |m|) && |d| <= 8
    ensures forall k :: 0 <= k < |d| ==> Where(s, k) < |m| && Stored(m, s, d)[Where(s, k)] == d[k]
    ensures forall p :: 0 <= p < |m| && (forall k :: 0 <= k < |d| ==> p != Where(s, k)) ==> Stored(m, s, d)[p] == m[p]
  {
    hide Stored, Where, InRam;
    forall k | 0 <= k < |d|
      ensures Where(s, k) < |m| && Stored(m, s, d)[Where(s, k)] == d[k]
    {
      StoredHit(m, s, d, k);
    }
    forall p | 0 <= p < |m| && (forall k :: 0 <= k < |d| ==> p != Where(s, k))
      ensures Stored(m, s, d)[p] == m[p]
    {
      StoredMiss(m, s, d, p);
    }
  }

  /** A store followed by a load of the same place gives the value back. */
  lemma LoadAfterStore(m: seq<Byte>, s: Span, size: nat, v: nat)
    requires InRam(s, size, |m|) && size <= 8 && v < Shl(1, 8 * size)
    ensures Value(Bytes(Stored(m, s, Digits(v, size)), s, size)) == v
  {
    hide Stored, Value, Where, Shl;
    StoredIsBytewise(m, s, Digits(v, size));
    assert Bytes(Stored(m, s, Digits(v, size)), s, size) == Digits(v, size);
    ValueOfDigits(v, size);
  }

  /** Storing what was loaded changes nothing. */
  lemma StoreAfterLoad(m: seq<Byte>, s: Span, size: nat)
    requires InRam(s, size, |m|) && size <= 8
    ensures Stored(m, s, Digits(Value(Bytes(m, s, size)), size)) == m
  {
    hide Stored, Value, Where;
    var b := Bytes(m, s, size);
    DigitsOfValue(b);
    StoredIsBytewise(m, s, b);
    forall p | 0 <= p < |m|
      ensures Stored(m, s, b)[p] == m[p]
    {
      if k :| 0 <= k < size && p == Where(s, k) { assert b[k] == m[p]; }
    }
  }

  // ---------- the pieces ----------

  function Row(m: seq<Byte>, a: nat, n: nat): (r: seq<Byte>)
    requires a + n <= |m|
    ensures |r| == n
  {
    m[a..a + n]
  }

  lemma SpliceTwice(m: seq<Byte>, a: nat, d: seq<Byte>, e: seq<Byte>)
    requires a + |d| + |e| <= |m|
    ensures Splice(Splice(m, a, d), a + |d|, e) == Splice(m, a, d + e)
  {
  }

  /** A plain access to a few bytes in a row. */
  lemma BytesInRow(m: seq<Byte>, a: nat, size: nat)
    requires a + size <= |m| && size <= 8
    ensures Bytes(m, One(a), size) == Row(m, a, size)
  {
  }

  lemma BytesSplit(m: seq<Byte>, s: Span, size: nat)
    requires s.Two? && InRam(s, size, |m|) && size <= 8
    ensures var first := PAGE - s.addr1 % PAGE;
            Bytes(m, s, size) == Row(m, s.addr1, first) + Row(m, s.addr2, size - first)
  {
  }

  lemma Rows(m: seq<Byte>, a: nat, i: nat, j: nat)
    requires a + i + j <= |m|
    ensures Row(m, a, i) + Row(m, a + i, j) == Row(m, a, i + j)
  {
  }

  lemma ValueOfBytes(b: seq<Byte>)
    requires |b| == 1 || |b| == 2 || |b| == 4 || |b| == 8
    ensures var x: seq<int> := b;
            Value(b) == match |b|
                        case 1 => x[0]
                        case 2 => x[0] + 0x100 * x[1]
                        case 4 => x[0] + 0x100 * x[1] + 0x1_0000 * x[2] + 0x100_0000 * x[3]
                        case _ => x[0] + 0x100 * x[1] + 0x1_0000 * x[2] + 0x100_0000 * x[3] + 0x1_0000_0000 * x[4]
                                  + 0x100_0000_0000 * x[5] + 0x1_0000_0000_0000 * x[6] + 0x100_0000_0000_0000 * x[7]
  {
    assert Value(b[1..]) == if |b| == 1 then 0 else var l: int := b[1]; l + 0x100 * Value(b[2..]);
  }

  /** Physical memory, all of it RAM. */
  class Ram {
    const mem: array<Byte>

    constructor (size: nat)
      ensures fresh(mem) && mem.Length == size && forall p :: 0 <= p < size ==> mem[p] == 0
    {
      mem := new Byte[size](_ => 0);
    }

    method PLoad8(a: nat) returns (v: nat)
      requires a + 1 <= mem.Length
      ensures v == Value(Row(mem[..], a, 1))
    {
      ValueOfBytes(Row(mem[..], a, 1));
      v := mem[a];
    }

    method PLoad16(a: nat) returns (v: nat)
      requires a + 2 <= mem.Length
      ensures v == Value(Row(mem[..], a, 2))
    {
      ValueOfBytes(Row(mem[..], a, 2));
      var b0: int, b1: int := mem[a], mem[a + 1];
      v := b0 + 0x100 * b1;
    }

    method PLoad32(a: nat) returns (v: nat)
      requires a + 4 <= mem.Length
      ensures v == Value(Row(mem[..], a, 4))
    {
      ValueOfBytes(Row(mem[..], a, 4));
      var b0: int, b1: int, b2: int, b3: int := mem[a], mem[a + 1], mem[a + 2], mem[a + 3];
      v := b0 + 0x100 * b1 + 0x1_0000 * b2 + 0x100_0000 * b3;
    }

    method PLoad64(a: nat) returns (v: nat)
      requires a + 8 <= mem.Length
      ensures v == Value(Row(mem[..], a, 8))
    {
      ValueOfBytes(Row(mem[..], a, 8));
      var b0: int, b1: int, b2: int, b3: int := mem[a], mem[a + 1], mem[a + 2], mem[a + 3];
      var b4: int, b5: int, b6: int, b7: int := mem[a + 4], mem[a + 5], mem[a + 6], mem[a + 7];
      v := b0 + 0x100 * b1 + 0x1_0000 * b2 + 0x100_0000 * b3 + 0x1_0000_0000 * b4 + 0x100_0000_0000 * b5
           + 0x1_0000_0000_0000 * b6 + 0x100_0000_0000_0000 * b7;
    }

    method PStore8(a: nat, v: nat)
      requires a + 1 <= mem.Length
      modifies mem
      ensures mem[..] == Splice(old(mem[..]), a, Digits(v, 1))
    {
      ghost var m := mem[..];
      mem[a] := v % 0x100;
      assert Digits(v, 1) == [v % 0x100];
      assert mem[..] == Splice(m, a, Digits(v, 1));
    }

    method PStore16(a: nat, v: nat)
      requires a + 2 <= mem.Length
      modifies mem
      ensures mem[..] == Splice(old(mem[..]), a, Digits(v, 2))
    {
      hide Shr, Digits;
      ghost var m := mem[..];
      DigitsAre(v, 2);
      mem[a], mem[a + 1] := v % 0x100, Shr(v, 8) % 0x100;
      assert mem[..] == Splice(m, a, Digits(v, 2));
    }

    method PStore32(a: nat, v: nat)
      requires a + 4 <= mem.Length
      modifies mem
      ensures mem[..] == Splice(old(mem[..]), a, Digits(v, 4))
    {
      hide Shr, Digits;
      ghost var m := mem[..];
      DigitsAre(v, 4);
      mem[a], mem[a + 1], mem[a + 2], mem[a + 3] := v % 0x100, Shr(v, 8) % 0x100, Shr(v, 16) % 0x100, Shr(v, 24) % 0x100;
      assert mem[..] == Splice(m, a, Digits(v, 4));
    }

    method PStore64(a: nat, v: nat)
      requires a + 8 <= mem.Length
      modifies mem
      ensures mem[..] == Splice(old(mem[..]), a, Digits(v, 8))
    {
      hide Shr, Digits;
      ghost var m := mem[..];
      DigitsAre(v, 8);
      mem[a], mem[a + 1], mem[a + 2], mem[a + 3] := v % 0x100, Shr(v, 8) % 0x100, Shr(v, 16) % 0x100, Shr(v, 24) % 0x100;
      mem[a + 4], mem[a + 5] := Shr(v, 32) % 0x100, Shr(v, 40) % 0x100;
      mem[a + 6], mem[a + 7] := Shr(v, 48) % 0x100, Shr(v, 56) % 0x100;
      assert mem[..] == Splice(m, a, Digits(v, 8));
    }

    method Load16(s: Span) returns (v: nat)
      requires InRam(s, 2, mem.Length)
      ensures v == Value(Bytes(mem[..], s, 2))
    {
      ghost var m := mem[..];
      match s {
        case One(a) =>
          BytesInRow(m, a, 2);
          v := PLoad16(a);
        case Two(a1, a2) =>
          BytesSplit(m, s, 2);
          var lo := PLoad8(a1);
          var hi := PLoad8(a2);
          JoinValues(Row(m, a1, 1), Row(m, a2, 1));
          v := Or(lo, Shl(hi, 8));
      }
    }

    /** The `switch` on the low four bits covers every access that straddles a page. */
    method Load32(s: Span) returns (v: nat)
      requires InRam(s, 4, mem.Length)
      ensures v == Value(Bytes(mem[..], s, 4))
    {
      hide Or, Shl, Value, Bytes, Row;
      ghost var m := mem[..];
      match s {
        case One(a) =>
          BytesInRow(m, a, 4);
          v := PLoad32(a);
        case Two(a1, a2) =>
          BytesSplit(m, s, 4);
          LowNibble(a1);
          var x, y, z;
          match a1 % 16 {
            case 15 =>
              x := PLoad8(a1);
              y := PLoad16(a2);
              z := PLoad8(a2 + 2);
              Join3(Row(m, a1, 1), Row(m, a2, 2), Row(m, a2 + 2, 1));
              Rows(m, a2, 2, 1);
              v := Or(Or(x, Shl(y, 8)), Shl(z, 24));
            case 14 =>
              x := PLoad16(a1);
              y := PLoad16(a2);
              JoinValues(Row(m, a1, 2), Row(m, a2, 2));
              v := Or(x, Shl(y, 16));
            case 13 =>
              x := PLoad8(a1);
              y := PLoad16(a1 + 1);
              z := PLoad8(a2);
              Join3(Row(m, a1, 1), Row(m, a1 + 1, 2), Row(m, a2, 1));
              Rows(m, a1, 1, 2);
              v := Or(Or(x, Shl(y, 8)), Shl(z, 24));
            case _ => assert false;
          }
      }
    }

    method Load64(s: Span) returns (v: nat)
      requires InRam(s, 8, mem.Length)
      ensures v == Value(Bytes(mem[..], s, 8))
    {
      hide Or, Shl, Value, Bytes, Row;
      ghost var m := mem[..];
      match s {
        case One(a) =>
          BytesInRow(m, a, 8);
          v := PLoad64(a);
        case Two(a1, a2) =>
          BytesSplit(m, s, 8);
          LowNibble(a1);
          var x, y, z, w;
          match a1 % 16 {
            case 15 =>
              x := PLoad8(a1);
              y := PLoad32(a2);
              z := PLoad16(a2 + 4);
              w := PLoad8(a2 + 6);
              Join4(Row(m, a1, 1), Row(m, a2, 4), Row(m, a2 + 4, 2), Row(m, a2 + 6, 1));
              Rows(m, a2, 4, 2);
              Rows(m, a2, 6, 1);
              v := Or(Or(Or(x, Shl(y, 8)), Shl(z, 40)), Shl(w, 56));
            case 14 =>
              x := PLoad16(a1);
              y := PLoad32(a2);
              z := PLoad16(a2 + 4);
              Join3(Row(m, a1, 2), Row(m, a2, 4), Row(m, a2 + 4, 2));
              Rows(m, a2, 4, 2);
              v := Or(Or(x, Shl(y, 16)), Shl(z, 48));
            case 13 =>
              x := PLoad8(a1);
              y := PLoad16(a1 + 1);
              z := PLoad32(a2);
              w := PLoad8(a2 + 4);
              Join4(Row(m, a1, 1), Row(m, a1 + 1, 2), Row(m, a2, 4), Row(m, a2 + 4, 1));
              Rows(m, a1, 1, 2);
              Rows(m, a2, 4, 1);
              v := Or(Or(Or(x, Shl(y, 8)), Shl(z, 24)), Shl(w, 56));
            case 12 =>
              x := PLoad32(a1);
              y := PLoad32(a2);
              JoinValues(Row(m, a1, 4), Row(m, a2, 4));
              v := Or(x, Shl(y, 32));
            case 11 =>
              x := PLoad8(a1);
              y := PLoad32(a1 + 1);
              z := PLoad16(a2);
              w := PLoad8(a2 + 2);
              Join4(Row(m, a1, 1), Row(m, a1 + 1, 4), Row(m, a2, 2), Row(m, a2 + 2, 1));
              Rows(m, a1, 1, 4);
              Rows(m, a2, 2, 1);
              v := Or(Or(Or(x, Shl(y, 8)), Shl(z, 40)), Shl(w, 56));
            case 10 =>
              x := PLoad16(a1);
              y := PLoad32(a1 + 2);
              z := PLoad16(a2);
              Join3(Row(m, a1, 2), Row(m, a1 + 2, 4), Row(m, a2, 2));
              Rows(m, a1, 2, 4);
              v := Or(Or(x, Shl(y, 16)), Shl(z, 48));
            case 9 =>
              x := PLoad8(a1);
              y := PLoad16(a1 + 1);
              z := PLoad32(a1 + 3);
              w := PLoad8(a2);
              Join4(Row(m, a1, 1), Row(m, a1 + 1, 2), Row(m, a1 + 3, 4), Row(m, a2, 1));
              Rows(m, a1, 1, 2);
              Rows(m, a1, 3, 4);
              v := Or(Or(Or(x, Shl(y, 8)), Shl(z, 24)), Shl(w, 56));
            case _ => assert false;
          }
      }
    }

    method Store16(s: Span, v: nat)
      requires InRam(s, 2, mem.Length)
      modifies mem
      ensures mem[..] == Stored(old(mem[..]), s, Digits(v, 2))
    {
      hide Shr, Digits, Splice;
      ghost var m := mem[..];
      match s {
        case One(a) => PStore16(a, v);
        case Two(a1, a2) =>
          StoredSplit(m, s, v, 2);
          LowNibble(a1);
          ShrNothing(v);
          PStore8(a1, v);
          PStore8(a2, Shr(v, 8));
      }
    }

    method Store32(s: Span, v: nat)
      requires InRam(s, 4, mem.Length)
      modifies mem
      ensures mem[..] == Stored(old(mem[..]), s, Digits(v, 4))
    {
      hide Shr, Digits, Splice;
      ghost var m := mem[..];
      match s {
        case One(a) => PStore32(a, v);
        case Two(a1, a2) =>
          StoredSplit(m, s, v, 4);
          LowNibble(a1);
          ShrNothing(v);
          match a1 % 16 {
            case 15 =>
              PStore8(a1, v);
              PStore16(a2, Shr(v, 8));
              PStore8(a2 + 2, Shr(v, 24));
              SpliceDigits(Splice(m, a1, Digits(v, 1)), a2, v, 8, 2, 1);
            case 14 =>
              PStore16(a1, v);
              PStore16(a2, Shr(v, 16));
            case 13 =>
              PStore8(a1, v);
              PStore16(a1 + 1, Shr(v, 8));
              SpliceDigits(m, a1, v, 0, 1, 2);
              PStore8(a2, Shr(v, 24));
            case _ => assert false;
          }
      }
    }

    method Store64(s: Span, v: nat)
      requires InRam(s, 8, mem.Length)
      modifies mem
      ensures mem[..] == Stored(old(mem[..]), s, Digits(v, 8))
    {
      hide Shr, Digits, Splice;
      ghost var m := mem[..];
      match s {
        case One(a) => PStore64(a, v);
        case Two(a1, a2) =>
          StoredSplit(m, s, v, 8);
          LowNibble(a1);
          ShrNothing(v);
          match a1 % 16 {
            case 15 =>
              PStore8(a1, v);
              PStore32(a2, Shr(v, 8));
              PStore16(a2 + 4, Shr(v, 40));
              SpliceDigits(Splice(m, a1, Digits(v, 1)), a2, v, 8, 4, 2);
              PStore8(a2 + 6, Shr(v, 56));
              SpliceDigits(Splice(m, a1, Digits(v, 1)), a2, v, 8, 6, 1);
            case 14 =>
              PStore16(a1, v);
              PStore32(a2, Shr(v, 16));
              PStore16(a2 + 4, Shr(v, 48));
              SpliceDigits(Splice(m, a1, Digits(v, 2)), a2, v, 16, 4, 2);
            case 13 =>
              PStore8(a1, v);
              PStore16(a1 + 1, Shr(v, 8));
              SpliceDigits(m, a1, v, 0, 1, 2);
              PStore32(a2, Shr(v, 24));
              PStore8(a2 + 4, Shr(v, 56));
              SpliceDigits(Splice(m, a1, Digits(v, 3)), a2, v, 24, 4, 1);
            case 12 =>
              PStore32(a1, v);
              PStore32(a2, Shr(v, 32));
            case 11 =>
              PStore8(a1, v);
              PStore32(a1 + 1, Shr(v, 8));
              SpliceDigits(m, a1, v, 0, 1, 4);
              PStore16(a2, Shr(v, 40));
              PStore8(a2 + 2, Shr(v, 56));
              SpliceDigits(Splice(m, a1, Digits(v, 5)), a2, v, 40, 2, 1);
            case 10 =>
              PStore16(a1, v);
              PStore32(a1 + 2, Shr(v, 16));
              SpliceDigits(m, a1, v, 0, 2, 4);
              PStore16(a2, Shr(v, 48));
            case 9 =>
              PStore8(a1, v);
              PStore16(a1 + 1, Shr(v, 8));
              SpliceDigits(m, a1, v, 0, 1, 2);
              PStore32(a1 + 3, Shr(v, 24));
              SpliceDigits(m, a1, v, 0, 3, 4);
              PStore8(a2, Shr(v, 56));
            case _ => assert false;
          }
      }
    }
  }

  /** Near the end of a page the low four bits tell how many bytes are left in it. */
  lemma LowNibble(a: nat)
    requires a % PAGE > PAGE - 8
    ensures PAGE - a % PAGE == 16 - a % 16
  {
    assert a % 16 == a % PAGE % 16 by { assert a == 16 * (0x100 * (a / PAGE) + a % PAGE / 16) + a % PAGE % 16; }
  }

  lemma Join3(a: seq<Byte>, b: seq<Byte>, c: seq<Byte>)
    ensures Or(Or(Value(a), Shl(Value(b), 8 * |a|)), Shl(Value(c), 8 * (|a| + |b|))) == Value(a + b + c) == Value(a + (b + c))
  {
    hide Or, Shl, Value;
    JoinValues(a, b);
    JoinValues(a + b, c);
    assert a + b + c == a + (b + c);
  }

  lemma Join4(a: seq<Byte>, b: seq<Byte>, c: seq<Byte>, d: seq<Byte>)
    ensures Or(Or(Or(Value(a), Shl(Value(b), 8 * |a|)), Shl(Value(c), 8 * (|a| + |b|))), Shl(Value(d), 8 * (|a| + |b| + |c|)))
            == Value(a + b + c + d) == Value(a + (b + c + d)) == Value((a + b) + (c + d))
  {
    hide Or, Shl, Value;
    Join3(a, b, c);
    JoinValues(a + b + c, d);
    assert a + b + c + d == a + (b + c + d) == (a + b) + (c + d);
  }

  lemma ShrNothing(v: nat)
    ensures Shr(v, 0) == v
  {
  }

  /** Storing the digits of `v >> s` in two pieces. */
  lemma SpliceDigits(m: seq<Byte>, a: nat, v: nat, s: nat, i: nat, j: nat)
    requires a + i + j <= |m|
    ensures Splice(Splice(m, a, Digits(Shr(v, s), i)), a + i, Digits(Shr(v, s + 8 * i), j)) == Splice(m, a, Digits(Shr(v, s), i + j))
  {
    hide Shr, Digits;
    ShrShr(v, s, 8 * i);
    SplitDigits(Shr(v, s), i, j);
    SpliceTwice(m, a, Digits(Shr(v, s), i), Digits(Shr(v, s + 8 * i), j));
  }

  lemma StoredSplit(m: seq<Byte>, s: Span, v: nat, size: nat)
    requires s.Two? && InRam(s, size, |m|) && size <= 8
    ensures var first := PAGE - s.addr1 % PAGE;
            Stored(m, s, Digits(v, size)) == Splice(Splice(m, s.addr1, Digits(v, first)), s.addr2, Digits(Shr(v, 8 * first), size - first))
  {
    hide Shr, Digits, Splice;
    var first := PAGE - s.addr1 % PAGE;
    SplitDigits(v, first, size - first);
  }

  lemma DigitsAre(v: nat, n: nat)
    ensures forall k :: 0 <= k < n ==> Digits(v, n)[k] == Shr(v, 8 * k) % 0x100
    ensures n > 0 ==> Digits(v, n)[0] == v % 0x100
  {
    forall k | 0 <= k < n
      ensures Digits(v, n)[k] == Shr(v, 8 * k) % 0x100
    {
      SplitDigits(v, k, n - k);
    }
  }
}
