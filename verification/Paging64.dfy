/**
 Four-level paging: the walk over entries of eight bytes, with pages of 4 KiB, 2 MiB and
 1 GiB, and when the frame that the code forms is the one that the architecture means.
 */
module Paging64 {
  import opened Words
  import opened EntryBits

  type Qword = x: int | 0 <= x < 0x1_0000_0000_0000_0000 witness 0

  const PAGE := 0x1000

  /** The little-endian quadword at `a`, its lowest byte apart. */
  function Upper(m: seq<Byte>, a: nat): (k: nat)
    requires a + 8 <= |m|
    ensures k < 0x100_0000_0000_0000
  {
    var b1: int, b2: int, b3: int, b4: int := m[a + 1], m[a + 2], m[a + 3], m[a + 4];
    var b5: int, b6: int, b7: int := m[a + 5], m[a + 6], m[a + 7];
    b1 + 0x100 * b2 + 0x1_0000 * b3 + 0x100_0000 * b4 + 0x1_0000_0000 * b5 + 0x100_0000_0000 * b6 + 0x1_0000_0000_0000 * b7
  }

  function Qword64(m: seq<Byte>, a: nat): Qword
    requires a + 8 <= |m|
  {
    m[a] + 0x100 * Upper(m, a)
  }

  /** The page number in bits 12 to 51: `e & MASK`, divided by the page size. */
  function PageNumber(e: Qword): nat {
    e / PAGE % 0x100_0000_0000
  }

  predicate Present(e: Qword) { e % 2 == 1 }

  predicate Large(e: Qword) { e / 0x80 % 2 == 1 }

  predicate Writable(e: Qword) { e / 2 % 2 == 1 }

  predicate User(e: Qword) { e / 4 % 2 == 1 }

  /** The index into the table of a level, 4 at the root. */
  function Index(l: nat, level: nat): (i: nat)
    ensures i < 512
  {
    match level
    case 4 => l / 0x800_0000 % 512
    case 3 => l / 0x4_0000 % 512
    case 2 => l / 0x200 % 512
    case _ => l % 512
  }

  function EntryAddr(table: nat, l: nat, level: nat): (a: nat)
    ensures a % 8 == 0 && a + 8 <= PAGE * (table + 1)
  {
    var i := Index(l, level);
    PAGE * table + 8 * i
  }

  /** The part of the page number of a linear address that lies inside a page of `level`. */
  function Inside(l: nat, level: nat): nat {
    match level
    case 3 => l % 0x4_0000
    case 2 => l % 0x200
    case _ => 0
  }

  /** An entry that ends the walk. */
  predicate IsLeaf(e: Qword, level: nat) {
    level == 1 || (level <= 3 && Large(e))
  }

  /** The page number that the code forms: the entry's, with the inner part of the address ORed in. */
  function FrameOf(e: Qword, l: nat, level: nat): nat {
    Or(PageNumber(e), Inside(l, level))
  }

  /** The page number that the architecture means: the frame is aligned to the page size. */
  function AlignedFrame(e: Qword, l: nat, level: nat): nat {
    PageNumber(e) - Inside(PageNumber(e), level) + Inside(l, level)
  }

  /** The tables that a walk reads lie in memory. */
  predicate PathInRam(m: seq<Byte>, table: nat, l: nat, level: nat)
    decreases level
  {
    && PAGE * (table + 1) <= |m|
    && (level > 1 ==>
          var e := Qword64(m, EntryAddr(table, l, level));
          Present(e) && !IsLeaf(e, level) ==> PathInRam(m, PageNumber(e), l, level - 1))
  }

  ghost predicate TablesInRam(m: seq<Byte>, root: nat) {
    forall l: nat :: PathInRam(m, root, l, 4)
  }

  /** A finished walk: `path` lists the present entries passed, the last being the leaf. */
  datatype Walk =
    | Missing(path: seq<nat>)
    | Mapped(frame: nat, us: bool, rw: bool, path: seq<nat>)

  function WalkFrom(m: seq<Byte>, table: nat, l: nat, level: nat): Walk
    requires 1 <= level <= 4 && PathInRam(m, table, l, level)
    decreases level
  {
    var a := EntryAddr(table, l, level);
    var e := Qword64(m, a);
    if !Present(e) then Missing([])
    else if IsLeaf(e, level) then Mapped(FrameOf(e, l, level), User(e), Writable(e), [a])
    else
      match WalkFrom(m, PageNumber(e), l, level - 1)
      case Missing(path) => Missing([a] + path)
      case Mapped(frame, us, rw, path) => Mapped(frame, User(e) && us, Writable(e) && rw, [a] + path)
  }

  // ---------- the walk written out ----------

  /** The four nine-bit fields of a page number, below bits that no table is indexed by. */
  lemma IndexFields(h: nat, a: nat, b: nat, c: nat, d: nat)
    requires a < 512 && b < 512 && c < 512 && d < 512
    ensures var l := 0x10_0000_0000 * h + 0x800_0000 * a + 0x4_0000 * b + 0x200 * c + d;
            && Index(l, 4) == a && Index(l, 3) == b && Index(l, 2) == c && Index(l, 1) == d
            && Inside(l, 3) == 0x200 * c + d && Inside(l, 2) == d
  {
    var l := 0x10_0000_0000 * h + 0x800_0000 * a + 0x4_0000 * b + 0x200 * c + d;
    assert l / 0x200 == 0x800_0000 * h + 0x4_0000 * a + 0x200 * b + c;
    assert l / 0x4_0000 == 0x4_0000 * h + 0x200 * a + b;
    assert l / 0x800_0000 == 0x200 * h + a;
  }

  /** Whether an entry read with `left` levels to go, its own included, names a page: bit 7 marks the large ones. */
  predicate Ends(e: Qword, left: nat) {
    left == 1 || (left <= 3 && e / 0x80 % 2 == 1)
  }

  /** The page of the table that is read after the first `k` entries of a path: bits 12 to 51 of the last of them. */
  function TableAfter(m: seq<Byte>, table: nat, path: seq<nat>, k: nat): nat
    requires k <= |path| && (k > 0 ==> path[k - 1] + 8 <= |m|)
  {
    if k == 0 then table else Qword64(m, path[k - 1]) / 0x1000 % 0x100_0000_0000
  }

  /** Entry `k` of a path lies at eight times its field in the table that the one before it names, and is present. */
  predicate PassesAt(m: seq<Byte>, table: nat, f: seq<nat>, path: seq<nat>, k: nat)
    requires k < |path| <= |f| && path[k] + 8 <= |m| && (k > 0 ==> path[k - 1] + 8 <= |m|)
  {
    var e := Qword64(m, path[k]);
    && path[k] == 0x1000 * TableAfter(m, table, path, k) + 8 * f[k]
    && e % 2 == 1 && (k + 1 < |path| ==> !Ends(e, |f| - k))
  }

  predicate Passes(m: seq<Byte>, table: nat, f: seq<nat>, path: seq<nat>) {
    && |path| <= |f|
    && (forall k :: 0 <= k < |path| ==> path[k] + 8 <= |m|)
    && (forall k :: 0 <= k < |path| ==> PassesAt(m, table, f, path, k))
  }

  /** The part of the page number inside a page found with `left` levels to go: the fields of the levels below. */
  function Within(f: seq<nat>, left: nat): nat
    requires left <= |f|
  {
    if left == 3 then 0x200 * f[|f| - 2] + f[|f| - 1] else if left == 2 then f[|f| - 1] else 0
  }

  /**
   `w` is the walk from `table` for a page number with the fields `f`, told from its path alone: it is missing where the
   next entry is absent, and otherwise it ends in the last entry of the path, with the rights that all of them grant.
   */
  predicate Spells(m: seq<Byte>, table: nat, f: seq<nat>, w: Walk) {
    var n := |w.path|;
    && Passes(m, table, f, w.path)
    && match w
       case Missing(path) =>
         && n < |f| && (n > 0 ==> !Ends(Qword64(m, path[n - 1]), |f| - (n - 1)))
         && var a := 0x1000 * TableAfter(m, table, path, n) + 8 * f[n];
            a + 8 <= |m| && Qword64(m, a) % 2 == 0
       case Mapped(frame, us, rw, path) =>
         n > 0 &&
         var e, left := Qword64(m, path[n - 1]), |f| - (n - 1);
         && Ends(e, left) && frame == Or(e / 0x1000 % 0x100_0000_0000, Within(f, left))
         && (us <==> AllUser(m, path)) && (rw <==> AllWritable(m, path))
  }

  predicate AllUser(m: seq<Byte>, path: seq<nat>)
    requires forall k :: 0 <= k < |path| ==> path[k] + 8 <= |m|
  {
    forall k :: 0 <= k < |path| ==> Qword64(m, path[k]) / 4 % 2 == 1
  }

  predicate AllWritable(m: seq<Byte>, path: seq<nat>)
    requires forall k :: 0 <= k < |path| ==> path[k] + 8 <= |m|
  {
    forall k :: 0 <= k < |path| ==> Qword64(m, path[k]) / 2 % 2 == 1
  }

  /** `w` is spelled by the four nine-bit fields of `l`. */
  ghost predicate SpelledByFields(m: seq<Byte>, root: nat, l: nat, w: Walk) {
    forall a: nat, b: nat, c: nat, d: nat ::
      a < 512 && b < 512 && c < 512 && d < 512 && 0x800_0000 * a + 0x4_0000 * b + 0x200 * c + d == l % 0x10_0000_0000
      ==> Spells(m, root, [a, b, c, d], w)
  }

  lemma WalkSpelledByFields(m: seq<Byte>, root: nat, l: nat)
    requires PathInRam(m, root, l, 4)
    ensures SpelledByFields(m, root, l, WalkFrom(m, root, l, 4))
  {
    hide Spells, PathInRam, WalkFrom;
    forall a: nat, b: nat, c: nat, d: nat
      | a < 512 && b < 512 && c < 512 && d < 512 && 0x800_0000 * a + 0x4_0000 * b + 0x200 * c + d == l % 0x10_0000_0000
      ensures Spells(m, root, [a, b, c, d], WalkFrom(m, root, l, 4))
    {
      WalkSpelled(m, root, l / 0x10_0000_0000, a, b, c, d);
    }
  }

  /** The walk reads what its fields say. */
  lemma WalkSpelled(m: seq<Byte>, root: nat, h: nat, a: nat, b: nat, c: nat, d: nat)
    requires a < 512 && b < 512 && c < 512 && d < 512
    requires PathInRam(m, root, 0x10_0000_0000 * h + 0x800_0000 * a + 0x4_0000 * b + 0x200 * c + d, 4)
    ensures Spells(m, root, [a, b, c, d], WalkFrom(m, root, 0x10_0000_0000 * h + 0x800_0000 * a + 0x4_0000 * b + 0x200 * c + d, 4))
  {
    hide Index, Inside, PathInRam, WalkFrom, Spells;
    IndexFields(h, a, b, c, d);
    SpelledFrom(m, root, 0x10_0000_0000 * h + 0x800_0000 * a + 0x4_0000 * b + 0x200 * c + d, 4, [a, b, c, d]);
  }

  lemma {:induction false} SpelledFrom(m: seq<Byte>, table: nat, l: nat, level: nat, f: seq<nat>)
    requires 1 <= level <= 4 && PathInRam(m, table, l, level) && |f| == level
    requires forall k :: 0 <= k < level ==> f[k] == Index(l, level - k)
    requires (level >= 3 ==> Inside(l, 3) == Within(f, 3)) && (level >= 2 ==> Inside(l, 2) == Within(f, 2))
    ensures Spells(m, table, f, WalkFrom(m, table, l, level))
    decreases level
  {
    hide Qword64, PathInRam, WalkFrom, Index, Or, Spells;
    WalkStep(m, table, l, level);
    assert f[0] == Index(l, level);
    var a := EntryAddr(table, l, level);
    var e := Qword64(m, a);
    if !Present(e) || IsLeaf(e, level) {
      SpelledHere(m, table, f, a);
      assert Inside(l, level) == Within(f, level);
    } else {
      SpelledFrom(m, PageNumber(e), l, level - 1, f[1..]);
      SpelledOnce(m, table, f, a, WalkFrom(m, PageNumber(e), l, level - 1));
    }
  }

  /** A walk that the first entry decides. */
  lemma SpelledHere(m: seq<Byte>, table: nat, f: seq<nat>, a: nat)
    requires f != [] && a == 0x1000 * table + 8 * f[0] && a + 8 <= |m|
    ensures var e := Qword64(m, a);
            if e % 2 == 0 then Spells(m, table, f, Missing([]))
            else Ends(e, |f|) ==> Spells(m, table, f, Mapped(Or(e / 0x1000 % 0x100_0000_0000, Within(f, |f|)),
                                                             e / 4 % 2 == 1, e / 2 % 2 == 1, [a]))
  {
    hide Qword64, Or, Within;
  }

  /** One entry more before a walk. */
  lemma SpelledOnce(m: seq<Byte>, table: nat, f: seq<nat>, a: nat, w: Walk)
    requires f != [] && a == 0x1000 * table + 8 * f[0] && a + 8 <= |m|
    requires var e := Qword64(m, a);
             e % 2 == 1 && !Ends(e, |f|) && Spells(m, e / 0x1000 % 0x100_0000_0000, f[1..], w)
    ensures var e := Qword64(m, a);
            Spells(m, table, f, match w
                                case Missing(path) => Missing([a] + path)
                                case Mapped(frame, us, rw, path) =>
                                  Mapped(frame, e / 4 % 2 == 1 && us, e / 2 % 2 == 1 && rw, [a] + path))
  {
    hide Qword64, Or, PassesAt, Within, Ends;
    var q := [a] + w.path;
    PassesOnce(m, table, f, a, w.path);
    if w.Mapped? {
      WithinRest(f, |f| - |w.path|);
      RightsOnce(m, a, w.path);
      hide AllUser, AllWritable;
      assert q[|q| - 1] == w.path[|w.path| - 1];
    }
  }

  lemma RightsOnce(m: seq<Byte>, a: nat, path: seq<nat>)
    requires a + 8 <= |m| && forall k :: 0 <= k < |path| ==> path[k] + 8 <= |m|
    ensures AllUser(m, [a] + path) <==> Qword64(m, a) / 4 % 2 == 1 && AllUser(m, path)
    ensures AllWritable(m, [a] + path) <==> Qword64(m, a) / 2 % 2 == 1 && AllWritable(m, path)
  {
    hide Qword64;
    var q := [a] + path;
    assert forall k :: 0 <= k < |path| ==> path[k] == q[k + 1];
    assert q[0] == a;
  }

  lemma WithinRest(f: seq<nat>, left: nat)
    requires left < |f|
    ensures Within(f[1..], left) == Within(f, left)
  {
  }

  lemma PassesOnce(m: seq<Byte>, table: nat, f: seq<nat>, a: nat, path: seq<nat>)
    requires f != [] && a == 0x1000 * table + 8 * f[0] && a + 8 <= |m|
    requires var e := Qword64(m, a);
             e % 2 == 1 && !Ends(e, |f|) && Passes(m, e / 0x1000 % 0x100_0000_0000, f[1..], path)
    ensures Passes(m, table, f, [a] + path)
    ensures forall k :: 0 < k <= |path| + 1 ==>
              TableAfter(m, table, [a] + path, k) == TableAfter(m, Qword64(m, a) / 0x1000 % 0x100_0000_0000, path, k - 1)
  {
    hide Qword64, Ends;
    var q := [a] + path;
    assert forall k :: 0 < k < |q| ==> q[k] == path[k - 1];
    forall k | 0 < k <= |q|
      ensures TableAfter(m, table, q, k) == TableAfter(m, Qword64(m, a) / 0x1000 % 0x100_0000_0000, path, k - 1)
    {
    }
    hide TableAfter;
    forall k | 0 <= k < |q|
      ensures PassesAt(m, table, f, q, k)
    {
      if k > 0 {
        assert PassesAt(m, Qword64(m, a) / 0x1000 % 0x100_0000_0000, f[1..], path, k - 1);
      } else {
        NoneBefore(m, table, q);
      }
    }
  }

  lemma NoneBefore(m: seq<Byte>, table: nat, path: seq<nat>)
    ensures TableAfter(m, table, path, 0) == table
  {
  }

  // ---------- the frame ----------

  lemma ShlNine(x: nat)
    ensures Shl(x, 9) == 0x200 * x && Shl(x, 18) == 0x4_0000 * x
  {
    ShlEight(x);
    assert Shl(x, 9) == 2 * Shl(x, 8);
    ShlShl(x, 9, 9);
    ShlEight(0x200 * x);
    assert Shl(0x200 * x, 9) == 2 * Shl(0x200 * x, 8);
  }

  /**
   The code's frame is the aligned one exactly when the entry's bits below the page size,
   which hold the PAT bit and reserved bits, are set only where the address has them too.
   */
  lemma FrameIsAligned(e: Qword, l: nat, level: nat)
    requires 1 <= level <= 3
    ensures var r, y := Inside(PageNumber(e), level), Inside(l, level);
            FrameOf(e, l, level) == AlignedFrame(e, l, level) <==> Or(r, y) == y
  {
    hide Or, Shl;
    var x, y := PageNumber(e), Inside(l, level);
    ShlNine(1);
    match level
    case 1 =>
      OrZero(x);
      OrZero(0);
    case 2 =>
      ShlNine(x / 0x200);
      OrBelow(x / 0x200, x % 0x200, y, 9);
    case 3 =>
      ShlNine(x / 0x4_0000);
      OrBelow(x / 0x4_0000, x % 0x4_0000, y, 18);
  }

  /** Entries of the form that the manual asks for are always translated as meant. */
  lemma CleanEntriesAlign(e: Qword, l: nat, level: nat)
    requires 1 <= level <= 3 && Inside(PageNumber(e), level) == 0
    ensures FrameOf(e, l, level) == AlignedFrame(e, l, level)
  {
    FrameIsAligned(e, l, level);
  }

  /** A 2-MiB entry with its PAT bit, bit 12, set: even pages inside it map one page too high. */
  lemma PatBitExample()
    ensures Present(0x1083) && Large(0x1083) && FrameOf(0x1083, 0, 2) == AlignedFrame(0x1083, 0, 2) + 1
  {
    hide Or;
    assert PageNumber(0x1083) == 1;
    OrZero(1);
  }

  /** The translation that the architecture means: the walk with aligned frames. */
  function AlignedWalk(m: seq<Byte>, table: nat, l: nat, level: nat): Walk
    requires 1 <= level <= 4 && PathInRam(m, table, l, level)
    decreases level
  {
    var a := EntryAddr(table, l, level);
    var e := Qword64(m, a);
    if !Present(e) then Missing([])
    else if IsLeaf(e, level) then Mapped(AlignedFrame(e, l, level), User(e), Writable(e), [a])
    else
      match AlignedWalk(m, PageNumber(e), l, level - 1)
      case Missing(path) => Missing([a] + path)
      case Mapped(frame, us, rw, path) => Mapped(frame, User(e) && us, Writable(e) && rw, [a] + path)
  }

  /** The walk does not end in a large-page entry with bits set below its frame. */
  predicate CleanPath(m: seq<Byte>, table: nat, l: nat, level: nat)
    requires 1 <= level <= 4 && PathInRam(m, table, l, level)
    decreases level
  {
    var e := Qword64(m, EntryAddr(table, l, level));
    !Present(e) || if IsLeaf(e, level) then Inside(PageNumber(e), level) == 0 else CleanPath(m, PageNumber(e), l, level - 1)
  }

  lemma {:induction false} CleanWalk(m: seq<Byte>, table: nat, l: nat, level: nat)
    requires 1 <= level <= 4 && PathInRam(m, table, l, level) && CleanPath(m, table, l, level)
    ensures WalkFrom(m, table, l, level) == AlignedWalk(m, table, l, level)
    decreases level
  {
    hide Qword64, Present, Large, User, Writable, PageNumber, FrameOf, AlignedFrame, EntryAddr, Inside;
    var e := Qword64(m, EntryAddr(table, l, level));
    if Present(e) {
      if IsLeaf(e, level) { CleanEntriesAlign(e, l, level); } else { CleanWalk(m, PageNumber(e), l, level - 1); }
    }
  }

  // ---------- accessed and dirty bits ----------

  lemma SameFields(m: seq<Byte>, m': seq<Byte>, a: nat)
    requires BitsGrow(m, m', true) && a + 8 <= |m| && a % 8 == 0
    ensures var e, e' := Qword64(m, a), Qword64(m', a);
            && Present(e) == Present(e') && Large(e) == Large(e') && Writable(e) == Writable(e') && User(e) == User(e')
            && PageNumber(e) == PageNumber(e')
  {
    hide Upper, BitsGrow, Present, Large, Writable, User, PageNumber;
    SameBytes(m, m', a);
    LowByte(m[a], Upper(m, a));
    LowByte(m'[a], Upper(m, a));
  }

  /** Accessed and dirty bits are in the first byte of an entry, and are neither its low three nor its top bit. */
  lemma SameBytes(m: seq<Byte>, m': seq<Byte>, a: nat)
    requires BitsGrow(m, m', true) && a + 8 <= |m| && a % 8 == 0
    ensures |m'| == |m| && Upper(m', a) == Upper(m, a) && m'[a] % 8 == m[a] % 8 && m'[a] / 0x80 == m[a] / 0x80
  {
    assert m'[a + 1] == m[a + 1] && m'[a + 2] == m[a + 2] && m'[a + 3] == m[a + 3] && m'[a + 4] == m[a + 4];
    assert m'[a + 5] == m[a + 5] && m'[a + 6] == m[a + 6] && m'[a + 7] == m[a + 7];
  }

  lemma LowByte(b: Byte, k: nat)
    requires k < 0x100_0000_0000_0000
    ensures var e: Qword := b + 0x100 * k;
            && (Present(e) <==> b % 8 % 2 == 1) && (Large(e) <==> b / 0x80 == 1)
            && (Writable(e) <==> b % 8 / 2 % 2 == 1) && (User(e) <==> b % 8 / 4 == 1)
            && PageNumber(e) == k / 16 % 0x100_0000_0000
  {
    var e: Qword := b + 0x100 * k;
    LowBits(b, k);
    assert e / PAGE == k / 16;
  }

  lemma LowBits(b: Byte, k: nat)
    ensures var e: int := b + 0x100 * k;
            && e % 2 == b % 8 % 2 && e / 2 % 2 == b % 8 / 2 % 2 && e / 4 % 2 == b % 8 / 4 && e / 0x80 % 2 == b / 0x80
  {
    assert (b + 0x100 * k) % 8 == b % 8 by { LowestThree(b, k); }
    LowThree(b + 0x100 * k);
    LowThree(b);
    TopBit(b, k);
  }

  lemma LowestThree(b: int, k: int)
    ensures (b + 0x100 * k) % 8 == b % 8
  {
    assert b + 0x100 * k == 8 * (b / 8 + 0x20 * k) + b % 8;
  }

  lemma TopBit(b: Byte, k: nat)
    ensures (b + 0x100 * k) / 0x80 % 2 == b / 0x80
  {
    assert (b + 0x100 * k) / 0x80 == 2 * k + b / 0x80;
  }

  /** One step of the walk. */
  lemma WalkStep(m: seq<Byte>, table: nat, l: nat, level: nat)
    requires 1 <= level <= 4 && PathInRam(m, table, l, level)
    ensures EntryAddr(table, l, level) + 8 <= |m|
    ensures var a := EntryAddr(table, l, level);
            var e := Qword64(m, a);
            if !Present(e) then WalkFrom(m, table, l, level) == Missing([])
            else if IsLeaf(e, level) then WalkFrom(m, table, l, level) == Mapped(FrameOf(e, l, level), User(e), Writable(e), [a])
            else
              && level > 1 && PathInRam(m, PageNumber(e), l, level - 1)
              && WalkFrom(m, table, l, level) == match WalkFrom(m, PageNumber(e), l, level - 1)
                                                 case Missing(path) => Missing([a] + path)
                                                 case Mapped(frame, us, rw, path) => Mapped(frame, User(e) && us, Writable(e) && rw, [a] + path)
  {
  }

  lemma PathStep(m: seq<Byte>, table: nat, l: nat, level: nat)
    requires 1 <= level <= 4 && PAGE * (table + 1) <= |m|
    requires var e := Qword64(m, EntryAddr(table, l, level));
             Present(e) && !IsLeaf(e, level) ==> level > 1 && PathInRam(m, PageNumber(e), l, level - 1)
    ensures PathInRam(m, table, l, level)
  {
  }

  /** A walk reads nothing that the accessed and dirty bits change. */
  lemma {:induction false} SameWalk(m: seq<Byte>, m': seq<Byte>, table: nat, l: nat, level: nat)
    requires BitsGrow(m, m', true) && 1 <= level <= 4 && PathInRam(m, table, l, level)
    ensures PathInRam(m', table, l, level) && WalkFrom(m', table, l, level) == WalkFrom(m, table, l, level)
    decreases level
  {
    hide BitsGrow, Qword64, Present, Large, Writable, User, PageNumber, FrameOf, EntryAddr, PathInRam, WalkFrom;
    SameLength(m, m');
    PathRoom(m, table, l, level);
    WalkStep(m, table, l, level);
    var a := EntryAddr(table, l, level);
    SameFields(m, m', a);
    var e, e' := Qword64(m, a), Qword64(m', a);
    if Present(e) && !IsLeaf(e, level) { SameWalk(m, m', PageNumber(e), l, level - 1); }
    PathStep(m', table, l, level);
    WalkStep(m', table, l, level);
    SameFrame(e, e', l, level);
  }

  lemma SameLength(m: seq<Byte>, m': seq<Byte>)
    requires BitsGrow(m, m', true)
    ensures |m'| == |m|
  {
  }

  lemma PathRoom(m: seq<Byte>, table: nat, l: nat, level: nat)
    requires PathInRam(m, table, l, level)
    ensures PAGE * (table + 1) <= |m|
  {
  }

  lemma SameFrame(e: Qword, e': Qword, l: nat, level: nat)
    requires PageNumber(e) == PageNumber(e')
    ensures FrameOf(e, l, level) == FrameOf(e', l, level)
  {
  }
}
