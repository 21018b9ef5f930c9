/**
 Protected-mode segments of the 32-bit core: descriptors, the cached parts of the segment
 registers, and linear memory as supervisor code reaches it.
 */
module Segments {
  import opened EntryBits
  import opened SplitAccess
  import opened Words

  type Selector = x: int | 0 <= x < 0x1_0000 witness 0
  type Eflags = bv32

  const TF: Eflags := 0x100
  const IF: Eflags := 0x200
  const IOPL: Eflags := 0x3000
  const NT: Eflags := 0x4000
  const RF: Eflags := 0x1_0000
  const VM: Eflags := 0x2_0000
  const ARITHMETIC: Eflags := 0x8d5

  const GP := 13
  const NP := 11
  const SS_FAULT := 12

  function FlagsWord(f: Eflags): Word { f as int }

  function WordFlags(w: Word): Eflags { w as Eflags }

  lemma FlagsRoundTrip(f: Eflags)
    ensures WordFlags(FlagsWord(f)) == f
  {
  }

  /** `flags` of the cached part holds bits 8 to 23 of the descriptor's high word. */
  datatype Seg = Seg(sel: Selector, base: Word, limit: Word, flags: nat)

  /** The D or B bit. */
  predicate Big(s: Seg) { s.flags / 0x4000 % 2 == 1 }

  /** Tables and pages that interrupts leave alone; `reach` tells what supervisor code may access. */
  datatype Env = Env(gdtBase: Word, gdtLimit: Word, ldt: Seg, tr: Seg, idtBase: Word, idtLimit: Word,
                     flagsMask: Eflags, reach: (nat, bool) -> bool)

  ghost predicate ValidEnv(e: Env, ram: nat) {
    && ram <= 0x1_0000_0000
    && (forall p: nat, write: bool :: e.reach(p, write) ==> PAGE * (p + 1) <= ram)
    && (forall p: nat :: e.reach(p, true) ==> e.reach(p, false))
    && e.flagsMask & VM == VM
  }

  datatype Failure = Raise(vector: nat, code: nat) | PageFault | Abort | Unmodelled

  datatype Result<T> = Ok(value: T) | Failed(why: Failure)

  /** Whether a translation of four bytes at `la` succeeds. */
  predicate Reach(e: Env, la: Word, write: bool) {
    e.reach(la / PAGE, write) && (la % PAGE > PAGE - 4 ==> e.reach(la / PAGE + 1, write))
  }

  function BytePage(la: Word, k: nat): nat { (la + k) / PAGE }

  /** Four bytes can be accessed exactly if the page of each of them can. */
  lemma ReachIsBytewise(e: Env, la: Word, write: bool)
    ensures Reach(e, la, write) <==> forall k: nat :: k < 4 ==> e.reach(BytePage(la, k), write)
  {
    var p, o := la / PAGE, la % PAGE;
    forall k: nat | k < 4 ensures BytePage(la, k) == if o + k < PAGE then p else p + 1 {
      if o + k < PAGE { InPage(p, o + k); } else { InPage(p + 1, o + k - PAGE); }
    }
    assert BytePage(la, 0) == p && (o > PAGE - 4 ==> BytePage(la, 3) == p + 1);
  }

  lemma ReachIsRam(e: Env, ram: nat, la: Word, write: bool)
    requires ValidEnv(e, ram) && Reach(e, la, write)
    ensures la + 4 <= ram && Reach(e, la, false)
  {
  }

  function Dword(m: seq<Byte>, a: nat): (w: Word)
    requires a + 4 <= |m|
  {
    ValueOfBytes(Row(m, a, 4));
    Value(Row(m, a, 4))
  }

  function PutDword(m: seq<Byte>, a: nat, w: Word): (r: seq<Byte>)
    requires a + 4 <= |m|
    ensures |r| == |m|
  {
    Splice(m, a, Digits(w, 4))
  }

  lemma FourBytes()
    ensures Shl(1, 8 * 4) == 0x1_0000_0000
  {
    Constants(1);
  }

  lemma DwordOfPut(m: seq<Byte>, a: nat, w: Word, b: nat)
    requires a + 4 <= |m| && b + 4 <= |m|
    ensures a == b ==> Dword(PutDword(m, a, w), b) == w
    ensures a + 4 <= b || b + 4 <= a ==> Dword(PutDword(m, a, w), b) == Dword(m, b)
  {
    if a == b {
      FourBytes();
      ValueOfDigits(w, 4);
      assert Row(PutDword(m, a, w), a, 4) == Digits(w, 4);
    } else if a + 4 <= b || b + 4 <= a {
      assert Row(PutDword(m, a, w), b, 4) == Row(m, b, 4);
    }
  }

  // ---------- descriptors ----------

  function DescOffset(sel: Selector): nat { sel - sel % 8 }

  /** `sel & ~3`. */
  function Rounded(sel: Selector): nat { sel - sel % 4 }

  function TableOf(e: Env, sel: Selector): (Word, Word) {
    if sel / 4 % 2 == 1 then (e.ldt.base, e.ldt.limit) else (e.gdtBase, e.gdtLimit)
  }

  function IsSegment(w2: Word): bool { w2 / 0x1000 % 2 == 1 }
  function IsCode(w2: Word): bool { w2 / 0x800 % 2 == 1 }
  function IsConforming(w2: Word): bool { w2 / 0x400 % 2 == 1 }
  function Dpl(w2: Word): (d: nat) ensures d < 4 { w2 / 0x2000 % 4 }
  function IsPresent(w2: Word): bool { w2 / 0x8000 % 2 == 1 }

  /** The high word of a descriptor. */
  function HighWord(e: Env, m: seq<Byte>, sel: Selector): Result<Word>
    requires ValidEnv(e, |m|)
  {
    var (base, limit) := TableOf(e, sel);
    if DescOffset(sel) + 7 > limit then Failed(Raise(GP, Rounded(sel)))
    else
      var a := Wrap(base + DescOffset(sel) + 4);
      if !Reach(e, a, false) then Failed(PageFault) else (ReachIsRam(e, |m|, a, false); Ok(Dword(m, a)))
  }

  /** `read_desc`: both words. */
  function ReadDesc(e: Env, m: seq<Byte>, sel: Selector): Result<(Word, Word)>
    requires ValidEnv(e, |m|)
  {
    var (base, limit) := TableOf(e, sel);
    if DescOffset(sel) + 7 > limit then Failed(Raise(GP, Rounded(sel)))
    else
      var a := Wrap(base + DescOffset(sel));
      if !Reach(e, a, false) then Failed(PageFault)
      else match HighWord(e, m, sel)
        case Failed(why) => Failed(why)
        case Ok(w2) => ReachIsRam(e, |m|, a, false); Ok((Dword(m, a), w2))
  }

  function SegOf(sel: Selector, w1: Word, w2: Word): Seg {
    var limit := w2 / 0x1_0000 % 16 * 0x1_0000 + w1 % 0x1_0000;
    Seg(sel, w1 / 0x1_0000 + 0x1_0000 * (w2 % 0x100) + 0x100_0000 * (w2 / 0x100_0000),
        if w2 / 0x80_0000 % 2 == 1 then limit * 0x1000 + 0xfff else limit, w2 / 0x100 % 0x1_0000)
  }

  /** Base and limit by their digits, and what the kept flags say: the D or B bit, the privilege, code, conforming. */
  lemma SegFields(sel: Selector, w1: Word, w2: Word)
    ensures var s, l := SegOf(sel, w1, w2), 0x1_0000 * (w2 / 0x1_0000 % 16) + w1 % 0x1_0000;
            && s.base % 0x1_0000 == w1 / 0x1_0000 && s.base / 0x1_0000 % 0x100 == w2 % 0x100 && s.base / 0x100_0000 == w2 / 0x100_0000
            && s.limit == (if w2 / 0x80_0000 % 2 == 1 then 0x1000 * (l + 1) - 1 else l)
            && (Big(s) <==> w2 / 0x40_0000 % 2 == 1) && s.flags / 0x20 % 4 == w2 / 0x2000 % 4
            && s.flags / 8 % 2 == w2 / 0x800 % 2 && s.flags / 4 % 2 == w2 / 0x400 % 2
  {
    BaseDigits(w1 / 0x1_0000, w2 % 0x100, w2 / 0x100_0000);
    FlagDigits(w2);
  }

  lemma FlagDigits(w: Word)
    ensures var f := w / 0x100 % 0x1_0000;
            && f / 0x4000 % 2 == w / 0x40_0000 % 2 && f / 0x20 % 4 == w / 0x2000 % 4
            && f / 8 % 2 == w / 0x800 % 2 && f / 4 % 2 == w / 0x400 % 2
  {
    var x := w / 0x100;
    var q, f := x / 0x1_0000, x % 0x1_0000;
    DivideTwice(w);
    FlagParts(q, f);
    DropHigh(2 * q, f / 0x4000);
    DropHigh(0x1000 * q, f / 8);
    DropHigh(0x2000 * q, f / 4);
    DropFour(0x200 * q, f / 0x20);
  }

  lemma DropHigh(a: nat, t: nat)
    ensures (2 * a + t) % 2 == t % 2
  {
  }

  lemma DropFour(a: nat, t: nat)
    ensures (4 * a + t) % 4 == t % 4
  {
  }

  lemma DivideTwice(w: nat)
    ensures w / 0x100 / 0x4000 == w / 0x40_0000 && w / 0x100 / 0x20 == w / 0x2000
    ensures w / 0x100 / 8 == w / 0x800 && w / 0x100 / 4 == w / 0x400
  {
  }

  lemma FlagParts(q: nat, f: nat)
    requires f < 0x1_0000
    ensures var x := 0x1_0000 * q + f; x / 0x4000 == 4 * q + f / 0x4000 && x / 0x20 == 0x800 * q + f / 0x20
    ensures var x := 0x1_0000 * q + f; x / 8 == 0x2000 * q + f / 8 && x / 4 == 0x4000 * q + f / 4
  {
  }

  lemma BaseDigits(a: nat, b: nat, c: nat)
    requires a < 0x1_0000 && b < 0x100
    ensures var x := a + 0x1_0000 * b + 0x100_0000 * c; x % 0x1_0000 == a && x / 0x1_0000 % 0x100 == b && x / 0x100_0000 == c
  {
    var x, y := a + 0x1_0000 * b + 0x100_0000 * c, b + 0x100 * c;
    assert x == 0x1_0000 * y + a;
    LowerSixteen(y, a);
    LowerEight(c, b);
    DivByBytes(x);
  }

  lemma LowerSixteen(y: nat, a: nat)
    requires a < 0x1_0000
    ensures (0x1_0000 * y + a) / 0x1_0000 == y && (0x1_0000 * y + a) % 0x1_0000 == a
  {
  }

  lemma LowerEight(y: nat, a: nat)
    requires a < 0x100
    ensures (0x100 * y + a) / 0x100 == y && (0x100 * y + a) % 0x100 == a
  {
  }

  datatype SegName = ES | CS | SS | DS | FS | GS

  /** What `set_seg` loads into the cached part. */
  function Loaded(e: Env, m: seq<Byte>, vm: bool, which: SegName, sel: Selector): (r: Result<Seg>)
    requires ValidEnv(e, |m|)
    ensures r.Ok? ==> r.value.sel == sel
  {
    if vm then Ok(Seg(sel, 16 * sel, 0xffff, 0)) else
    match ReadDesc(e, m, sel)
    case Failed(why) => Failed(why)
    case Ok((w1, w2)) =>
      if Rounded(sel) != 0 && (which.DS? || which.ES? || which.FS? || which.GS?) && !IsSegment(w2) then Failed(Raise(GP, Rounded(sel)))
      else if Rounded(sel) != 0 && !IsPresent(w2) then Failed(Raise(if which.SS? then SS_FAULT else NP, Rounded(sel)))
      else Ok(SegOf(sel, w1, w2))
  }

  /** The dword at `p`, or 0 outside memory. */
  function DwordOr(m: seq<Byte>, p: nat): Word {
    if p + 4 <= |m| then Dword(m, p) else 0
  }

  /** The linear addresses of the two dwords of a descriptor, and whether they lie in the table. */
  function DescPlace(e: Env, sel: Selector): (Word, Word, bool) {
    var ldt := sel / 4 % 2 == 1;
    var base, limit := if ldt then e.ldt.base else e.gdtBase, if ldt then e.ldt.limit else e.gdtLimit;
    ((base + 8 * (sel / 8)) % 0x1_0000_0000, (base + 8 * (sel / 8) + 4) % 0x1_0000_0000, 8 * (sel / 8) + 7 <= limit)
  }

  /**
   A selector loads in protected mode exactly if both dwords of its descriptor lie in the table and can be read and, unless
   it is null, the descriptor is present and, for a data register, that of a segment.
   */
  lemma LoadsExactly(e: Env, m: seq<Byte>, which: SegName, sel: Selector)
    requires ValidEnv(e, |m|)
    ensures var (a, b, inTable) := DescPlace(e, sel);
            var g, w := Loaded(e, m, false, which, sel), DwordOr(m, b);
            && (g.Ok? <==>
                  && inTable && Reach(e, a, false) && Reach(e, b, false)
                  && (sel >= 4 ==> w / 0x8000 % 2 == 1 && (which.SS? || which.CS? || w / 0x1000 % 2 == 1)))
            && (g.Ok? ==> g.value == SegOf(sel, DwordOr(m, a), w))
  {
    hide Dword, SegOf, Reach, TableOf, DescOffset, Rounded, Wrap, DescPlace;
    DescriptorAt(e, sel);
    ReadableInRam(e, |m|, DescPlace(e, sel).0);
    ReadableInRam(e, |m|, DescPlace(e, sel).1);
  }

  /** A selector that does not load faults with its own number: absent as vector 12 for SS and 11 for the others, and else as 13. */
  lemma LoadFaults(e: Env, m: seq<Byte>, which: SegName, sel: Selector)
    requires ValidEnv(e, |m|)
    ensures var (_, b, inTable) := DescPlace(e, sel);
            var g, w := Loaded(e, m, false, which, sel), DwordOr(m, b);
            var noSegment := !which.SS? && !which.CS? && w / 0x1000 % 2 == 0;
            g.Failed? && g.why.Raise? ==>
              g.why == Raise(if !inTable || noSegment then 13 else if which.SS? then 12 else 11, 4 * (sel / 4))
  {
    hide Dword, SegOf, Reach, TableOf, DescOffset, Rounded, Wrap, DescPlace;
    DescriptorAt(e, sel);
    ReadableInRam(e, |m|, DescPlace(e, sel).0);
    ReadableInRam(e, |m|, DescPlace(e, sel).1);
  }

  lemma DescriptorAt(e: Env, sel: Selector)
    ensures var (base, limit) := TableOf(e, sel);
            DescPlace(e, sel) == (Wrap(base + DescOffset(sel)), Wrap(base + DescOffset(sel) + 4), DescOffset(sel) + 7 <= limit)
    ensures Rounded(sel) == 4 * (sel / 4) && (Rounded(sel) != 0 <==> sel >= 4)
  {
  }

  lemma ReadableInRam(e: Env, ram: nat, a: Word)
    requires ValidEnv(e, ram)
    ensures Reach(e, a, false) ==> a + 4 <= ram
  {
    if Reach(e, a, false) { ReachIsRam(e, ram, a, false); }
  }

  // ---------- the processor state ----------

  datatype Segs = Segs(es: Seg, cs: Seg, ss: Seg, ds: Seg, fs: Seg, gs: Seg)

  /** While `pending`, the arithmetic flags are those in `arith` and not those in `word`. */
  datatype Flags = Flags(word: Eflags, pending: bool, arith: Eflags)

  datatype Core = Core(m: seq<Byte>, flags: Flags, cpl: nat, ip: Word, nextIp: Word, esp: Word, segs: Segs)

  predicate Has(w: Eflags, bit: Eflags) { w & bit != 0 }

  function Off(w: Eflags, bits: Eflags): Eflags { w & !bits }

  function On(w: Eflags, bits: Eflags): Eflags { w | bits }

  /** The bits of `a` that `mask` selects, the others from `w`. */
  function Merge(w: Eflags, a: Eflags, mask: Eflags): Eflags {
    (w & !mask) | (a & mask)
  }

  /** EFLAGS as the architecture defines it, and what `refresh_flags` leaves. */
  function Effective(f: Flags): Eflags {
    if f.pending then Merge(f.word, f.arith, ARITHMETIC) else f.word
  }

  predicate InVm(c: Core) { Has(c.flags.word, VM) }

  function PutSeg(s: Segs, which: SegName, g: Seg): Segs {
    match which
    case ES => s.(es := g)
    case CS => s.(cs := g)
    case SS => s.(ss := g)
    case DS => s.(ds := g)
    case FS => s.(fs := g)
    case GS => s.(gs := g)
  }

  /** `set_seg`. */
  function WithSeg(e: Env, c: Core, which: SegName, sel: Selector): Result<Core>
    requires ValidEnv(e, |c.m|)
  {
    match Loaded(e, c.m, InVm(c), which, sel)
    case Failed(why) => Failed(why)
    case Ok(g) =>
      Ok(c.(segs := PutSeg(c.segs, which, g), cpl := if !which.CS? then c.cpl else if InVm(c) then 3 else sel % 4))
  }

  // ---------- the stack ----------

  function Masked(ss: Seg, x: int): Word {
    if Big(ss) then Wrap(x) else x % 0x1_0000
  }

  /** `set_sp`. */
  function NewSp(ss: Seg, esp: Word, x: int): Word {
    if Big(ss) then Wrap(x) else x % 0x1_0000 + (esp - esp % 0x1_0000)
  }

  /** Where the dword at stack offset `x` lies. */
  function Slot(ss: Seg, x: int): Word {
    Wrap(ss.base + Masked(ss, x))
  }

  /** A 16-bit stack wraps within 64 KiB and leaves the upper half of ESP alone; a 32-bit one uses the whole register. */
  lemma SpMoves(ss: Seg, esp: Word, x: int)
    ensures var sp := NewSp(ss, esp, x);
            if Big(ss) then (sp - x) % 0x1_0000_0000 == 0 else sp / 0x1_0000 == esp / 0x1_0000 && (sp - x) % 0x1_0000 == 0
    ensures (Masked(ss, x) - x) % (if Big(ss) then 0x1_0000_0000 else 0x1_0000) == 0 && (!Big(ss) ==> Masked(ss, x) < 0x1_0000)
  {
    if Big(ss) { LongWraps(x); } else { ShortWraps(esp, x); }
  }

  lemma LongWraps(x: int)
    ensures (Wrap(x) - x) % 0x1_0000_0000 == 0
  {
    assert Wrap(x) - x == 0x1_0000_0000 * -(x / 0x1_0000_0000);
  }

  lemma ShortWraps(esp: Word, x: int)
    ensures var low := x % 0x1_0000; var sp := low + (esp - esp % 0x1_0000);
            (low - x) % 0x1_0000 == 0 && (sp - x) % 0x1_0000 == 0 && sp / 0x1_0000 == esp / 0x1_0000
  {
    var low, h, q := x % 0x1_0000, esp / 0x1_0000, x / 0x1_0000;
    assert low - x == 0x1_0000 * -q && low + 0x1_0000 * h - x == 0x1_0000 * (h - q);
    WholeSixteen(-q);
    WholeSixteen(h - q);
    LowerSixteen(h, low);
  }

  lemma WholeSixteen(k: int)
    ensures 0x1_0000 * k % 0x1_0000 == 0
  {
  }

  /** A null selector cannot be used. */
  predicate Usable(s: Seg) { !(s.limit == 0 && Rounded(s.sel) == 0) }

  /** `translate` of four bytes of the stack. */
  predicate StackOk(e: Env, ss: Seg, x: int, write: bool) {
    Usable(ss) && Reach(e, Slot(ss, x), write)
  }

  function StackFailure(ss: Seg): Failure {
    if !Usable(ss) then Raise(GP, 0) else PageFault
  }

  /** Only a null selector without a limit cannot be used, as vector 13 with code 0 says; other failures of a stack are page faults. */
  lemma NullSegment(s: Seg)
    ensures Usable(s) <==> s.limit > 0 || s.sel >= 4
    ensures StackFailure(s) == if s.limit == 0 && s.sel < 4 then Raise(13, 0) else PageFault
  {
  }
}
