/**
 The arithmetic flags of the 32-bit core. An ALU instruction does not compute EFLAGS: it
 leaves its operands in the record `cc`, and a flag is derived from the record when it is
 read. `Arch` states what Intel's manual requires of one instruction (flags that the
 manual calls undefined are unconstrained), and `Cpu.Run` shows which steps of a program
 meet it.
 */
module FlagSemantics {
  import opened Words

  datatype Width = W8 | W16 | W32

  function Bits(w: Width): (b: nat)
    ensures 8 <= b <= 32
  {
    match w case W8 => 8 case W16 => 16 case W32 => 32
  }

  /** 2 to the power of the width. */
  function Size(w: Width): int {
    match w case W8 => 0x100 case W16 => 0x1_0000 case W32 => 0x1_0000_0000
  }

  function Half(w: Width): int {
    match w case W8 => 0x80 case W16 => 0x8000 case W32 => 0x8000_0000
  }

  function Trunc(w: Width, x: int): Word {
    match w case W8 => x % 0x100 case W16 => x % 0x1_0000 case W32 => x % 0x1_0000_0000
  }

  /** The remainder of a number given by quotient and remainder. */
  lemma TruncOf(w: Width, q: int, r: int)
    requires 0 <= r < Size(w)
    ensures Trunc(w, Size(w) * q + r) == r
  {
    match w
    case W8 => Remainder8(q, r);
    case W16 => Remainder16(q, r);
    case W32 => Remainder32(q, r);
  }

  lemma Remainder8(q: int, r: int)
    requires 0 <= r < 0x100
    ensures (0x100 * q + r) % 0x100 == r
  {
  }

  lemma Remainder16(q: int, r: int)
    requires 0 <= r < 0x1_0000
    ensures (0x1_0000 * q + r) % 0x1_0000 == r
  {
  }

  lemma Remainder32(q: int, r: int)
    requires 0 <= r < 0x1_0000_0000
    ensures (0x1_0000_0000 * q + r) % 0x1_0000_0000 == r
  {
  }

  function Quotient(w: Width, x: int): int {
    match w case W8 => x / 0x100 case W16 => x / 0x1_0000 case W32 => x / 0x1_0000_0000
  }

  lemma Division(w: Width, x: int)
    ensures x == Size(w) * Quotient(w, x) + Trunc(w, x) && 0 <= Trunc(w, x) < Size(w)
  {
  }

  /** The value read as a two's complement number of width `w`. */
  function Signed(w: Width, x: int): int {
    if Trunc(w, x) >= Half(w) then Trunc(w, x) - Size(w) else Trunc(w, x)
  }

  function Sext(w: Width, x: int): Word {
    Wrap(Signed(w, x))
  }

  function Num(b: bool): nat {
    if b then 1 else 0
  }

  datatype Flags = Flags(cf: bool, pf: bool, af: bool, zf: bool, sf: bool, of: bool)

  datatype Logic = AndOp | OrOp | XorOp

  datatype ShiftKind = SHL | SHR | SAR | RCL | RCR | ROL | ROR

  datatype Instr =
    | Acop(sub: bool, w: Width, a: Word, b: Word)            // ADC, SBB
    | Aop(sub: bool, w: Width, a: Word, b: Word)             // ADD, SUB, CMP
    | Lop(logic: Logic, w: Width, a: Word, b: Word)          // AND, OR, XOR, TEST
    | IncDec(sub: bool, w: Width, a: Word)                   // INC, DEC
    | Neg(w: Width, a: Word)
    | Mul(signed: bool, w: Width, a: Word, b: Word)          // MUL, IMUL
    | Shift(kind: ShiftKind, w: Width, a: Word, count: Word)
    | Clc | Stc | Cmc | Lahf
    | Sahf(ah: bv8)

  /** Operands come from registers or memory of the instruction's width. */
  predicate Encodable(i: Instr) {
    match i
    case Acop(_, w, a, b) => a < Size(w) && b < Size(w)
    case Aop(_, w, a, b) => a < Size(w) && b < Size(w)
    case Lop(_, w, a, b) => a < Size(w) && b < Size(w)
    case IncDec(_, w, a) => a < Size(w)
    case Neg(w, a) => a < Size(w)
    case Mul(_, w, a, b) => a < Size(w) && b < Size(w)
    case Shift(_, w, a, _) => a < Size(w)
    case _ => true
  }

  // ---------- what the architecture requires ----------

  /** The number of ones among the binary digits. */
  function Ones(x: nat): nat {
    if x == 0 then 0 else x % 2 + Ones(x / 2)
  }

  ghost predicate ResultFlags(w: Width, r: nat, f: Flags) {
    && (f.zf <==> r == 0)
    && (f.sf <==> r >= Half(w))
    && (f.pf <==> Ones(r % 0x100) % 2 == 0)
  }

  ghost predicate ArchAdd(w: Width, a: Word, b: Word, c: nat, r: Word, f: Flags) {
    && r == Trunc(w, a + b + c)
    && (f.cf <==> a + b + c >= Size(w))
    && (f.of <==> !(-Half(w) <= Signed(w, a) + Signed(w, b) + c < Half(w)))
    && (f.af <==> a % 16 + b % 16 + c >= 16)
    && ResultFlags(w, r, f)
  }

  ghost predicate ArchSub(w: Width, a: Word, b: Word, c: nat, r: Word, f: Flags) {
    && r == Trunc(w, a - b - c)
    && (f.cf <==> a < b + c)
    && (f.of <==> !(-Half(w) <= Signed(w, a) - Signed(w, b) - c < Half(w)))
    && (f.af <==> a % 16 < b % 16 + c)
    && ResultFlags(w, r, f)
  }

  function Bitwise(k: Logic, a: nat, b: nat): nat {
    match k
    case AndOp => And(a, b)
    case OrOp => Or(a, b)
    case XorOp => Xor(a, b)
  }

  /** One digit of the result of AND, OR and XOR. */
  predicate DigitOf(k: Logic, x: bool, y: bool) {
    match k
    case AndOp => x && y
    case OrOp => x || y
    case XorOp => x != y
  }

  /** `r` is the result of AND, OR or XOR, digit by digit. */
  ghost predicate ByDigits(k: Logic, a: nat, b: nat, r: nat) {
    forall n: nat :: Bit(r, n) == 1 <==> DigitOf(k, Bit(a, n) == 1, Bit(b, n) == 1)
  }

  lemma BitwiseByDigits(k: Logic, a: nat, b: nat)
    ensures ByDigits(k, a, b, Bitwise(k, a, b))
  {
    hide And, Or, Xor, Bit;
    forall n: nat ensures Bit(Bitwise(k, a, b), n) == 1 <==> DigitOf(k, Bit(a, n) == 1, Bit(b, n) == 1) {
      match k
      case AndOp => AndBit(a, b, n);
      case OrOp => OrBit(a, b, n);
      case XorOp => XorBit(a, b, n);
    }
  }

  /** No other number has the digits of the result. */
  lemma ByDigitsDecides(k: Logic, a: nat, b: nat, r: nat)
    ensures ByDigits(k, a, b, r) <==> r == Bitwise(k, a, b)
  {
    hide Bitwise, Bit, DigitOf;
    BitwiseByDigits(k, a, b);
    if ByDigits(k, a, b, r) {
      BitsDecide(r, Bitwise(k, a, b));
    }
  }

  /** The second most significant bit. */
  predicate SecondTop(w: Width, x: nat) {
    Trunc(w, 2 * x) >= Half(w)
  }

  /** One round of the loop in the manual's pseudo-code for shifts and rotates. */
  function Round(k: ShiftKind, w: Width, x: nat, cf: bool): (nat, bool)
  {
    var msb, lsb := x >= Half(w), x % 2 == 1;
    match k
    case SHL => (Trunc(w, 2 * x), msb)
    case SHR => (x / 2, lsb)
    case SAR => (x / 2 + (if msb then Half(w) else 0), lsb)
    case RCL => (Trunc(w, 2 * x) + Num(cf), msb)
    case RCR => (x / 2 + (if cf then Half(w) else 0), lsb)
    case ROL => (Trunc(w, 2 * x) + Num(msb), msb)
    case ROR => (x / 2 + (if lsb then Half(w) else 0), lsb)
  }

  function Rounds(k: ShiftKind, w: Width, x: nat, cf: bool, n: nat): (nat, bool)
  {
    if n == 0 then (x, cf)
    else var (y, c) := Rounds(k, w, x, cf, n - 1); Round(k, w, y, c)
  }

  /** The number of rounds the manual's loop makes. */
  function RoundCount(k: ShiftKind, w: Width, count: nat): nat {
    match k
    case RCL | RCR => (match w case W8 => count % 32 % 9 case W16 => count % 32 % 17 case W32 => count % 32)
    case ROL | ROR => (match w case W8 => count % 32 % 8 case W16 => count % 32 % 16 case W32 => count % 32)
    case _ => count % 32
  }

  ghost predicate ArchShift(k: ShiftKind, w: Width, a: Word, count: nat, f: Flags, r: nat, f': Flags) {
    var n := RoundCount(k, w, count);
    var (x, c) := Rounds(k, w, a, f.cf, n);
    && r == x
    && match k
       case SHL | SHR | SAR =>
         if n == 0 then f' == f else
           && (k == SHL ==> n <= Bits(w) ==> f'.cf == c)
           && (k != SHL ==> f'.cf == c)
           && (n == 1 ==> f'.of == match k
                                   case SHL => (x >= Half(w)) != c
                                   case SHR => a >= Half(w)
                                   case _ => false)
           && ResultFlags(w, x, f')
       case RCL | RCR =>
         if n == 0 then f' == f else
           && f' == f.(cf := f'.cf, of := f'.of)
           && f'.cf == c
           && (n == 1 ==> f'.of == ((x >= Half(w)) != (if k == RCL then c else SecondTop(w, x))))
       case ROL | ROR =>
         if count % 32 == 0 then f' == f else
           && f' == f.(cf := f'.cf, of := f'.of)
           && f'.cf == (if k == ROL then x % 2 == 1 else x >= Half(w))
           && (count % 32 == 1 ==> f'.of == ((x >= Half(w)) != (if k == ROL then x % 2 == 1 else SecondTop(w, x))))
  }

  /** SF:ZF:0:AF:0:PF:1:CF, the byte that LAHF stores and SAHF loads. */
  function PackAh(f: Flags): bv8 {
    (if f.sf then 0x80 else 0) | (if f.zf then 0x40 else 0) | (if f.af then 0x10 else 0)
    | (if f.pf then 0x04 else 0) | 0x02 | (if f.cf then 0x01 else 0)
  }

  /** The byte that LAHF stores, by its digits: bit 1 is always set, and bits 3 and 5 never. */
  function AhNumber(f: Flags): nat {
    128 * Num(f.sf) + 64 * Num(f.zf) + 16 * Num(f.af) + 4 * Num(f.pf) + 2 + Num(f.cf)
  }

  lemma PackAhNumber(f: Flags)
    ensures PackAh(f) as nat == AhNumber(f)
  {
  }

  /** The double-width product. */
  function Product(signed: bool, w: Width, a: Word, b: Word): int {
    if signed then Signed(w, a) * Signed(w, b) else a * b
  }

  /** The lower twice-the-width digits. */
  function TruncDouble(w: Width, p: int): nat {
    match w case W8 => p % 0x1_0000 case W16 => p % 0x1_0000_0000 case W32 => p % 0x1_0000_0000_0000_0000
  }

  ghost predicate ArchMul(signed: bool, w: Width, a: Word, b: Word, r: nat, f: Flags) {
    var p := Product(signed, w, a, b);
    && r == TruncDouble(w, p)
    && f.cf == f.of
    && (f.cf <==> if signed then !(-Half(w) <= p < Half(w)) else p >= Size(w))
  }

  /** What the manual requires of the step from flags `f` to flags `f'` with result `r`. */
  ghost predicate Arch(i: Instr, f: Flags, r: nat, f': Flags) {
    match i
    case Acop(sub, w, a, b) => if sub then r < Size(w) && ArchSub(w, a, b, Num(f.cf), r, f')
                               else r < Size(w) && ArchAdd(w, a, b, Num(f.cf), r, f')
    case Aop(sub, w, a, b) => if sub then r < Size(w) && ArchSub(w, a, b, 0, r, f')
                              else r < Size(w) && ArchAdd(w, a, b, 0, r, f')
    case Lop(k, w, a, b) => r < Size(w) && ByDigits(k, a, b, r) && !f'.cf && !f'.of && ResultFlags(w, r, f')
    case IncDec(sub, w, a) => r < Size(w) && f'.cf == f.cf
                              && if sub then ArchSub(w, a, 1, 0, r, f'.(cf := a < 1))
                                 else ArchAdd(w, a, 1, 0, r, f'.(cf := a + 1 >= Size(w)))
    case Neg(w, a) => r < Size(w) && ArchSub(w, 0, a, 0, r, f')
    case Mul(signed, w, a, b) => ArchMul(signed, w, a, b, r, f')
    case Shift(k, w, a, count) => ArchShift(k, w, a, count, f, r, f')
    case Clc => f' == f.(cf := false)
    case Stc => f' == f.(cf := true)
    case Cmc => f' == f.(cf := !f.cf)
    case Lahf => f' == f && r == AhNumber(f)
    case Sahf(ah) => f' == f.(sf := ah & 0x80 != 0, zf := ah & 0x40 != 0, af := ah & 0x10 != 0,
                              pf := ah & 0x04 != 0, cf := ah & 0x01 != 0)
  }
}

module LazyFlags {
  import opened Words
  import opened FlagSemantics

  /** Values of `cc.mask`: the flags that the record stands for. */
  const ALL := Flags(true, true, true, true, true, true)
  const ALL_BUT_CF := ALL.(cf := false)
  const ALL_BUT_AF := ALL.(af := false)

  /** The operation recorded last; the width is kept only where the getters need it. */
  datatype Op =
    | OpADC | OpADD | OpSBB | OpSUB
    | OpNEG(w: Width) | OpDEC(w: Width) | OpINC(w: Width)
    | OpIMUL(w: Width) | OpMUL(w: Width)
    | OpSAR | OpSHL | OpSHR
    | OpLOGIC

  /** The record `cc`. */
  datatype Cc = Cc(op: Op, dst: Word, dst2: Word, src1: Word, src2: Word, mask: Flags)

  /** The bit left by shifting a word right by 31. */
  predicate Top(x: Word) {
    x >= 0x8000_0000
  }

  // ---------- the getters ----------

  /** The branch that ends in `assert(false)`: CF is never left to INC or DEC. */
  predicate CfReadable(cc: Cc) {
    cc.mask.cf ==> !cc.op.OpINC? && !cc.op.OpDEC?
  }

  function GetCF(flags: Flags, cc: Cc): bool
    requires CfReadable(cc)
  {
    if cc.mask.cf then
      match cc.op
      case OpADC => cc.dst <= cc.src2
      case OpADD => cc.dst < cc.src2
      case OpSBB => cc.src1 <= cc.src2
      case OpSUB => cc.src1 < cc.src2
      case OpNEG(_) => cc.dst != 0
      case OpIMUL(W8) => Sext(W8, cc.dst) != cc.dst
      case OpIMUL(W16) => Sext(W16, cc.dst) != cc.dst
      case OpIMUL(W32) => (if cc.dst >= 0x8000_0000 then 0xffff_ffff else 0) != cc.dst2
      case OpMUL(W8) => cc.dst / 0x100 != 0
      case OpMUL(W16) => cc.dst / 0x1_0000 != 0
      case OpMUL(W32) => cc.dst2 != 0
      case OpSHL | OpSHR | OpSAR => cc.dst2 % 2 == 1
      case OpLOGIC => false
    else
      flags.cf
  }

  /** The columns of `parity_tab` that hold 1 in its even rows and 0 in its odd rows. */
  const EVEN: set<nat> := {0, 3, 5, 6, 9, 10, 12, 15}

  /** Entry `k` of `parity_tab`, a table of sixteen rows of two kinds. */
  function ParityTab(k: nat): nat
    requires k < 256
  {
    if k / 16 in EVEN then (if k % 16 in EVEN then 1 else 0)
    else (if k % 16 in EVEN then 0 else 1)
  }

  function GetPF(flags: Flags, cc: Cc): bool {
    if cc.mask.pf then ParityTab(cc.dst % 256) == 1 else flags.pf
  }

  function GetAF(flags: Flags, cc: Cc): bool {
    if cc.mask.af then
      match cc.op
      case OpADC | OpADD | OpSBB | OpSUB => Bit(Xor(Xor(cc.src1, cc.src2), cc.dst), 4) == 1
      case OpNEG(_) => cc.dst % 16 != 0
      case OpDEC(_) => cc.dst % 16 == 15
      case OpINC(_) => cc.dst % 16 == 0
      case _ => false
    else
      flags.af
  }

  function GetZF(flags: Flags, cc: Cc): bool {
    if cc.mask.zf then cc.dst == 0 else flags.zf
  }

  function GetSF(flags: Flags, cc: Cc): bool {
    if cc.mask.sf then Top(cc.dst) else flags.sf
  }

  function GetOF(flags: Flags, cc: Cc): bool
    requires CfReadable(cc)
  {
    if cc.mask.of then
      match cc.op
      case OpADC | OpADD => Top(cc.src1) == Top(cc.src2) && Top(cc.dst) != Top(cc.src2)
      case OpSBB | OpSUB => Top(cc.src1) != Top(cc.src2) && Top(cc.dst) != Top(cc.src1)
      case OpDEC(w) => cc.dst == Sext(w, Half(w) - 1)
      case OpINC(w) => cc.dst == Sext(w, Half(w))
      case OpNEG(w) => cc.dst == Sext(w, Half(w))
      case OpIMUL(_) | OpMUL(_) => GetCF(flags, cc)
      case OpSAR => false
      case OpSHL => Top(cc.dst) != (cc.dst2 % 2 == 1)
      case OpSHR => Top(cc.src1)
      case OpLOGIC => false
    else
      flags.of
  }

  function Read(flags: Flags, cc: Cc): Flags
    requires CfReadable(cc)
  {
    Flags(GetCF(flags, cc), GetPF(flags, cc), GetAF(flags, cc), GetZF(flags, cc), GetSF(flags, cc), GetOF(flags, cc))
  }

  /** Writing back what a getter gives does not change what it gives; OF may hang on CF. */
  lemma Materialised(f: Flags, g: Flags, cc: Cc)
    requires CfReadable(cc)
    ensures g.cf == f.cf || g.cf == GetCF(f, cc) ==> GetCF(g, cc) == GetCF(f, cc)
    ensures g.pf == f.pf || g.pf == GetPF(f, cc) ==> GetPF(g, cc) == GetPF(f, cc)
    ensures g.af == f.af || g.af == GetAF(f, cc) ==> GetAF(g, cc) == GetAF(f, cc)
    ensures g.zf == f.zf || g.zf == GetZF(f, cc) ==> GetZF(g, cc) == GetZF(f, cc)
    ensures g.sf == f.sf || g.sf == GetSF(f, cc) ==> GetSF(g, cc) == GetSF(f, cc)
    ensures (g.of == f.of || g.of == GetOF(f, cc)) && GetCF(g, cc) == GetCF(f, cc) ==> GetOF(g, cc) == GetOF(f, cc)
  {
    hide Sext, Xor, Bit, ParityTab, Top, Half;
  }

  // ---------- reading back what one record means ----------

  lemma ParityTabIsParity(k: nat)
    requires k < 256
    ensures ParityTab(k) == 1 <==> Ones(k) % 2 == 0
  {
    hide Ones;
    var h, l := k / 16, k % 16;
    OnesSplit(h, l);
    RowParity(h);
    RowParity(l);
  }

  lemma OnesStep(x: nat, half: nat)
    requires half == x / 2
    ensures Ones(x) == x % 2 + Ones(half)
  {
  }

  lemma OnesDigit(h: nat, d: nat)
    requires d < 2
    ensures Ones(2 * h + d) == d + Ones(h)
  {
    OnesStep(2 * h + d, h);
  }

  lemma OnesSplit(h: nat, l: nat)
    requires l < 16
    ensures Ones(16 * h + l) == Ones(h) + Ones(l)
  {
    hide Ones;
    var b0, b1, b2, b3 := l % 2, l / 2 % 2, l / 4 % 2, l / 8;
    assert l == 8 * b3 + 4 * b2 + 2 * b1 + b0;
    OnesDigits(h, b3, b2, b1, b0);
    OnesDigits(0, b3, b2, b1, b0);
    OnesZero();
  }

  lemma OnesDigits(h: nat, b3: nat, b2: nat, b1: nat, b0: nat)
    requires b3 < 2 && b2 < 2 && b1 < 2 && b0 < 2
    ensures Ones(16 * h + 8 * b3 + 4 * b2 + 2 * b1 + b0) == Ones(h) + b3 + b2 + b1 + b0
  {
    hide Ones;
    OnesDigit(h, b3);
    OnesDigit(2 * h + b3, b2);
    OnesDigit(4 * h + 2 * b3 + b2, b1);
    OnesDigit(8 * h + 4 * b3 + 2 * b2 + b1, b0);
    assert 16 * h + 8 * b3 + 4 * b2 + 2 * b1 + b0 == 2 * (8 * h + 4 * b3 + 2 * b2 + b1) + b0;
  }

  lemma OnesZero()
    ensures Ones(0) == 0
  {
  }

  lemma SmallOnes()
    ensures Ones(0) == 0 && Ones(1) == 1 && Ones(2) == 1 && Ones(3) == 2
    ensures Ones(4) == 1 && Ones(5) == 2 && Ones(6) == 2 && Ones(7) == 3
    ensures Ones(8) == 1 && Ones(9) == 2 && Ones(10) == 2 && Ones(11) == 3
    ensures Ones(12) == 2 && Ones(13) == 3 && Ones(14) == 3 && Ones(15) == 4
  {
  }

  lemma RowParity(k: nat)
    requires k < 16
    ensures Ones(k) % 2 == 0 <==> k in EVEN
  {
    hide Ones;
    SmallOnes();
    if k !in EVEN { assert k in {1, 2, 4, 7, 8, 11, 13, 14}; }
  }

  // ---------- sign extension without division ----------

  lemma SextLow(w: Width, x: int)
    requires 0 <= x < Size(w)
    ensures Trunc(w, x) == x
    ensures Signed(w, x) == if x < Half(w) then x else x - Size(w)
    ensures Sext(w, x) == if x < Half(w) then x else x + 0x1_0000_0000 - Size(w)
  {
  }

  lemma SextCongruent(w: Width, x: int, y: int)
    requires Trunc(w, x - y) == 0
    ensures Trunc(w, x) == Trunc(w, y) && Sext(w, x) == Sext(w, y)
  {
    var k, q, r := Quotient(w, x - y), Quotient(w, y), Trunc(w, y);
    Division(w, x - y);
    Division(w, y);
    assert x == Size(w) * (k + q) + r by { match w case W8 => case W16 => case W32 => }
    TruncOf(w, k + q, r);
    hide Trunc;
  }

  lemma ResultReads(w: Width, r: nat)
    requires r < Size(w)
    ensures var d := Sext(w, r); Trunc(w, d) == r && (Top(d) <==> r >= Half(w)) && (d == 0 <==> r == 0)
    ensures (ParityTab(Sext(w, r) % 256) == 1 <==> Ones(r % 0x100) % 2 == 0)
  {
    hide ParityTab, Ones;
    SextLow(w, r);
    assert Sext(w, r) % 256 == r % 256;
    ParityTabIsParity(r % 256);
  }

  // ---------- addition and subtraction ----------

  lemma BitFour(x: nat)
    ensures Bit(x, 4) == x / 16 % 2
  {
    ShrFour(x);
  }

  lemma XorBitFour(a: nat, b: nat, d: nat)
    ensures Bit(Xor(Xor(a, b), d), 4) == (a / 16 + b / 16 + d / 16) % 2
  {
    hide Xor, Bit;
    XorBit(a, b, 4);
    XorBit(Xor(a, b), d, 4);
    BitFour(a);
    BitFour(b);
    BitFour(d);
  }

  lemma SextSixteenths(w: Width, r: nat)
    requires r < Size(w)
    ensures Sext(w, r) / 16 % 2 == r / 16 % 2
  {
    SextLow(w, r);
    hide Sext;
    match w
    case W8 => assert (r + 0xffff_ff00) / 16 == r / 16 + 0xfff_fff0;
    case W16 => assert (r + 0xffff_0000) / 16 == r / 16 + 0xfff_f000;
    case W32 =>
  }

  lemma SumParity(x: int, y: int, z: int, x': int, y': int, z': int)
    requires x % 2 == x' % 2 && y % 2 == y' % 2 && z % 2 == z' % 2
    ensures (x + y + z) % 2 == (x' + y' + z') % 2
  {
  }

  lemma SixteenthsOfSum(w: Width, a: nat, b: nat, c: nat, r: nat)
    requires c <= 1
    requires r == a + b + c || r == a + b + c - Size(w)
    ensures (a / 16 + b / 16 + r / 16) % 2 == 1 <==> a % 16 + b % 16 + c >= 16
  {
    var i, j, x, y := a / 16, b / 16, a % 16, b % 16;
    assert a == 16 * i + x && b == 16 * j + y;
    var carry := if x + y + c >= 16 then 1 else 0;
    Quotient16(i + j + carry, x + y + c - 16 * carry);
    Quotient16(i + j + carry - Sixteenths(w), x + y + c - 16 * carry);
    SameParity(i + j, carry, w);
  }

  /** How many times 16 goes into the size, an even number. */
  function Sixteenths(w: Width): int {
    match w case W8 => 0x10 case W16 => 0x1000 case W32 => 0x1000_0000
  }

  lemma Quotient16(q: int, r: int)
    requires 0 <= r < 16
    ensures (16 * q + r) / 16 == q
  {
  }

  lemma SameParity(n: int, carry: int, w: Width)
    requires carry == 0 || carry == 1
    ensures (n + (n + carry)) % 2 == carry && (n + (n + carry - Sixteenths(w))) % 2 == carry
    ensures (n + (n + carry + Sixteenths(w))) % 2 == carry
  {
    var h := match w case W8 => 0x8 case W16 => 0x800 case W32 => 0x800_0000;
    assert Sixteenths(w) == 2 * h;
    assert n + (n + carry) == 2 * n + carry && n + (n + carry - Sixteenths(w)) == 2 * (n - h) + carry;
    assert n + (n + carry + Sixteenths(w)) == 2 * (n + h) + carry;
  }

  /** The XOR of the operands and the result is, at bit 4, the carry into it. */
  lemma HalfCarry(w: Width, a: nat, b: nat, c: nat, r: nat)
    requires a < Size(w) && b < Size(w) && c <= 1 && r < Size(w)
    requires r == a + b + c || r == a + b + c - Size(w)
    ensures Bit(Xor(Xor(Sext(w, a), Sext(w, b)), Sext(w, r)), 4) == 1 <==> a % 16 + b % 16 + c >= 16
  {
    hide Sext, Xor, Bit, Size;
    XorBitFour(Sext(w, a), Sext(w, b), Sext(w, r));
    SextSixteenths(w, a);
    SextSixteenths(w, b);
    SextSixteenths(w, r);
    SixteenthsOfSum(w, a, b, c, r);
    SumParity(Sext(w, a) / 16, Sext(w, b) / 16, Sext(w, r) / 16, a / 16, b / 16, r / 16);
  }

  /** How many times the sign extension has added 2^32, less the size. */
  function Extended(w: Width, a: nat): int {
    if a < Half(w) then 0 else 1
  }

  lemma TruncMultiple(w: Width, k: int, j: int)
    ensures Trunc(w, Size(w) * k + 0x1_0000_0000 * j) == 0
  {
    match w
    case W8 => Remainder8(k + 0x100_0000 * j, 0);
    case W16 => Remainder16(k + 0x1_0000 * j, 0);
    case W32 => Remainder32(k + j, 0);
  }

  lemma SextOfSum(w: Width, a: nat, b: nat, c: nat, r: nat)
    requires a < Size(w) && b < Size(w) && c <= 1
    requires r == if a + b + c < Size(w) then a + b + c else a + b + c - Size(w)
    ensures Sext(w, Sext(w, a) + Sext(w, b) + c) == Sext(w, r) && Trunc(w, a + b + c) == r
  {
    hide Sext, Trunc, Signed;
    SextLow(w, a);
    SextLow(w, b);
    SextLow(w, r);
    var j, k := Extended(w, a) + Extended(w, b), if a + b + c < Size(w) then 0 else 1;
    assert Sext(w, a) + Sext(w, b) + c - r == Size(w) * (k - j) + 0x1_0000_0000 * j && a + b + c - r == Size(w) * k by {
      match w case W8 => case W16 => case W32 =>
    }
    TruncMultiple(w, k - j, j);
    TruncMultiple(w, k, 0);
    SextCongruent(w, Sext(w, a) + Sext(w, b) + c, r);
    SextCongruent(w, a + b + c, r);
  }

  lemma CarryAndOverflow(w: Width, a: nat, b: nat, c: nat, r: nat)
    requires a < Size(w) && b < Size(w) && c <= 1
    requires r == if a + b + c < Size(w) then a + b + c else a + b + c - Size(w)
    ensures var s1, s2, d := Sext(w, a), Sext(w, b), Sext(w, r);
            && (a + b + c >= Size(w) <==> if c == 1 then d <= s2 else d < s2)
            && (!(-Half(w) <= Signed(w, a) + Signed(w, b) + c < Half(w)) <==> Top(s1) == Top(s2) && Top(d) != Top(s2))
  {
    SextLow(w, a);
    SextLow(w, b);
    SextLow(w, r);
    hide Sext, Signed;
  }

  lemma AddReads(w: Width, a: Word, b: Word, c: nat, flags: Flags, cc: Cc)
    requires a < Size(w) && b < Size(w) && c <= 1
    requires cc.src1 == Sext(w, a) && cc.src2 == Sext(w, b) && cc.dst == Sext(w, cc.src1 + cc.src2 + c)
    requires cc.op == (if c == 1 then OpADC else OpADD) && cc.mask == ALL
    ensures ArchAdd(w, a, b, c, Trunc(w, cc.dst), Read(flags, cc))
  {
    hide ParityTab, Ones, Xor, Bit, Sext, Trunc, Signed, Top;
    var r := if a + b + c < Size(w) then a + b + c else a + b + c - Size(w);
    SextOfSum(w, a, b, c, r);
    ResultReads(w, r);
    HalfCarry(w, a, b, c, r);
    CarryAndOverflow(w, a, b, c, r);
    hide Size, Half;
  }

  lemma SixteenthsOfDifference(w: Width, a: nat, b: nat, c: nat, r: nat)
    requires c <= 1
    requires r == a - b - c || r == a - b - c + Size(w)
    ensures (a / 16 + b / 16 + r / 16) % 2 == 1 <==> a % 16 < b % 16 + c
  {
    var i, j, x, y := a / 16, b / 16, a % 16, b % 16;
    assert a == 16 * i + x && b == 16 * j + y;
    var borrow := if x < y + c then 1 else 0;
    Quotient16(i - j - borrow, x - y - c + 16 * borrow);
    Quotient16(i - j - borrow + Sixteenths(w), x - y - c + 16 * borrow);
    assert i + j + (i - j - borrow) == 2 * (i - borrow) + borrow;
    SameParity(i - borrow, borrow, w);
  }

  lemma HalfBorrow(w: Width, a: nat, b: nat, c: nat, r: nat)
    requires a < Size(w) && b < Size(w) && c <= 1 && r < Size(w)
    requires r == a - b - c || r == a - b - c + Size(w)
    ensures Bit(Xor(Xor(Sext(w, a), Sext(w, b)), Sext(w, r)), 4) == 1 <==> a % 16 < b % 16 + c
  {
    hide Sext, Xor, Bit, Size;
    XorBitFour(Sext(w, a), Sext(w, b), Sext(w, r));
    SextSixteenths(w, a);
    SextSixteenths(w, b);
    SextSixteenths(w, r);
    SixteenthsOfDifference(w, a, b, c, r);
    SumParity(Sext(w, a) / 16, Sext(w, b) / 16, Sext(w, r) / 16, a / 16, b / 16, r / 16);
  }

  lemma SextOfDifference(w: Width, a: nat, b: nat, c: nat, r: nat)
    requires a < Size(w) && b < Size(w) && c <= 1
    requires r == if a >= b + c then a - b - c else a - b - c + Size(w)
    ensures Sext(w, Sext(w, a) - Sext(w, b) - c) == Sext(w, r) && Trunc(w, a - b - c) == r
  {
    hide Sext, Trunc, Signed;
    SextLow(w, a);
    SextLow(w, b);
    SextLow(w, r);
    var j, k := Extended(w, a) - Extended(w, b), if a >= b + c then 0 else -1;
    assert Sext(w, a) - Sext(w, b) - c - r == Size(w) * (k - j) + 0x1_0000_0000 * j && a - b - c - r == Size(w) * k by {
      match w case W8 => case W16 => case W32 =>
    }
    TruncMultiple(w, k - j, j);
    TruncMultiple(w, k, 0);
    SextCongruent(w, Sext(w, a) - Sext(w, b) - c, r);
    SextCongruent(w, a - b - c, r);
  }

  lemma BorrowAndOverflow(w: Width, a: nat, b: nat, c: nat, r: nat)
    requires a < Size(w) && b < Size(w) && c <= 1
    requires r == if a >= b + c then a - b - c else a - b - c + Size(w)
    ensures var s1, s2, d := Sext(w, a), Sext(w, b), Sext(w, r);
            && (a < b + c <==> if c == 1 then s1 <= s2 else s1 < s2)
            && (!(-Half(w) <= Signed(w, a) - Signed(w, b) - c < Half(w)) <==> Top(s1) != Top(s2) && Top(d) != Top(s1))
  {
    SextLow(w, a);
    SextLow(w, b);
    SextLow(w, r);
    hide Sext, Signed;
  }

  lemma SubReads(w: Width, a: Word, b: Word, c: nat, flags: Flags, cc: Cc)
    requires a < Size(w) && b < Size(w) && c <= 1
    requires cc.src1 == Sext(w, a) && cc.src2 == Sext(w, b) && cc.dst == Sext(w, cc.src1 - cc.src2 - c)
    requires cc.op == (if c == 1 then OpSBB else OpSUB) && cc.mask == ALL
    ensures ArchSub(w, a, b, c, Trunc(w, cc.dst), Read(flags, cc))
  {
    hide ParityTab, Ones, Xor, Bit, Sext, Trunc, Signed, Top;
    var r := if a >= b + c then a - b - c else a - b - c + Size(w);
    SextOfDifference(w, a, b, c, r);
    ResultReads(w, r);
    HalfBorrow(w, a, b, c, r);
    BorrowAndOverflow(w, a, b, c, r);
    hide Size, Half;
  }

  lemma Remainder4(q: int, r: int)
    requires 0 <= r < 16
    ensures (16 * q + r) % 16 == r
  {
  }

  /** Sign extension keeps the low four bits. */
  lemma SextNibble(w: Width, r: nat)
    requires r < Size(w)
    ensures Sext(w, r) % 16 == r % 16
  {
    SextLow(w, r);
    hide Sext;
    var k, l := r / 16, r % 16;
    match w
    case W8 => Remainder4(k + 0xfff_fff0, l);
    case W16 => Remainder4(k + 0xfff_f000, l);
    case W32 =>
  }

  lemma SizeNibbles(w: Width, a: nat)
    requires a < Size(w)
    ensures (Size(w) - a) % 16 == (16 - a % 16) % 16
  {
    var k, l := a / 16, a % 16;
    assert a == 16 * k + l;
    var q := match w case W8 => 0x10 case W16 => 0x1000 case W32 => 0x1000_0000;
    if l == 0 { Remainder4(q - k, 0); } else { Remainder4(q - k - 1, 16 - l); }
  }

  lemma IncNibble(w: Width, a: nat, r: nat)
    requires a < Size(w) && r == if a + 1 < Size(w) then a + 1 else 0
    ensures r % 16 == (a % 16 + 1) % 16
  {
    var k, l := a / 16, a % 16;
    assert a == 16 * k + l;
    if l < 15 { Remainder4(k, l + 1); } else { Remainder4(k + 1, 0); }
  }

  lemma IncOverflow(w: Width, a: nat, r: nat)
    requires a < Size(w) && r == if a + 1 < Size(w) then a + 1 else a + 1 - Size(w)
    ensures Signed(w, 1) == 1
    ensures Sext(w, r) == Sext(w, Half(w)) <==> !(-Half(w) <= Signed(w, a) + 1 < Half(w))
    ensures Sext(w, r) % 16 == 0 <==> a % 16 + 1 >= 16
  {
    SextLow(w, a);
    SextLow(w, r);
    SextLow(w, 1);
    SextLow(w, Half(w));
    SextNibble(w, r);
    IncNibble(w, a, r);
    hide Sext, Signed, Trunc;
  }

  lemma DecOverflow(w: Width, a: nat, r: nat)
    requires a < Size(w) && r == if a >= 1 then a - 1 else a - 1 + Size(w)
    ensures Signed(w, 1) == 1
    ensures Sext(w, r) == Sext(w, Half(w) - 1) <==> !(-Half(w) <= Signed(w, a) - 1 < Half(w))
    ensures Sext(w, r) % 16 == 15 <==> a % 16 < 1
  {
    SextLow(w, a);
    SextLow(w, r);
    SextLow(w, 1);
    SextLow(w, Half(w) - 1);
    SextNibble(w, r);
    if a >= 1 { IncNibble(w, r, a); }
    hide Sext, Signed, Trunc;
  }

  /** INC: the operand 1 is not recorded, and CF is not part of the record. */
  lemma IncReads(w: Width, a: Word, flags: Flags, cc: Cc)
    requires a < Size(w)
    requires cc.dst == Sext(w, Sext(w, a) + 1) && cc.op == OpINC(w) && cc.mask == ALL_BUT_CF
    ensures ArchAdd(w, a, 1, 0, Trunc(w, cc.dst), Read(flags, cc).(cf := a + 1 >= Size(w)))
  {
    hide ParityTab, Ones, Sext, Trunc, Signed, Top;
    var r := if a + 1 < Size(w) then a + 1 else a + 1 - Size(w);
    SextLow(w, 1);
    SextOfSum(w, a, 1, 0, r);
    ResultReads(w, r);
    IncOverflow(w, a, r);
    hide Size, Half;
  }

  lemma DecReads(w: Width, a: Word, flags: Flags, cc: Cc)
    requires a < Size(w)
    requires cc.dst == Sext(w, Sext(w, a) - 1) && cc.op == OpDEC(w) && cc.mask == ALL_BUT_CF
    ensures ArchSub(w, a, 1, 0, Trunc(w, cc.dst), Read(flags, cc).(cf := a < 1))
  {
    hide ParityTab, Ones, Sext, Trunc, Signed, Top;
    var r := if a >= 1 then a - 1 else a - 1 + Size(w);
    SextLow(w, 1);
    SextOfDifference(w, a, 1, 0, r);
    ResultReads(w, r);
    DecOverflow(w, a, r);
    hide Size, Half;
  }

  lemma NegReads(w: Width, a: Word, flags: Flags, cc: Cc)
    requires a < Size(w)
    requires cc.dst == Sext(w, 0 - Sext(w, a)) && cc.op == OpNEG(w) && cc.mask == ALL
    ensures ArchSub(w, 0, a, 0, Trunc(w, cc.dst), Read(flags, cc))
  {
    hide ParityTab, Ones, Sext, Trunc, Signed, Top;
    var r := if 0 >= a then 0 - a else 0 - a + Size(w);
    SextLow(w, 0);
    SextOfDifference(w, 0, a, 0, r);
    ResultReads(w, r);
    NegOverflow(w, a, r);
    hide Size, Half;
  }

  lemma NegOverflow(w: Width, a: nat, r: nat)
    requires a < Size(w) && r == (if a == 0 then 0 else Size(w) - a)
    ensures Signed(w, 0) == 0
    ensures Sext(w, r) == Sext(w, Half(w)) <==> !(-Half(w) <= 0 - Signed(w, a) < Half(w))
    ensures Sext(w, r) != 0 <==> 0 < a
    ensures Sext(w, r) % 16 != 0 <==> 0 < a % 16
  {
    SextLow(w, a);
    SextLow(w, r);
    SextLow(w, 0);
    SextLow(w, Half(w));
    SextNibble(w, r);
    SizeNibbles(w, a);
    hide Sext, Signed, Trunc;
  }

  // ---------- results that record no operands ----------

  lemma LogicReads(w: Width, r: nat, flags: Flags, cc: Cc)
    requires r < Size(w) && cc.dst == Sext(w, r) && CfReadable(cc)
    requires cc.mask.pf && cc.mask.zf && cc.mask.sf
    ensures ResultFlags(w, r, Read(flags, cc)) && Trunc(w, cc.dst) == r
  {
    hide Sext, Trunc, ParityTab, Ones, Half, Size, Top, GetCF, GetAF, GetOF;
    ResultReads(w, r);
  }

  lemma MulMonotone(x: int, y: int, b: int)
    requires 0 <= x <= b && 0 <= y <= b
    ensures 0 <= x * y <= b * b
  {
    assert (b - x) * y >= 0;
    assert b * (b - y) >= 0;
  }

  lemma MulBound(x: int, y: int, b: int)
    requires -b <= x <= b && -b <= y <= b
    ensures -(b * b) <= x * y <= b * b
  {
    var x', y' := if x < 0 then -x else x, if y < 0 then -y else y;
    MulMonotone(x', y', b);
    if x < 0 { assert x * y' == -(x' * y'); }
    if y < 0 { assert x * y == -(x * y'); }
  }

  /** The product of sign-extended words is, as a word, the signed product. */
  lemma SignedProduct(w: Width, a: Word, b: Word)
    requires a < Size(w) && b < Size(w)
    ensures Wrap(Sext(w, a) * Sext(w, b)) == Wrap(Signed(w, a) * Signed(w, b))
  {
    SextLow(w, a);
    SextLow(w, b);
    var M, x, y := 0x1_0000_0000, Signed(w, a), Signed(w, b);
    var k, l := Num(x < 0), Num(y < 0);
    assert Sext(w, a) == x + k * M && Sext(w, b) == y + l * M;
    hide Sext, Signed, Size, Half;
    WrapProduct(x, k, y, l);
  }

  lemma WrapProduct(x: int, k: nat, y: int, l: nat)
    requires k <= 1 && l <= 1
    ensures Wrap((x + k * 0x1_0000_0000) * (y + l * 0x1_0000_0000)) == Wrap(x * y)
  {
    var M := 0x1_0000_0000;
    var t := (if l == 1 then x else 0) + (if k == 1 then y else 0) + (if k == 1 && l == 1 then M else 0);
    assert (x + k * M) * (y + l * M) == x * y + M * t by {
      if k == 1 && l == 1 { assert (x + M) * (y + M) == x * y + M * (x + y + M); }
      else if k == 1 { assert (x + M) * y == x * y + M * y; }
      else if l == 1 { assert x * (y + M) == x * y + M * x; }
    }
    WrapShift(x * y, t);
  }

  lemma WrapShift(p: int, t: int)
    ensures Wrap(p + 0x1_0000_0000 * t) == Wrap(p)
  {
  }

  /** The double-width product as the instruction leaves it in AX, DX:AX or EDX:EAX. */
  function Doubled(w: Width, cc: Cc): nat {
    match w
    case W8 => cc.dst % 0x1_0000
    case W16 => cc.dst
    case W32 => cc.dst + 0x1_0000_0000 * cc.dst2
  }

  lemma ImulReads(w: Width, a: Word, b: Word, flags: Flags, cc: Cc)
    requires a < Size(w) && b < Size(w)
    requires cc.op == OpIMUL(w) && cc.mask.cf && cc.mask.of
    requires w != W32 ==> cc.dst == Wrap(Sext(w, a) * Sext(w, b))
    requires w == W32 ==> var p := Signed(w, a) * Signed(w, b); cc.dst == Wrap(p) && cc.dst2 == Wrap(p / 0x1_0000_0000)
    ensures ArchMul(true, w, a, b, Doubled(w, cc), Read(flags, cc))
  {
    hide GetPF, GetAF, GetZF, GetSF;
    var p := Signed(w, a) * Signed(w, b);
    assert -Half(w) <= Signed(w, a) < Half(w) && -Half(w) <= Signed(w, b) < Half(w);
    MulBound(Signed(w, a), Signed(w, b), Half(w));
    SignedProduct(w, a, b);
    hide Signed;
    match w
    case W8 => ImulByte(p);
    case W16 => ImulShort(p);
    case W32 => ImulLong(p);
  }

  lemma ImulByte(p: int)
    requires -0x4000 <= p <= 0x4000
    ensures Wrap(p) % 0x1_0000 == p % 0x1_0000
    ensures Sext(W8, Wrap(p)) != Wrap(p) <==> !(-0x80 <= p < 0x80)
  {
    hide Trunc;
    WrapSmall(p);
    if 0 <= p < 0x80 { WrapSmall(p % 0x100); } else if p < 0 { WrapSmall(p % 0x100 - 0x100); }
  }

  /** Wrapping keeps the low bytes, and adds 2^32 to a negative number. */
  lemma WrapSmall(p: int)
    requires -0x4000 <= p <= 0x4000
    ensures Wrap(p) == if p < 0 then p + 0x1_0000_0000 else p
    ensures Wrap(p) % 0x1_0000 == p % 0x1_0000 && Trunc(W8, Wrap(p)) == p % 0x100
  {
    var q, r, h, l := p / 0x100, p % 0x100, p / 0x1_0000, p % 0x1_0000;
    assert p == 0x100 * q + r && p == 0x1_0000 * h + l;
    if p < 0 {
      Remainder8(q + 0x100_0000, r);
      Remainder16(h + 0x1_0000, l);
    }
  }

  lemma ImulShort(p: int)
    requires -0x4000_0000 <= p <= 0x4000_0000
    ensures Sext(W16, Wrap(p)) != Wrap(p) <==> !(-0x8000 <= p < 0x8000)
  {
  }

  lemma ImulLong(p: int)
    requires -0x4000_0000_0000_0000 <= p <= 0x4000_0000_0000_0000
    ensures var d, d2 := Wrap(p), Wrap(p / 0x1_0000_0000);
            && d + 0x1_0000_0000 * d2 == p % 0x1_0000_0000_0000_0000
            && ((if d >= 0x8000_0000 then 0xffff_ffff else 0) != d2 <==> !(-0x8000_0000 <= p < 0x8000_0000))
  {
  }

  lemma MulReads(w: Width, a: Word, b: Word, flags: Flags, cc: Cc)
    requires a < Size(w) && b < Size(w)
    requires cc.op == OpMUL(w) && cc.mask.cf && cc.mask.of
    requires cc.dst == (if w == W8 then Sext(W16, a * b) else Wrap(a * b))
    requires w == W32 ==> cc.dst2 == a * b / 0x1_0000_0000
    ensures ArchMul(false, w, a, b, Doubled(w, cc), Read(flags, cc))
  {
    MulMonotone(a, b, Size(w) - 1);
    MulReadsProduct(w, a * b, flags, cc);
    hide GetPF, GetAF, GetZF, GetSF, GetCF, Doubled, TruncDouble;
  }

  lemma MulReadsProduct(w: Width, p: nat, flags: Flags, cc: Cc)
    requires p <= (match w case W8 => 0xff * 0xff case W16 => 0xffff * 0xffff case W32 => 0xffff_ffff * 0xffff_ffff)
    requires cc.op == OpMUL(w) && cc.mask.cf && cc.mask.of
    requires cc.dst == (if w == W8 then Sext(W16, p) else Wrap(p)) && (w == W32 ==> cc.dst2 == p / 0x1_0000_0000)
    ensures Doubled(w, cc) == TruncDouble(w, p) && (GetCF(flags, cc) <==> p >= Size(w))
  {
    hide Sext;
    match w
    case W8 => MulByte(p);
    case W16 => MulShort(p);
    case W32 => MulLong(p);
  }

  lemma MulShort(p: nat)
    requires p < 0x1_0000_0000
    ensures Wrap(p) == p == p % 0x1_0000_0000 && (p / 0x1_0000 != 0 <==> p >= 0x1_0000)
  {
  }

  lemma MulByte(p: nat)
    requires p < 0x1_0000
    ensures Sext(W16, p) % 0x1_0000 == p && (Sext(W16, p) / 0x100 != 0 <==> p >= 0x100)
  {
    hide Sext, Trunc, Signed;
    SextLow(W16, p);
    if p >= 0x8000 { Remainder16(0xffff, p); }
  }

  lemma MulLong(p: nat)
    requires p < 0x1_0000_0000_0000_0000
    ensures Wrap(p) + 0x1_0000_0000 * (p / 0x1_0000_0000) == p == p % 0x1_0000_0000_0000_0000
  {
  }
}
