/**
 The instructions that touch the lazy flags, as methods on the fields they update.
 */
module LazyCpu {
  import opened Words
  import opened FlagSemantics
  import opened LazyFlags
  import opened ShiftLaws

  /** OF is still to be derived from a multiplication, which `get_OF` does by reading CF. */
  predicate MulPending(cc: Cc) {
    cc.mask.of && (cc.op.OpMUL? || cc.op.OpIMUL?)
  }

  /** How an instruction changes whether OF hangs on a multiplication. */
  function NextPending(m: bool, i: Instr): bool {
    match i
    case Mul(_, _, _, _) => true
    case Clc | Stc | Cmc | Sahf(_) => m
    case Shift(k, w, _, count) =>
      m && (if k.ROL? || k.ROR? then count == 0 else RoundCount(k, w, count) == 0)
    case _ => false
  }

  /** Whether OF hangs on a multiplication after a program. */
  function PendingAfter(m: bool, prog: seq<Instr>): bool {
    if prog == [] then m else NextPending(PendingAfter(m, prog[..|prog| - 1]), prog[|prog| - 1])
  }

  /** ROL and ROR test the unmasked count, and so act on a count of 32, 64, and so on. */
  predicate RotatesByMultipleOf32(i: Instr) {
    i.Shift? && (i.kind == ROL || i.kind == ROR) && i.count != 0 && i.count % 32 == 0
  }

  /** CF and OF that such a rotate, which moves nothing, writes. */
  function IdleRotateFlags(k: ShiftKind, w: Width, a: Word): (bool, bool) {
    if k == ROL then (a % 2 == 1, (a >= 0x8000_0000) != (a % 2 == 1))
    else (a >= Half(w), (a >= Half(w)) != SecondTop(w, a))
  }

  /**
   The inputs on which the code departs from the manual, decided before the instruction
   from the flags `f` and from whether OF hangs on a multiplication.
   */
  predicate Departs(f: Flags, m: bool, i: Instr) {
    match i
    case Clc => m && f.cf
    case Stc => m && !f.cf
    case Cmc => m
    case Sahf(ah) => m && (ah & 0x01 != 0) != f.cf
    case Shift(k, w, a, _) => RotatesByMultipleOf32(i) && IdleRotateFlags(k, w, a) != (f.cf, f.of)
    case _ => false
  }

  /** `y0 & (BIT - 1)`. */
  function RotateCount(w: Width, count: Word): (y: nat)
    ensures y < Bits(w)
  {
    match w case W8 => count % 8 case W16 => count % 16 case W32 => count % 32
  }

  /** `(y & 0x1f) % (BIT + 1)`. */
  function RotateCountThroughCarry(w: Width, count: Word): (y: nat)
    ensures y <= Bits(w) && y < 32 && y == RoundCount(RCL, w, count) == RoundCount(RCR, w, count)
  {
    match w case W8 => count % 32 % 9 case W16 => count % 32 % 17 case W32 => count % 32
  }

  class Cpu {
    /** The six arithmetic flags of the EFLAGS word; the other bits take no part. */
    var flags: Flags
    var cc: Cc

    ghost predicate Valid()
      reads this
    {
      CfReadable(cc)
    }

    /** The flags as the rest of the program reads them. */
    function View(): Flags
      reads this
      requires CfReadable(cc)
    {
      Read(flags, cc)
    }

    constructor ()
      ensures Valid() && View() == Flags(false, false, false, false, false, false) && !MulPending(cc)
    {
      flags := Flags(false, false, false, false, false, false);
      cc := Cc(OpADD, 0, 0, 0, 0, flags);
    }

    method Acop(sub: bool, w: Width, a: Word, b: Word) returns (r: Word)
      requires Valid() && a < Size(w) && b < Size(w)
      modifies this`cc
      ensures Valid() && Arch(Instr.Acop(sub, w, a, b), old(View()), r, View())
      ensures !MulPending(cc)
    {
      hide Sext, Trunc, Size, Read;
      CarryReads(flags, cc);
      var cf := GetCF(flags, cc);
      cc := cc.(src1 := Sext(w, a));
      cc := cc.(src2 := Sext(w, b));
      cc := cc.(dst := Sext(w, if sub then cc.src1 - cc.src2 - Num(cf) else cc.src1 + cc.src2 + Num(cf)));
      cc := cc.(op := if sub then (if cf then OpSBB else OpSUB) else (if cf then OpADC else OpADD));
      cc := cc.(mask := ALL);
      r := Trunc(w, cc.dst);
      if sub { SubReads(w, a, b, Num(cf), flags, cc); } else { AddReads(w, a, b, Num(cf), flags, cc); }
      TruncFits(w, cc.dst);
    }

    method Aop(sub: bool, w: Width, a: Word, b: Word) returns (r: Word)
      requires Valid() && a < Size(w) && b < Size(w)
      modifies this`cc
      ensures Valid() && Arch(Instr.Aop(sub, w, a, b), old(View()), r, View())
      ensures !MulPending(cc)
      ensures cc.mask.zf && (cc.dst == 0 <==> r == 0)
    {
      hide Sext, Trunc, Size, Read;
      cc := cc.(src1 := Sext(w, a));
      cc := cc.(src2 := Sext(w, b));
      cc := cc.(dst := Sext(w, if sub then cc.src1 - cc.src2 else cc.src1 + cc.src2));
      cc := cc.(op := if sub then OpSUB else OpADD);
      cc := cc.(mask := ALL);
      r := Trunc(w, cc.dst);
      if sub { SubReads(w, a, b, 0, flags, cc); } else { AddReads(w, a, b, 0, flags, cc); }
      TruncFits(w, cc.dst);
      ZeroReads(flags, cc);
    }

    method Lop(logic: Logic, w: Width, a: Word, b: Word) returns (r: Word)
      requires Valid() && a < Size(w) && b < Size(w)
      modifies this`cc
      ensures Valid() && Arch(Instr.Lop(logic, w, a, b), old(View()), r, View()) && View().af == old(flags).af
      ensures !MulPending(cc)
      ensures cc.mask.zf && (cc.dst == 0 <==> r == 0)
    {
      hide Sext, Trunc, Size, Bitwise, ByDigits;
      cc := cc.(dst := Sext(w, Bitwise(logic, a, b)), op := OpLOGIC, mask := ALL_BUT_AF);
      r := Trunc(w, cc.dst);
      BitwiseFits(logic, w, a, b);
      BitwiseByDigits(logic, a, b);
      LogicReads(w, Bitwise(logic, a, b), flags, cc);
      ZeroReads(flags, cc);
    }

    method IncDec(sub: bool, w: Width, a: Word) returns (r: Word)
      requires Valid() && a < Size(w)
      modifies this`cc, this`flags
      ensures Valid() && Arch(Instr.IncDec(sub, w, a), old(View()), r, View())
      ensures !MulPending(cc)
    {
      hide Sext, Trunc, Size, Read;
      CarryReads(flags, cc);
      var cf := GetCF(flags, cc);
      cc := cc.(dst := Sext(w, if sub then Sext(w, a) - 1 else Sext(w, a) + 1));
      cc := cc.(op := if sub then OpDEC(w) else OpINC(w));
      flags := flags.(cf := cf);
      cc := cc.(mask := ALL_BUT_CF);
      r := Trunc(w, cc.dst);
      CarryReads(flags, cc);
      if sub { DecReads(w, a, flags, cc); } else { IncReads(w, a, flags, cc); }
      TruncFits(w, cc.dst);
    }

    method Neg(w: Width, a: Word) returns (r: Word)
      requires Valid() && a < Size(w)
      modifies this`cc
      ensures Valid() && Arch(Instr.Neg(w, a), old(View()), r, View())
      ensures !MulPending(cc)
    {
      hide Sext, Trunc, Size, Read;
      cc := cc.(src1 := Sext(w, a));
      cc := cc.(dst := Sext(w, 0 - cc.src1), op := OpNEG(w), mask := ALL);
      r := Trunc(w, cc.dst);
      NegReads(w, a, flags, cc);
      TruncFits(w, cc.dst);
    }

    method Mul(signed: bool, w: Width, a: Word, b: Word) returns (r: nat)
      requires Valid() && a < Size(w) && b < Size(w)
      modifies this`cc
      ensures Valid() && Arch(Instr.Mul(signed, w, a, b), old(View()), r, View())
      ensures MulPending(cc)
    {
      hide Sext, Signed, Trunc, Size, Read, ByDigits, ArchShift, ArchAdd, ArchSub;
      if signed {
        cc := cc.(src1 := Sext(w, a), src2 := Sext(w, b));
        if w == W32 {
          var res := Signed(w, a) * Signed(w, b);
          cc := cc.(dst := Wrap(res), dst2 := Wrap(res / 0x1_0000_0000));
        } else {
          cc := cc.(dst := Wrap(cc.src1 * cc.src2));
        }
        cc := cc.(op := OpIMUL(w), mask := ALL);
        ImulReads(w, a, b, flags, cc);
      } else {
        cc := cc.(src1 := a, src2 := b);
        WideProduct(w, a, b);
        match w {
          case W8 => cc := cc.(dst := Sext(W16, a * b));
          case W16 => cc := cc.(dst := Wrap(a * b));
          case W32 => cc := cc.(dst := Wrap(a * b), dst2 := a * b / 0x1_0000_0000);
        }
        cc := cc.(op := OpMUL(w), mask := ALL);
        MulReads(w, a, b, flags, cc);
      }
      r := Doubled(w, cc);
    }

    /** SHL, SHR and SAR. */
    method Shift(k: ShiftKind, w: Width, a: Word, count: Word) returns (r: Word)
      requires Valid() && a < Size(w) && k in {SHL, SHR, SAR}
      modifies this`cc
      ensures Valid() && Arch(Instr.Shift(k, w, a, count), old(View()), r, View())
      ensures MulPending(cc) == (count % 32 == 0 && old(MulPending(cc)))
    {
      hide Sext, Trunc, Size, Half, Shr, Rounds, LazyFlags.Read, Sar, ShlWord, Bit, Words.Shl;
      ghost var f := View();
      r := a;
      var y := count % 32;
      if y != 0 {
        match k {
          case SHL =>
            cc := cc.(dst := Sext(w, ShlWord(a, y)));
            // For counts above the width the distance is negative, which C leaves undefined
            // and the host masks to five bits.
            cc := cc.(dst2 := Bit(a, (Bits(w) - y) % 32), op := OpSHL);
          case SHR =>
            cc := cc.(src1 := Sext(w, a), dst := Sext(w, Shr(a, y)));
            cc := cc.(dst2 := Bit(a, y - 1), op := OpSHR);
          case SAR =>
            cc := cc.(dst := Wrap(Sar(Signed(w, a), y)));
            cc := cc.(dst2 := Sar(Signed(w, a), y - 1) % 2, op := OpSAR);
        }
        cc := cc.(mask := ALL_BUT_AF);
        r := Trunc(w, cc.dst);
        ShiftMeetsArch(k, w, a, y, f, flags, cc);
      } else {
        RoundsStep(k, w, a, f.cf, 0);
      }
    }

    method Rcl(w: Width, a: Word, count: Word) returns (r: Word)
      requires Valid() && a < Size(w)
      modifies this`cc, this`flags
      ensures Valid() && Arch(Instr.Shift(RCL, w, a, count), old(View()), r, View())
      ensures MulPending(cc) == (RoundCount(RCL, w, count) == 0 && old(MulPending(cc)))
    {
      hide ArchShift, RoundCount, RotateCountThroughCarry, Sext, Trunc, Size, Half, Bits, Bit, Xor, ShlWord, RclCode, Read, Top, GetCF, GetOF;
      ghost var f := View();
      CarryReads(flags, cc);
      r := a;
      var y := RotateCountThroughCarry(w, count);
      if y == 0 {
        NoRounds(RCL, w, a, count, f);
      } else {
        var cf := GetCF(flags, cc);
        var res := Sext(w, RclCode(w, a, cf, y));
        var cf1 := Bit(a, Bits(w) - y) == 1;
        var of1 := Top(res) != cf1;
        flags := flags.(cf := cf1, of := of1);
        cc := cc.(mask := cc.mask.(cf := false, of := false));
        r := Trunc(w, res);
        CarryAndOverflowSet(f, old(flags), old(cc), flags, cc);
        RclMeetsArch(w, a, count, y, f, f.(cf := cf1, of := of1), res);
      }
    }

    method Rcr(w: Width, a: Word, count: Word) returns (r: Word)
      requires Valid() && a < Size(w)
      modifies this`cc, this`flags
      ensures Valid() && Arch(Instr.Shift(RCR, w, a, count), old(View()), r, View())
      ensures MulPending(cc) == (RoundCount(RCR, w, count) == 0 && old(MulPending(cc)))
    {
      hide ArchShift, RoundCount, RotateCountThroughCarry, Sext, Trunc, Size, Half, Bits, Bit, Xor, ShlWord, RcrCode, Read, Top, GetCF, GetOF;
      ghost var f := View();
      CarryReads(flags, cc);
      r := a;
      var y := RotateCountThroughCarry(w, count);
      if y == 0 {
        NoRounds(RCR, w, a, count, f);
      } else {
        var cf := GetCF(flags, cc);
        var res := Sext(w, RcrCode(w, a, cf, y));
        var cf1 := Bit(Sext(w, ShlWord(a, Bits(w) - y)), Bits(w) - 1) == 1;
        var of1 := Bit(Xor(res, ShlWord(res, 1)), Bits(w) - 1) == 1;
        flags := flags.(cf := cf1, of := of1);
        cc := cc.(mask := cc.mask.(cf := false, of := false));
        r := Trunc(w, res);
        CarryAndOverflowSet(f, old(flags), old(cc), flags, cc);
        RcrMeetsArch(w, a, count, y, f, f.(cf := cf1, of := of1), res);
      }
    }


    method Rol(w: Width, a: Word, count: Word) returns (r: Word)
      requires Valid() && a < Size(w)
      modifies this`cc, this`flags
      ensures Valid() && (Arch(Instr.Shift(ROL, w, a, count), old(View()), r, View())
                          <==> !Departs(old(View()), old(MulPending(cc)), Instr.Shift(ROL, w, a, count)))
      ensures MulPending(cc) == (count == 0 && old(MulPending(cc)))
    {
      hide ArchShift, IdleRotateFlags, RotateCount, Sext, Trunc, Size, Half, Bits, Bit, Xor, ShlWord, RolCode, Read, Top, GetCF, GetOF;
      ghost var f := View();
      r := a;
      RotateCountMasks(w, count);
      var y := RotateCount(w, count);
      var res := a;
      if y != 0 {
        res := Sext(w, RolCode(w, a, y));
        r := Trunc(w, res);
      }
      if count == 0 {
        NoRounds(ROL, w, a, count, f);
      } else {
        var cf1 := res % 2 == 1;
        var of1 := Top(res) != cf1;
        flags := flags.(cf := cf1, of := of1);
        cc := cc.(mask := cc.mask.(cf := false, of := false));
        CarryAndOverflowSet(f, old(flags), old(cc), flags, cc);
        RolMeetsArch(w, a, count, y, f, View(), r, res);
      }
    }

    method Ror(w: Width, a: Word, count: Word) returns (r: Word)
      requires Valid() && a < Size(w)
      modifies this`cc, this`flags
      ensures Valid() && (Arch(Instr.Shift(ROR, w, a, count), old(View()), r, View())
                          <==> !Departs(old(View()), old(MulPending(cc)), Instr.Shift(ROR, w, a, count)))
      ensures MulPending(cc) == (count == 0 && old(MulPending(cc)))
    {
      hide ArchShift, IdleRotateFlags, RotateCount, Sext, Trunc, Size, Half, Bits, Bit, Xor, ShlWord, RorCode, Read, Top, GetCF, GetOF;
      ghost var f := View();
      r := a;
      RotateCountMasks(w, count);
      var y := RotateCount(w, count);
      var res := a;
      if y != 0 {
        res := Sext(w, RorCode(w, a, y));
        r := Trunc(w, res);
      }
      if count == 0 {
        NoRounds(ROR, w, a, count, f);
      } else {
        var cf1 := Bit(res, Bits(w) - 1) == 1;
        var of1 := Bit(Xor(res, ShlWord(res, 1)), Bits(w) - 1) == 1;
        flags := flags.(cf := cf1, of := of1);
        cc := cc.(mask := cc.mask.(cf := false, of := false));
        CarryAndOverflowSet(f, old(flags), old(cc), flags, cc);
        RorMeetsArch(w, a, count, y, f, View(), r, res);
      }
    }

    method Clc()
      requires Valid()
      modifies this`cc, this`flags
      ensures Valid() && (Arch(Instr.Clc, old(View()), 0, View()) <==> !Departs(old(View()), old(MulPending(cc)), Instr.Clc))
      ensures MulPending(cc) == old(MulPending(cc))
    {
      CarrySet(flags, cc, false);
      cc := cc.(mask := cc.mask.(cf := false));
      flags := flags.(cf := false);
    }

    method Stc()
      requires Valid()
      modifies this`cc, this`flags
      ensures Valid() && (Arch(Instr.Stc, old(View()), 0, View()) <==> !Departs(old(View()), old(MulPending(cc)), Instr.Stc))
      ensures MulPending(cc) == old(MulPending(cc))
    {
      CarrySet(flags, cc, true);
      cc := cc.(mask := cc.mask.(cf := false));
      flags := flags.(cf := true);
    }

    method Cmc()
      requires Valid()
      modifies this`cc, this`flags
      ensures Valid() && (Arch(Instr.Cmc, old(View()), 0, View()) <==> !Departs(old(View()), old(MulPending(cc)), Instr.Cmc))
      ensures MulPending(cc) == old(MulPending(cc))
    {
      var cf := GetCF(flags, cc);
      CarrySet(flags, cc, !cf);
      cc := cc.(mask := cc.mask.(cf := false));
      flags := flags.(cf := !cf);
    }

    /** Brings every flag up to date in the flags word. */
    method RefreshFlags()
      requires Valid()
      modifies this`flags
      ensures Valid() && View() == old(View()) == flags
    {
      hide GetCF, GetPF, GetAF, GetZF, GetSF, GetOF;
      ghost var was := flags;
      flags := flags.(cf := GetCF(flags, cc));
      Materialised(was, flags, cc);
      flags := flags.(pf := GetPF(flags, cc));
      Materialised(was, flags, cc);
      flags := flags.(af := GetAF(flags, cc));
      Materialised(was, flags, cc);
      flags := flags.(zf := GetZF(flags, cc));
      Materialised(was, flags, cc);
      flags := flags.(sf := GetSF(flags, cc));
      Materialised(was, flags, cc);
      flags := flags.(of := GetOF(flags, cc));
      Materialised(was, flags, cc);
    }

    method Lahf() returns (ah: bv8)
      requires Valid()
      modifies this`cc, this`flags
      ensures Valid() && Arch(Instr.Lahf, old(View()), ah as nat, View())
      ensures !MulPending(cc)
    {
      hide PackAh, AhNumber;
      RefreshFlags();
      cc := cc.(mask := Flags(false, false, false, false, false, false));
      ah := PackAh(flags);
      PackAhNumber(flags);
    }

    method Sahf(ah: bv8)
      requires Valid()
      modifies this`cc, this`flags
      ensures Valid() && (Arch(Instr.Sahf(ah), old(View()), 0, View())
                          <==> !Departs(old(View()), old(MulPending(cc)), Instr.Sahf(ah)))
      ensures MulPending(cc) == old(MulPending(cc))
    {
      hide ParityTab, Xor, Bit, Sext, Half, Top;
      cc := cc.(mask := Flags(false, false, false, false, false, cc.mask.of));
      flags := flags.(sf := ah & 0x80 != 0, zf := ah & 0x40 != 0, af := ah & 0x10 != 0,
                      pf := ah & 0x04 != 0, cf := ah & 0x01 != 0);
    }

    /** One instruction: it meets the manual unless `Departs` says otherwise. */
    method Exec(i: Instr) returns (r: nat)
      requires Valid() && Encodable(i)
      modifies this
      ensures Valid()
      ensures Arch(i, old(View()), r, View()) <==> !Departs(old(View()), old(MulPending(cc)), i)
      ensures MulPending(cc) == NextPending(old(MulPending(cc)), i)
    {
      hide Read, ArchShift, ArchAdd, ArchSub, ArchMul;
      r := 0;
      match i {
        case Acop(sub, w, a, b) => r := Acop(sub, w, a, b);
        case Aop(sub, w, a, b) => r := Aop(sub, w, a, b);
        case Lop(logic, w, a, b) => r := Lop(logic, w, a, b);
        case IncDec(sub, w, a) => r := IncDec(sub, w, a);
        case Neg(w, a) => r := Neg(w, a);
        case Mul(signed, w, a, b) => r := Mul(signed, w, a, b);
        case Shift(k, w, a, count) =>
          match k {
            case SHL | SHR | SAR => r := Shift(k, w, a, count);
            case RCL => r := Rcl(w, a, count);
            case RCR => r := Rcr(w, a, count);
            case ROL => r := Rol(w, a, count);
            case ROR => r := Ror(w, a, count);
          }
        case Clc => Clc();
        case Stc => Stc();
        case Cmc => Cmc();
        case Lahf => var ah := Lahf(); r := ah as nat;
        case Sahf(ah) => Sahf(ah);
      }
    }

    /**
     Any program: `trace` holds the flags as they would be read before each instruction and
     at the end, and step `k` meets the manual exactly when `Departs` does not hold there.
     */
    method Run(prog: seq<Instr>) returns (trace: seq<Flags>, results: seq<nat>)
      requires Valid() && forall k :: 0 <= k < |prog| ==> Encodable(prog[k])
      modifies this
      ensures Valid()
      ensures |trace| == |prog| + 1 && |results| == |prog|
      ensures trace[0] == old(View()) && trace[|prog|] == View()
      ensures forall k :: 0 <= k < |prog| ==>
                (Arch(prog[k], trace[k], results[k], trace[k + 1])
                 <==> !Departs(trace[k], PendingAfter(old(MulPending(cc)), prog[..k]), prog[k]))
    {
      hide Read, Arch, Departs, NextPending, Encodable;
      ghost var m := MulPending(cc);
      trace, results := [View()], [];
      for n := 0 to |prog|
        invariant Valid() && |trace| == n + 1 && |results| == n
        invariant trace[0] == old(View()) && trace[n] == View()
        invariant MulPending(cc) == PendingAfter(m, prog[..n])
        invariant forall k :: 0 <= k < n ==>
                    (Arch(prog[k], trace[k], results[k], trace[k + 1])
                     <==> !Departs(trace[k], PendingAfter(m, prog[..k]), prog[k]))
      {
        var r := Exec(prog[n]);
        assert prog[..n + 1] == prog[..n] + [prog[n]];
        trace, results := trace + [View()], results + [r];
      }
      assert prog[..|prog|] == prog;
    }
  }

  lemma TruncFits(w: Width, x: int)
    ensures Trunc(w, x) < Size(w)
  {
  }

  lemma ZeroReads(flags: Flags, cc: Cc)
    requires CfReadable(cc) && cc.mask.zf
    ensures Read(flags, cc).zf == (cc.dst == 0)
  {
  }

  lemma CarryReads(flags: Flags, cc: Cc)
    requires CfReadable(cc)
    ensures Read(flags, cc).cf == GetCF(flags, cc)
    ensures !cc.mask.cf ==> Read(flags, cc).cf == (flags.cf)
  {
  }

  lemma {:induction false} BitwiseBound(k: Logic, a: nat, b: nat, n: nat)
    requires a < Words.Shl(1, n) && b < Words.Shl(1, n)
    ensures Bitwise(k, a, b) < Words.Shl(1, n)
    decreases n
  {
    if n > 0 { BitwiseBound(k, a / 2, b / 2, n - 1); }
  }

  lemma BitwiseFits(k: Logic, w: Width, a: nat, b: nat)
    requires a < Size(w) && b < Size(w)
    ensures Bitwise(k, a, b) < Size(w)
  {
    hide Bitwise;
    WidthConstants(w);
    BitwiseBound(k, a, b, Bits(w));
  }

  lemma WideProduct(w: Width, a: Word, b: Word)
    requires a < Size(w) && b < Size(w)
    ensures 0 <= a * b <= (Size(w) - 1) * (Size(w) - 1)
  {
    MulMonotone(a, b, Size(w) - 1);
  }

  lemma ShiftMeetsArch(k: ShiftKind, w: Width, a: Word, y: nat, f: Flags, flags: Flags, cc: Cc)
    requires a < Size(w) && 1 <= y < 32 && k in {SHL, SHR, SAR} && cc.mask == ALL_BUT_AF
    requires k == SHL ==> cc.op == OpSHL && cc.dst == Sext(w, ShlWord(a, y)) && cc.dst2 == Bit(a, (Bits(w) - y) % 32)
    requires k == SHR ==> cc.op == OpSHR && cc.dst == Sext(w, Shr(a, y)) && cc.dst2 == Bit(a, y - 1) && cc.src1 == Sext(w, a)
    requires k == SAR ==> cc.op == OpSAR && cc.dst == Wrap(Sar(Signed(w, a), y)) && cc.dst2 == Sar(Signed(w, a), y - 1) % 2
    ensures ArchShift(k, w, a, y, f, Trunc(w, cc.dst), Read(flags, cc))
  {
    hide Sext, Trunc, Size, Half, Rounds, ArchShift, Sar, Shr, Words.Shl, ShlWord, Bit, Read;
    match k {
      case SHL => ShlMeetsArch(w, a, y, f, flags, cc);
      case SHR => ShrMeetsArch(w, a, y, f, flags, cc);
      case SAR => SarMeetsArch(w, a, y, f, flags, cc);
    }
  }

  lemma ShlReads(flags: Flags, cc: Cc)
    requires cc.op == OpSHL && cc.mask == ALL_BUT_AF
    ensures var f := Read(flags, cc); f.cf == (cc.dst2 % 2 == 1) && f.of == (Top(cc.dst) != (cc.dst2 % 2 == 1))
  {
  }

  lemma ShlCount(w: Width, y: nat)
    requires 1 <= y < 32
    ensures RoundCount(SHL, w, y) == y && (y <= Bits(w) ==> (Bits(w) - y) % 32 == Bits(w) - y)
  {
  }

  lemma ShlMeetsArch(w: Width, a: Word, y: nat, f: Flags, flags: Flags, cc: Cc)
    requires a < Size(w) && 1 <= y < 32 && cc.mask == ALL_BUT_AF
    requires cc.op == OpSHL && cc.dst == Sext(w, ShlWord(a, y)) && cc.dst2 == Bit(a, (Bits(w) - y) % 32)
    ensures ArchShift(SHL, w, a, y, f, Trunc(w, cc.dst), Read(flags, cc))
  {
    hide Sext, Trunc, Size, Half, Rounds, ResultFlags, Words.Shl, ShlWord, Bit, Top, LazyFlags.Read, GetCF, GetOF;
    hide Bits, RoundCount;
    ShlCount(w, y);
    var r := Trunc(w, Words.Shl(a, y));
    ShlReads(flags, cc);
    ShlRounds(w, a, f.cf, y);
    ShlResult(w, a, y);
    TruncFits(w, Words.Shl(a, y));
    LogicReads(w, r, flags, cc);
    ResultReads(w, r);
  }

  lemma ShrMeetsArch(w: Width, a: Word, y: nat, f: Flags, flags: Flags, cc: Cc)
    requires a < Size(w) && 1 <= y < 32 && cc.mask == ALL_BUT_AF
    requires cc.op == OpSHR && cc.dst == Sext(w, Shr(a, y)) && cc.dst2 == Bit(a, y - 1) && cc.src1 == Sext(w, a)
    ensures ArchShift(SHR, w, a, y, f, Trunc(w, cc.dst), Read(flags, cc))
  {
    hide Sext, Trunc, Size, Half, Rounds, ResultFlags, Shr, Bit, GetPF, GetAF, GetZF, GetSF;
    ShrRounds(w, a, f.cf, y);
    assert Shr(a, y) <= a;
    LogicReads(w, Shr(a, y), flags, cc);
    ResultReads(w, a);
  }

  lemma SarMeetsArch(w: Width, a: Word, y: nat, f: Flags, flags: Flags, cc: Cc)
    requires a < Size(w) && 1 <= y < 32 && cc.mask == ALL_BUT_AF
    requires cc.op == OpSAR && cc.dst == Wrap(Sar(Signed(w, a), y)) && cc.dst2 == Sar(Signed(w, a), y - 1) % 2
    ensures ArchShift(SAR, w, a, y, f, Trunc(w, cc.dst), Read(flags, cc))
  {
    hide Sext, Trunc, Size, Half, Rounds, ResultFlags, Sar, Bit, GetPF, GetAF, GetZF, GetSF;
    var v := Sar(Signed(w, a), y);
    SarRounds(w, a, f.cf, y);
    SignedTrunc(w, a);
    SarRange(w, Signed(w, a), y);
    TruncFits(w, v);
    WrapIsSext(w, v);
    LogicReads(w, Trunc(w, v), flags, cc);
  }

  lemma WrapIsSext(w: Width, v: int)
    requires -Half(w) <= v < Half(w)
    ensures Wrap(v) == Sext(w, Trunc(w, v))
  {
    SignedSmall(w, v);
    assert Signed(w, Trunc(w, v)) == v;
  }

  /** A rotate by no position changes nothing. */
  lemma NoRounds(k: ShiftKind, w: Width, a: Word, count: nat, f: Flags)
    requires RoundCount(k, w, count) == 0 && (k == ROL || k == ROR ==> count % 32 == 0)
    ensures ArchShift(k, w, a, count, f, a, f)
  {
    RoundsStep(k, w, a, f.cf, 0);
  }

  lemma RclMeetsArch(w: Width, a: Word, count: Word, y: nat, f: Flags, f': Flags, res: Word)
    requires a < Size(w) && y == RotateCountThroughCarry(w, count) > 0
    requires res == Sext(w, RclCode(w, a, f.cf, y)) && f'.cf == (Bit(a, Bits(w) - y) == 1)
    requires f' == f.(cf := f'.cf, of := Top(res) != f'.cf)
    ensures ArchShift(RCL, w, a, count, f, Trunc(w, res), f')
  {
    hide RoundCount, RotateCountThroughCarry, Sext, Trunc, Rounds, RclCode, Bit, Half, RclForm, Size;
    RclRounds(w, a, f.cf, y);
    RclCodeIsForm(w, a, f.cf, y);
    SextOfTrunc(w, RclCode(w, a, f.cf, y));
  }

  lemma RcrMeetsArch(w: Width, a: Word, count: Word, y: nat, f: Flags, f': Flags, res: Word)
    requires a < Size(w) && y == RotateCountThroughCarry(w, count) > 0
    requires res == Sext(w, RcrCode(w, a, f.cf, y))
    requires f'.cf == (Bit(Sext(w, ShlWord(a, Bits(w) - y)), Bits(w) - 1) == 1)
    requires f' == f.(cf := f'.cf, of := Bit(Xor(res, ShlWord(res, 1)), Bits(w) - 1) == 1)
    ensures ArchShift(RCR, w, a, count, f, Trunc(w, res), f')
  {
    hide RoundCount, RotateCountThroughCarry, Sext, Trunc, Rounds, RcrCode, Bit, Half, RcrForm, ShlWord, Xor, SecondTop, Size;
    RcrRounds(w, a, f.cf, y);
    RcrCodeIsForm(w, a, f.cf, y);
    SextOfTrunc(w, RcrCode(w, a, f.cf, y));
    RcrCarry(w, a, y);
    TopsDiffer(w, res);
  }

  lemma RotateCountMasks(w: Width, count: Word)
    ensures RotateCount(w, count) == RoundCount(ROL, w, count) == RoundCount(ROR, w, count)
    ensures count % 32 == 0 ==> RotateCount(w, count) == 0
    ensures count % 32 == 1 ==> RotateCount(w, count) == 1
  {
    match w
    case W8 => ModMod8(count);
    case W16 => ModMod16(count);
    case W32 =>
  }

  lemma ModMod8(x: nat)
    ensures x % 32 % 8 == x % 8
  {
  }

  lemma ModMod16(x: nat)
    ensures x % 32 % 16 == x % 16
  {
  }

  lemma RolMeetsArch(w: Width, a: Word, count: Word, y: nat, f: Flags, f': Flags, r: Word, res: Word)
    requires a < Size(w) && count > 0 && y == RotateCount(w, count)
    requires res == (if y == 0 then a else Sext(w, RolCode(w, a, y))) && r == (if y == 0 then a else Trunc(w, res))
    requires f' == f.(cf := res % 2 == 1, of := Top(res) != (res % 2 == 1))
    ensures ArchShift(ROL, w, a, count, f, r, f') <==> !(count % 32 == 0 && IdleRotateFlags(ROL, w, a) != (f.cf, f.of))
  {
    hide RotateCount, RoundCount, Sext, Trunc, Rounds, RolCode, Half, RolForm, Size, Bit, SecondTop, IdleRotateFlags;
    RotateCountMasks(w, count);
    RoundsStep(ROL, w, a, f.cf, 0);
    if y == 0 {
      assert IdleRotateFlags(ROL, w, a) == (f'.cf, f'.of) by { IdleRol(w, a); }
    } else {
      RolRounds(w, a, f.cf, y);
      RolCodeIsForm(w, a, y);
      SextOfTrunc(w, RolCode(w, a, y));
      SextParity(w, RolCode(w, a, y));
    }
  }

  lemma IdleRol(w: Width, a: Word)
    ensures IdleRotateFlags(ROL, w, a) == (a % 2 == 1, Top(a) != (a % 2 == 1))
  {
  }

  lemma SextParity(w: Width, v: int)
    ensures Sext(w, v) % 2 == Trunc(w, v) % 2
  {
    hide Trunc;
    Division(w, v);
    var r := Trunc(w, v);
    EvenMore(r, (0x1_0000_0000 - Size(w)) / 2);
    if r >= Half(w) { WrapNegative(r - Size(w)); }
  }

  lemma WrapNegative(x: int)
    requires -0x8000_0000 <= x < 0
    ensures Wrap(x) == x + 0x1_0000_0000
  {
  }

  lemma EvenMore(x: nat, n: nat)
    ensures (x + 2 * n) % 2 == x % 2
  {
  }

  lemma RorMeetsArch(w: Width, a: Word, count: Word, y: nat, f: Flags, f': Flags, r: Word, res: Word)
    requires a < Size(w) && count > 0 && y == RotateCount(w, count)
    requires res == (if y == 0 then a else Sext(w, RorCode(w, a, y))) && r == (if y == 0 then a else Trunc(w, res))
    requires f' == f.(cf := Bit(res, Bits(w) - 1) == 1, of := Bit(Xor(res, ShlWord(res, 1)), Bits(w) - 1) == 1)
    ensures ArchShift(ROR, w, a, count, f, r, f') <==> !(count % 32 == 0 && IdleRotateFlags(ROR, w, a) != (f.cf, f.of))
  {
    hide RotateCount, RoundCount, Sext, Trunc, Rounds, RorCode, Half, RorForm, Size, Bit, SecondTop, Xor, ShlWord;
    RotateCountMasks(w, count);
    RoundsStep(ROR, w, a, f.cf, 0);
    TopsDiffer(w, res);
    TruncTop(w, res);
    if y == 0 {
      TruncSmall(w, a);
    } else {
      RorRounds(w, a, f.cf, y);
      RorCodeIsForm(w, a, y);
      SextOfTrunc(w, RorCode(w, a, y));
    }
  }

  lemma CarrySet(flags: Flags, cc: Cc, c: bool)
    requires CfReadable(cc)
    ensures var cc', flags' := cc.(mask := cc.mask.(cf := false)), flags.(cf := c);
            Read(flags', cc') == Read(flags, cc).(cf := c, of := if MulPending(cc) then c else Read(flags, cc).of)
            && (MulPending(cc) ==> Read(flags, cc).of == Read(flags, cc).cf)
  {
    hide ParityTab, Xor, Bit, Sext, Half, Top;
  }

  /** Moving CF and OF from the record to the flags word changes no other flag. */
  lemma CarryAndOverflowSet(f: Flags, flags: Flags, cc: Cc, flags': Flags, cc': Cc)
    requires CfReadable(cc) && f == Read(flags, cc)
    requires flags' == flags.(cf := flags'.cf, of := flags'.of) && cc' == cc.(mask := cc.mask.(cf := false, of := false))
    ensures CfReadable(cc') && Read(flags', cc') == f.(cf := flags'.cf, of := flags'.of)
  {
    hide ParityTab, Xor, Bit, Top;
  }

  /** 16 times 16 in a byte overflows; after CLC the overflow is no longer reported. */
  lemma ClcAfterMulExample(flags: Flags)
    ensures var cc := Cc(OpMUL(W8), 0x100, 0, 16, 16, ALL);
            && ArchMul(false, W8, 16, 16, Doubled(W8, cc), Read(flags, cc)) && Read(flags, cc).of
            && !Read(flags.(cf := false), cc.(mask := ALL_BUT_CF)).of
            && Departs(Read(flags, cc), MulPending(cc), Clc)
  {
    var cc := Cc(OpMUL(W8), 0x100, 0, 16, 16, ALL);
    MulReads(W8, 16, 16, flags, cc);
  }

  /** ROL by 32 of an odd dword sets CF, though the manual masks the count to zero. */
  lemma RotateBy32Example(f: Flags)
    requires !f.cf
    ensures Departs(f, false, Instr.Shift(ROL, W32, 1, 32))
    ensures forall r, f' :: Arch(Instr.Shift(ROL, W32, 1, 32), f, r, f') ==> !f'.cf
  {
  }
}
