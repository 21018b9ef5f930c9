/**
 IRET in protected mode with a 32-bit operand: where it returns to, and when it is refused.
 */
module Returns {
  import opened Words
  import opened SplitAccess
  import opened EntryBits
  import opened Segments

  function Iopl(f: Eflags): nat {
    if f & IOPL == 0x3000 then 3 else if f & IOPL == 0x2000 then 2 else if f & IOPL == 0x1000 then 1 else 0
  }

  /** The conditions of `__pmiret_check_cs_same` on the descriptor of the code segment. */
  function RefusesSame(w2: Word, cpl: nat, sel: Selector): (why: Result<()>) {
    if !IsSegment(w2) || !IsCode(w2) then Failed(Raise(GP, Rounded(sel)))
    else if (!IsConforming(w2) && Dpl(w2) != cpl) || (IsConforming(w2) && Dpl(w2) > cpl) then Failed(Raise(GP, Rounded(sel)))
    else if !IsPresent(w2) then Failed(Raise(NP, Rounded(sel)))
    else Ok(())
  }

  /** Those of `__pmiret_check_cs_outer`. */
  function RefusesOuter(w2: Word, cpl: nat, sel: Selector): (why: Result<()>) {
    if !IsSegment(w2) || !IsCode(w2) then Failed(Raise(GP, Rounded(sel)))
    else if (!IsConforming(w2) && Dpl(w2) != sel % 4) || (IsConforming(w2) && Dpl(w2) <= cpl) then Failed(Raise(GP, Rounded(sel)))
    else if !IsPresent(w2) then Failed(Raise(NP, Rounded(sel)))
    else Ok(())
  }

  function CheckReturn(e: Env, m: seq<Byte>, cpl: nat, sel: Selector): Result<()>
    requires ValidEnv(e, |m|)
  {
    if Rounded(sel) == 0 then Failed(Raise(GP, 0)) else
    match HighWord(e, m, sel)
    case Failed(why) => Failed(why)
    case Ok(w2) => if sel % 4 == cpl then RefusesSame(w2, cpl, sel) else RefusesOuter(w2, cpl, sel)
  }

  /** The dword at stack offset `x`. */
  function StackDword(e: Env, c: Core, x: int): Result<Word>
    requires ValidEnv(e, |c.m|)
  {
    if !StackOk(e, c.segs.ss, x, false) then Failed(StackFailure(c.segs.ss)) else
    ReachIsRam(e, |c.m|, Slot(c.segs.ss, x), false);
    Ok(Dword(c.m, Slot(c.segs.ss, x)))
  }

  /** `n` dwords upwards from stack offset `x`, read in order. */
  function StackDwords(e: Env, c: Core, x: int, n: nat): (r: Result<seq<Word>>)
    requires ValidEnv(e, |c.m|)
    ensures r.Ok? ==> |r.value| == n
    decreases n
  {
    if n == 0 then Ok([]) else
    match StackDwords(e, c, x, n - 1)
    case Failed(why) => Failed(why)
    case Ok(ws) =>
      match StackDword(e, c, x + 4 * (n - 1))
      case Failed(why) => Failed(why)
      case Ok(w) => Ok(ws + [w])
  }

  /** EFLAGS after IRET has popped `popped`. */
  function ReturnFlags(e: Env, was: Eflags, popped: Eflags, cpl: nat): Eflags {
    var kept := On(if cpl > 0 then IOPL else 0, if Iopl(was) < cpl then IF else 0);
    On(Merge(popped, was, kept) & e.flagsMask, 2)
  }

  function Cleared(s: Seg, cpl: nat): Seg {
    var data, conforming, dpl := s.flags / 8 % 2 == 0, s.flags / 4 % 2 == 1, s.flags / 0x20 % 4;
    if (data || !conforming) && dpl < cpl then Seg(0, 0, 0, 0) else s
  }

  /** `clear_segs`: data segments that the outer privilege may not use. */
  function ClearSegs(s: Segs, cpl: nat): Segs {
    s.(ds := Cleared(s.ds, cpl), es := Cleared(s.es, cpl), fs := Cleared(s.fs, cpl), gs := Cleared(s.gs, cpl))
  }

  function Low16(w: Word): Selector { w % 0x1_0000 }

  /** Back to virtual-8086 mode: nine dwords were on the stack. */
  function ReturnToVm(e: Env, c: Core, f: Eflags): (Result<()>, Core)
    requires ValidEnv(e, |c.m|)
  {
    if c.cpl != 0 then (Failed(Abort), c) else
    match StackDwords(e, c, c.esp, 9)
    case Failed(why) => (Failed(why), c)
    case Ok(ws) =>
      (Ok(()), c.(flags := Flags(f, false, c.flags.arith), cpl := 3, nextIp := ws[0] % 0x1_0000, esp := ws[3],
                  segs := Segs(VmSeg(ws[5]), VmSeg(ws[1]), VmSeg(ws[4]), VmSeg(ws[6]), VmSeg(ws[7]), VmSeg(ws[8]))))
  }

  function VmSeg(w: Word): Seg {
    Seg(Low16(w), 16 * Low16(w), 0xffff, 0)
  }

  function ReturnSame(e: Env, c: Core, newip: Word, sel: Selector, f: Eflags): (Result<()>, Core)
    requires ValidEnv(e, |c.m|)
  {
    match Loaded(e, c.m, false, CS, sel)
    case Failed(_) => (Failed(Abort), c)
    case Ok(cs) =>
      (Ok(()), c.(flags := Flags(f, false, c.flags.arith), segs := c.segs.(cs := cs), cpl := sel % 4, nextIp := newip,
                  esp := NewSp(c.segs.ss, c.esp, c.esp + 12)))
  }

  function ReturnOuter(e: Env, c: Core, newip: Word, sel: Selector, f: Eflags): (Result<()>, Core)
    requires ValidEnv(e, |c.m|)
  {
    match StackDwords(e, c, c.esp, 5)
    case Failed(why) => (Failed(why), c)
    case Ok(ws) =>
      match (Loaded(e, c.m, false, CS, sel), Loaded(e, c.m, false, SS, Low16(ws[4])))
      case (Ok(cs), Ok(ss)) =>
        (Ok(()), c.(flags := Flags(f, false, c.flags.arith), cpl := sel % 4, nextIp := newip, esp := NewSp(ss, c.esp, ws[3]),
                    segs := ClearSegs(c.segs.(cs := cs, ss := ss), sel % 4)))
      case _ => (Failed(Abort), c)
  }

  /**
   `pmret` for IRET with a 32-bit operand; with a 16-bit one, virtual-8086 code with IOPL 3 returns as in real mode.
   The state is that of a completed return; a refused one changes nothing.
   */
  function Iret(e: Env, c: Core): (Result<()>, Core)
    requires ValidEnv(e, |c.m|)
  {
    if InVm(c) then (Failed(if Iopl(c.flags.word) < 3 then Raise(GP, 0) else Abort), c)
    else if Has(c.flags.word, NT) then (Failed(Unmodelled), c)
    else
      match StackDwords(e, c, c.esp, 3)
      case Failed(why) => (Failed(why), c)
      case Ok(ws) => ReturnTo(e, c, ws[0], ws[1], ReturnFlags(e, c.flags.word, WordFlags(ws[2]), c.cpl))
  }

  function ReturnTo(e: Env, c: Core, newip: Word, newcs: Word, f: Eflags): (Result<()>, Core)
    requires ValidEnv(e, |c.m|)
  {
    if Has(f, VM) then ReturnToVm(e, c, f)
    else if newcs % 4 < c.cpl then (Failed(Raise(GP, newcs - newcs % 4)), c)
    else ReturnToCode(e, c, newip, Low16(newcs), f)
  }

  function ReturnToCode(e: Env, c: Core, newip: Word, sel: Selector, f: Eflags): (Result<()>, Core)
    requires ValidEnv(e, |c.m|)
  {
    match CheckReturn(e, c.m, c.cpl, sel)
    case Failed(why) => (Failed(why), c)
    case Ok(_) => if sel % 4 == c.cpl then ReturnSame(e, c, newip, sel, f) else ReturnOuter(e, c, newip, sel, f)
  }

  // ---------- a completed return, told from the stack ----------

  /** `w` is dword `k` of the stack. */
  predicate OnStackAt(c: Core, k: nat, w: Word) {
    var a := Slot(c.segs.ss, c.esp + 4 * k); a + 4 <= |c.m| && w == Dword(c.m, a)
  }

  /** Dword `k` of the stack can be read. */
  predicate Readable(e: Env, c: Core, k: nat) {
    Usable(c.segs.ss) && Reach(e, Slot(c.segs.ss, c.esp + 4 * k), false)
  }

  /** The top of the stack holds the dwords `vals`. */
  predicate OnStack(c: Core, vals: seq<Word>) {
    forall k :: 0 <= k < |vals| ==> OnStackAt(c, k, vals[k])
  }

  /**
   EFLAGS after IRET at privilege `cpl`: the popped ones, but outside privilege 0 IOPL, bits 12 and 13, stays, and so does
   IF, bit 9, where IOPL is below the privilege; bit 1 is always set, and a bit that the processor lacks never.
   */
  predicate FlagsBack(was: Eflags, popped: Eflags, mask: Eflags, cpl: nat, now: Eflags) {
    var ifStays := cpl > 3 || (cpl == 3 && was & 0x3000 != 0x3000) || (cpl == 2 && was & 0x2000 == 0) || (cpl == 1 && was & 0x3000 == 0);
    && now & 0x3000 == (if cpl > 0 then was else popped) & mask & 0x3000
    && now & 0x200 == (if ifStays then was else popped) & mask & 0x200
    && now & 0xffff_cdff == (popped & mask & 0xffff_cdff) | 2
  }

  /** A data segment after a return to privilege `cpl`: null if its descriptor, unless of conforming code, is more inner. */
  predicate KeptOrNull(was: Seg, cpl: nat, now: Seg) {
    var conformingCode := Bit(was.flags, 3) == 1 && Bit(was.flags, 2) == 1;
    now == if !conformingCode && Bit(was.flags, 5) + 2 * Bit(was.flags, 6) < cpl then Seg(0, 0, 0, 0) else was
  }

  /** `c'` is back at the EIP, CS and EFLAGS on the stack, and outside the old privilege on the ESP and SS above them. */
  ghost predicate ComesBack(e: Env, c: Core, c': Core) {
    exists ip: Word, cs: Word, f: Word ::
      && OnStack(c, [ip, cs, f])
      && FlagsBack(c.flags.word, WordFlags(f), e.flagsMask, c.cpl, c'.flags.word) && !c'.flags.pending
      && c'.m == c.m && c'.ip == c.ip
      && if c'.flags.word & 0x2_0000 != 0 then c.cpl == 0 && c'.cpl == 3 else
         && c'.nextIp == ip && c'.segs.cs.sel == cs % 0x1_0000 && c'.cpl == cs % 4 >= c.cpl
         && if c'.cpl == c.cpl then c'.segs == c.segs.(cs := c'.segs.cs) else Outside(c, c')
  }

  ghost predicate Outside(c: Core, c': Core) {
    var s, s' := c.segs, c'.segs;
    && KeptOrNull(s.ds, c'.cpl, s'.ds) && KeptOrNull(s.es, c'.cpl, s'.es)
    && KeptOrNull(s.fs, c'.cpl, s'.fs) && KeptOrNull(s.gs, c'.cpl, s'.gs)
    && exists ip: Word, cs: Word, f: Word, sp: Word, ss: Word ::
         && OnStack(c, [ip, cs, f, sp, ss])
         && s'.ss.sel == ss % 0x1_0000 && (Big(s'.ss) ==> c'.esp == sp)
  }

  lemma ClearedIsNull(s: Seg, cpl: nat)
    ensures KeptOrNull(s, cpl, Cleared(s, cpl))
  {
    hide Bit;
    BitsFiveAndSix(s.flags);
    BitsTwoAndThree(s.flags);
    PrivilegeBits(s.flags);
  }

  lemma BitsTwoAndThree(x: nat)
    ensures Bit(x, 2) == x / 4 % 2 && Bit(x, 3) == x / 8 % 2
  {
    assert Shr(x, 3) == Shr(x / 2, 2) == Shr(x / 2 / 2, 1) == x / 2 / 2 / 2;
  }

  lemma PrivilegeBits(x: nat)
    ensures x / 0x20 % 4 == x / 0x20 % 2 + 2 * (x / 0x40 % 2)
  {
    HalveTwice(x);
  }

  lemma ReturnFlagsBack(e: Env, was: Eflags, popped: Eflags, cpl: nat)
    ensures FlagsBack(was, popped, e.flagsMask, cpl, ReturnFlags(e, was, popped, cpl))
  {
  }

  /** The dwords that have been read are those on the stack. */
  lemma {:induction false} StackDwordsAre(e: Env, c: Core, n: nat)
    requires ValidEnv(e, |c.m|)
    ensures var r := StackDwords(e, c, c.esp, n); r.Ok? ==> OnStack(c, r.value)
    decreases n
  {
    hide OnStack, Slot, Dword;
    NothingOnStack(c);
    if n > 0 {
      StackDwordsAre(e, c, n - 1);
      var x := c.esp + 4 * (n - 1);
      var init := StackDwords(e, c, c.esp, n - 1);
      if init.Ok? && StackOk(e, c.segs.ss, x, false) {
        ReachIsRam(e, |c.m|, Slot(c.segs.ss, x), false);
        OneMoreOnStack(c, init.value, Dword(c.m, Slot(c.segs.ss, x)));
      }
    }
  }

  /** They can be popped exactly if each of them can be read. */
  lemma {:induction false} StackDwordsOk(e: Env, c: Core, n: nat)
    requires ValidEnv(e, |c.m|)
    ensures StackDwords(e, c, c.esp, n).Ok? <==> forall k: nat :: k < n ==> Readable(e, c, k)
    decreases n
  {
    hide Slot, Dword, Reach;
    if n > 0 {
      StackDwordsOk(e, c, n - 1);
      assert Readable(e, c, n - 1) <==> StackOk(e, c.segs.ss, c.esp + 4 * (n - 1), false);
    }
  }

  lemma NothingOnStack(c: Core)
    ensures OnStack(c, [])
  {
  }

  lemma OneMoreOnStack(c: Core, vals: seq<Word>, w: Word)
    requires OnStack(c, vals) && OnStackAt(c, |vals|, w)
    ensures OnStack(c, vals + [w])
  {
    hide OnStackAt;
  }

  lemma OuterIsOutside(e: Env, c: Core, newip: Word, sel: Selector, f: Eflags)
    requires ValidEnv(e, |c.m|)
    ensures var (r, c') := ReturnOuter(e, c, newip, sel, f);
            r.Ok? ==> Outside(c, c') && c'.m == c.m && c'.ip == c.ip && c'.flags == Flags(f, false, c.flags.arith)
                      && c'.nextIp == newip && c'.segs.cs.sel == sel && c'.cpl == sel % 4
  {
    hide StackDwords, OnStack, KeptOrNull, Cleared, Loaded, Low16;
    StackDwordsAre(e, c, 5);
    var ws := StackDwords(e, c, c.esp, 5);
    if ws.Ok? {
      assert ws.value == [ws.value[0], ws.value[1], ws.value[2], ws.value[3], ws.value[4]];
      LowIs(ws.value[4]);
      ClearedIsNull(c.segs.ds, sel % 4);
      ClearedIsNull(c.segs.es, sel % 4);
      ClearedIsNull(c.segs.fs, sel % 4);
      ClearedIsNull(c.segs.gs, sel % 4);
    }
  }

  lemma LowIs(w: Word)
    ensures Low16(w) == w % 0x1_0000 && w % 0x1_0000 % 4 == w % 4
  {
    var r := w % 0x1_0000;
    var k := 0x4000 * (w / 0x1_0000) + r / 4;
    assert w == 4 * k + r % 4;
    LowTwo(k, r % 4);
  }

  lemma LowTwo(k: nat, t: nat)
    requires t < 4
    ensures (4 * k + t) % 4 == t
  {
  }

  /**
   IRET takes a code segment exactly if its selector is not null and lies in its table, and its descriptor can be read and
   is present code: to the same privilege, conforming code of that privilege or a more inner one and other code of that
   privilege; to an outer one, other code of the selector's privilege and conforming code only of a more outer privilege than the current.
   */
  lemma ReturnTakes(e: Env, m: seq<Byte>, cpl: nat, sel: Selector)
    requires ValidEnv(e, |m|)
    ensures var ldt := sel / 4 % 2 == 1;
            var a := ((if ldt then e.ldt.base else e.gdtBase) + 8 * (sel / 8) + 4) % 0x1_0000_0000;
            CheckReturn(e, m, cpl, sel).Ok? <==>
              && sel >= 4 && 8 * (sel / 8) + 7 <= (if ldt then e.ldt.limit else e.gdtLimit) && Reach(e, a, false) && a + 4 <= |m|
              && var w := Dword(m, a);
                 var dpl, conforming := w / 0x2000 % 4, w / 0x400 % 2 == 1;
                 && w / 0x1000 % 2 == 1 && w / 0x800 % 2 == 1 && w / 0x8000 % 2 == 1
                 && if sel % 4 == cpl then (if conforming then dpl <= cpl else dpl == cpl)
                    else if conforming then dpl > cpl else dpl == sel % 4
  {
    hide Dword;
    var a := Wrap(TableOf(e, sel).0 + DescOffset(sel) + 4);
    if Reach(e, a, false) { ReachIsRam(e, |m|, a, false); }
    hide Reach;
  }

  /** A return that completes goes where the stack says. */
  lemma IretComesBack(e: Env, c: Core)
    requires ValidEnv(e, |c.m|)
    ensures var (r, c') := Iret(e, c); r.Ok? ==> ComesBack(e, c, c')
  {
    hide StackDwords, OnStack, ReturnFlags, FlagsBack, KeptOrNull, Cleared, Loaded, CheckReturn, WordFlags, Outside;
    hide ReturnOuter, Low16, VmSeg;
    StackDwordsAre(e, c, 3);
    var ws := StackDwords(e, c, c.esp, 3);
    if ws.Ok? {
      var f := ReturnFlags(e, c.flags.word, WordFlags(ws.value[2]), c.cpl);
      ReturnFlagsBack(e, c.flags.word, WordFlags(ws.value[2]), c.cpl);
      assert ws.value == [ws.value[0], ws.value[1], ws.value[2]];
      LowIs(ws.value[1]);
      OuterIsOutside(e, c, ws.value[0], Low16(ws.value[1]), f);
    }
  }
}
