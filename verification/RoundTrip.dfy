/**
 Interrupt delivery followed by IRET gives the interrupted program its state back, whatever
 the handler did in between, as long as it left the frame and the descriptors alone.
 */
module RoundTrip {
  import opened Words
  import opened EntryBits
  import opened SplitAccess
  import opened Segments
  import opened Returns
  import opened Interrupts

  /** A program that is interrupted outside virtual-8086 mode: its cached segments are those of its selectors. */
  ghost predicate Running(e: Env, c: Core)
    requires ValidEnv(e, |c.m|)
  {
    && !InVm(c) && c.cpl <= 3 && c.segs.cs.sel % 4 == c.cpl && Rounded(c.segs.cs.sel) != 0
    && Loaded(e, c.m, false, CS, c.segs.cs.sel) == Ok(c.segs.cs) && CodeFor(e, c.m, c.segs.cs.sel, c.cpl)
    && Loaded(e, c.m, false, SS, c.segs.ss.sel) == Ok(c.segs.ss) && Big(c.segs.ss)
    && FlagsKept(e, Effective(c.flags))
  }

  /** A code segment that may run at `cpl`. */
  predicate CodeFor(e: Env, m: seq<Byte>, sel: Selector, cpl: nat)
    requires ValidEnv(e, |m|)
  {
    match HighWord(e, m, sel)
    case Failed(_) => false
    case Ok(w2) =>
      IsSegment(w2) && IsCode(w2) && IsPresent(w2) && if IsConforming(w2) then Dpl(w2) <= cpl else Dpl(w2) == cpl
  }

  /** IRET masks EFLAGS; these have nothing that it would mask out. */
  predicate FlagsKept(e: Env, f: Eflags) {
    On(f & e.flagsMask, 2) == f
  }

  predicate InVmMode(e: Env, c: Core) {
    && InVm(c) && c.cpl == 3 && FlagsKept(e, Effective(c.flags))
    && VmLoaded(c.segs.es) && VmLoaded(c.segs.cs) && VmLoaded(c.segs.ss)
    && VmLoaded(c.segs.ds) && VmLoaded(c.segs.fs) && VmLoaded(c.segs.gs)
  }

  predicate VmLoaded(s: Seg) {
    s == Seg(s.sel, 16 * s.sel, 0xffff, 0)
  }

  /**
   From the handler's entry `c1` to its IRET `c2`, at which an error code has been popped: the
   `n` dwords of the frame are as pushed. Everything else may have changed.
   */
  ghost predicate Handled(c1: Core, c2: Core, top: Word, n: nat, pushErr: bool) {
    && |c2.m| == |c1.m| && c2.cpl == c1.cpl && c2.segs.ss == c1.segs.ss
    && c2.esp == Wrap(c1.esp + if pushErr then 4 else 0)
    && !Has(c2.flags.word, VM) && !Has(c2.flags.word, NT)
    && forall k :: 1 <= k <= n ==>
         var a := Slot(c1.segs.ss, top - 4 * k); a + 4 <= |c1.m| ==> Dword(c2.m, a) == Dword(c1.m, a)
  }

  /** The descriptors of the interrupted CS and SS read as they did. */
  ghost predicate TablesKept(e: Env, c0: Core, c2: Core)
    requires ValidEnv(e, |c0.m|) && |c2.m| == |c0.m|
  {
    && ReadDesc(e, c2.m, c0.segs.cs.sel) == ReadDesc(e, c0.m, c0.segs.cs.sel)
    && ReadDesc(e, c2.m, c0.segs.ss.sel) == ReadDesc(e, c0.m, c0.segs.ss.sel)
  }

  // ---------- popping a frame ----------

  /** The dwords of a frame come back in the opposite order. */
  lemma {:induction false} PopsFrame(e: Env, c: Core, top: Word, frame: seq<Word>, j: nat)
    requires ValidEnv(e, |c.m|) && Big(c.segs.ss) && j <= |frame| <= 16 && RoomBelow(e, c.segs.ss, top, |frame|)
    requires Holds(c.m, c.segs.ss, top, frame) && c.esp == Wrap(top - 4 * |frame|)
    ensures var ws := StackDwords(e, c, c.esp, j);
            ws.Ok? && forall i :: 0 <= i < j ==> ws.value[i] == frame[|frame| - 1 - i]
    decreases j
  {
    hide StackDword, RoomBelow, Holds;
    if j > 0 {
      PopsFrame(e, c, top, frame, j - 1);
      PopsOne(e, c, top, frame, j - 1);
    }
  }

  lemma PopsOne(e: Env, c: Core, top: Word, frame: seq<Word>, i: nat)
    requires ValidEnv(e, |c.m|) && Big(c.segs.ss) && i < |frame| <= 16 && RoomBelow(e, c.segs.ss, top, |frame|)
    requires Holds(c.m, c.segs.ss, top, frame) && c.esp == Wrap(top - 4 * |frame|)
    ensures StackDword(e, c, c.esp + 4 * i) == Ok(frame[|frame| - 1 - i])
  {
    hide Slot, Dword, StackOk;
    var n := |frame|;
    SlotOfEsp(c.segs.ss, top, n, i);
    SlotInRam(e, |c.m|, c.segs.ss, top, n - i);
    SameSlot(e, c.segs.ss, c.esp + 4 * i, top - 4 * (n - i));
  }

  lemma SameSlot(e: Env, ss: Seg, x: int, y: int)
    requires Slot(ss, x) == Slot(ss, y)
    ensures StackOk(e, ss, x, false) == StackOk(e, ss, y, false)
  {
  }

  /** What the handler leaves is still the frame. */
  lemma FrameKept(e: Env, c0: Core, c1: Core, c2: Core, pushErr: bool, code: Word, top: Word, frame: seq<Word>)
    requires ValidEnv(e, |c0.m|) && Big(c1.segs.ss) && |frame| <= 9
    requires RoomBelow(e, c1.segs.ss, top, |WithError(frame, pushErr, code)|)
    requires c1.m == Pushed(e, c0.m, c1.segs.ss, top, WithError(frame, pushErr, code))
    requires c1.esp == Wrap(top - 4 * |WithError(frame, pushErr, code)|) && Handled(c1, c2, top, |frame|, pushErr)
    ensures Holds(c2.m, c2.segs.ss, top, frame) && c2.esp == Wrap(top - 4 * |frame|) && |c2.m| == |c0.m|
    ensures RoomBelow(e, c2.segs.ss, top, |frame|)
  {
    hide Slot, Dword, Pushed, StackOk;
    var all := WithError(frame, pushErr, code);
    PushedHolds(e, c0.m, c1.segs.ss, top, all);
    assert all[..|frame|] == frame;
    WrapTwice(4, top - 4 * |all|);
    forall k | 1 <= k <= |frame|
      ensures Slot(c1.segs.ss, top - 4 * k) + 4 <= |c2.m| && Dword(c2.m, Slot(c1.segs.ss, top - 4 * k)) == frame[k - 1]
    {
      assert all[k - 1] == frame[k - 1];
    }
  }

  // ---------- flags ----------

  /** At privilege 0, IRET takes all of EFLAGS from the stack. */
  lemma FlagsReturn(e: Env, was: Eflags, f: Eflags)
    requires FlagsKept(e, f)
    ensures ReturnFlags(e, was, WordFlags(FlagsWord(f)), 0) == f
  {
    hide WordFlags, FlagsWord;
    FlagsRoundTrip(f);
    assert On(0, 0) == 0;
    MergeNothing(f, was);
  }

  lemma MergeNothing(w: Eflags, a: Eflags)
    ensures Merge(w, a, 0) == w
  {
  }

  // ---------- the three origins ----------

  /** What IRET does with a frame. */
  lemma IretOfFrame(e: Env, c: Core, top: Word, frame: seq<Word>)
    requires ValidEnv(e, |c.m|) && Big(c.segs.ss) && 3 <= |frame| <= 16 && RoomBelow(e, c.segs.ss, top, |frame|)
    requires Holds(c.m, c.segs.ss, top, frame) && c.esp == Wrap(top - 4 * |frame|) && !Has(c.flags.word, VM) && !Has(c.flags.word, NT)
    ensures var n := |frame|;
            Iret(e, c) == ReturnTo(e, c, frame[n - 1], frame[n - 2], ReturnFlags(e, c.flags.word, WordFlags(frame[n - 3]), c.cpl))
  {
    hide StackDwords, ReturnTo, ReturnFlags, RoomBelow, Holds, Has, WordFlags;
    PopsFrame(e, c, top, frame, 3);
  }

  /** While the descriptors read as before, the interrupted segments load as before. */
  lemma SegmentsReturn(e: Env, c0: Core, c2: Core)
    requires ValidEnv(e, |c0.m|) && |c2.m| == |c0.m| && Running(e, c0) && TablesKept(e, c0, c2)
    ensures Loaded(e, c2.m, false, CS, c0.segs.cs.sel) == Ok(c0.segs.cs) && CodeFor(e, c2.m, c0.segs.cs.sel, c0.cpl)
    ensures Loaded(e, c2.m, false, SS, c0.segs.ss.sel) == Ok(c0.segs.ss)
  {
    hide FlagsKept, Has, SegOf, Dword, Reach, RefusesOuter;
  }

  lemma CodeReturns(e: Env, m: seq<Byte>, sel: Selector)
    requires ValidEnv(e, |m|) && CodeFor(e, m, sel, 0) && Rounded(sel) != 0 && sel % 4 == 0
    ensures CheckReturn(e, m, 0, sel).Ok?
  {
    hide HighWord;
  }

  /** From privilege 0 to a handler at privilege 0, on one stack. */
  lemma SamePrivilege(e: Env, c0: Core, c1: Core, c2: Core, pushErr: bool, code: Word, gate: Gate, top: Word)
    requires ValidEnv(e, |c0.m|) && Running(e, c0) && c0.cpl == 0
    requires Entered(e, c0, c1, pushErr, code, gate, top) && Handled(c1, c2, top, 3, pushErr) && TablesKept(e, c0, c2)
    ensures var (r, c3) := Iret(e, c2);
            && r.Ok? && c3.segs.cs == c0.segs.cs && c3.nextIp == c0.ip && c3.cpl == 0
            && c3.segs.ss == c0.segs.ss && c3.esp == c0.esp
            && Effective(c3.flags) == Effective(c0.flags)
  {
    hide Pushed, ReturnFlags, FlagsKept, FlagsWord, WordFlags, RoomBelow, Has, Loaded, Iret, CheckReturn, Holds, TablesKept, CodeFor;
    hide StackDwords, HighWord, ReturnOuter, ReturnToVm, Slot, Dword, HandlerFlags, WithError, Merge, Off, On, ReadDesc, SegOf;
    var frame := SameFrame(c0);
    FrameKept(e, c0, c1, c2, pushErr, code, top, frame);
    IretOfFrame(e, c2, top, frame);
    FlagsReturn(e, c2.flags.word, Effective(c0.flags));
    SegmentsReturn(e, c0, c2);
    CodeReturns(e, c2.m, c0.segs.cs.sel);
    RefreshKeepsVm(c0.flags);
    WrapTwice(12, top - 12);
  }

  lemma OuterCheck(e: Env, m: seq<Byte>, sel: Selector, cpl: nat)
    requires ValidEnv(e, |m|) && CodeFor(e, m, sel, cpl) && Rounded(sel) != 0 && sel % 4 == cpl > 0
    ensures CheckReturn(e, m, 0, sel).Ok? <==> OuterReturnable(HighWord(e, m, sel).value)
    ensures CheckReturn(e, m, 0, sel).Failed? ==> CheckReturn(e, m, 0, sel) == Failed(Raise(GP, Rounded(sel)))
  {
    hide HighWord;
  }

  /** The code leaves out conforming segments of privilege 0, which may run at any privilege. */
  predicate OuterReturnable(w2: Word) {
    !IsConforming(w2) || Dpl(w2) > 0
  }

  /** SS and ESP lie above the frame proper. */
  lemma OuterStack(e: Env, c: Core, top: Word, frame: seq<Word>)
    requires ValidEnv(e, |c.m|) && Big(c.segs.ss) && |frame| == 5 && RoomBelow(e, c.segs.ss, top, 5)
    requires Holds(c.m, c.segs.ss, top, frame) && c.esp == Wrap(top - 20)
    ensures var ws := StackDwords(e, c, c.esp, 5); ws.Ok? && ws.value[3] == frame[1] && ws.value[4] == frame[0]
  {
    hide StackDwords, RoomBelow, Holds;
    PopsFrame(e, c, top, frame, 5);
  }

  /**
   From an outer privilege to a handler at privilege 0. The program gets its state back exactly when its
   code segment is not a conforming one of privilege 0; for such a segment IRET raises #GP.
   */
  lemma OuterPrivilege(e: Env, c0: Core, c1: Core, c2: Core, pushErr: bool, code: Word, gate: Gate, top: Word)
    requires ValidEnv(e, |c0.m|) && Running(e, c0) && c0.cpl > 0 && c1.cpl == 0 && Big(c1.segs.ss)
    requires Entered(e, c0, c1, pushErr, code, gate, top) && Handled(c1, c2, top, 5, pushErr) && TablesKept(e, c0, c2)
    ensures var (r, c3) := Iret(e, c2);
            && (r.Ok? <==> OuterReturnable(HighWord(e, c0.m, c0.segs.cs.sel).value))
            && (r.Failed? ==> r == Failed(Raise(GP, Rounded(c0.segs.cs.sel))) && c3 == c2)
            && (r.Ok? ==> && c3.segs.cs == c0.segs.cs && c3.nextIp == c0.ip && c3.cpl == c0.cpl
                          && c3.segs.ss == c0.segs.ss && c3.esp == c0.esp
                          && Effective(c3.flags) == Effective(c0.flags))
  {
    hide Pushed, ReturnFlags, FlagsKept, FlagsWord, WordFlags, RoomBelow, Has, Loaded, Iret, CheckReturn, Holds, TablesKept, CodeFor;
    hide StackDwords, HighWord, OuterReturnable, ClearSegs, Slot, Dword, HandlerFlags, WithError, ReturnToVm;
    var frame := OuterFrame(c0);
    FrameKept(e, c0, c1, c2, pushErr, code, top, frame);
    IretOfFrame(e, c2, top, frame);
    OuterStack(e, c2, top, frame);
    FlagsReturn(e, c2.flags.word, Effective(c0.flags));
    SegmentsReturn(e, c0, c2);
    SameHigh(e, c0, c2);
    OuterCheck(e, c2.m, c0.segs.cs.sel, c0.cpl);
    RefreshKeepsVm(c0.flags);
    ClearKeepsCode(c2.segs.(cs := c0.segs.cs, ss := c0.segs.ss), c0.cpl);
  }

  lemma ClearKeepsCode(s: Segs, cpl: nat)
    ensures ClearSegs(s, cpl).cs == s.cs && ClearSegs(s, cpl).ss == s.ss
  {
  }

  lemma SameHigh(e: Env, c0: Core, c2: Core)
    requires ValidEnv(e, |c0.m|) && |c2.m| == |c0.m| && Running(e, c0) && TablesKept(e, c0, c2)
    ensures HighWord(e, c0.m, c0.segs.cs.sel).Ok? && HighWord(e, c2.m, c0.segs.cs.sel) == HighWord(e, c0.m, c0.segs.cs.sel)
  {
    hide FlagsKept, Has, SegOf, Dword, Reach;
  }

  /** All nine dwords of a frame from virtual-8086 mode. */
  lemma VmStack(e: Env, c: Core, top: Word, frame: seq<Word>)
    requires ValidEnv(e, |c.m|) && Big(c.segs.ss) && |frame| == 9 && RoomBelow(e, c.segs.ss, top, 9)
    requires Holds(c.m, c.segs.ss, top, frame) && c.esp == Wrap(top - 36)
    ensures var ws := StackDwords(e, c, c.esp, 9);
            && ws.Ok? && ws.value[0] == frame[8] && ws.value[1] == frame[7] && ws.value[3] == frame[5] && ws.value[4] == frame[4]
            && ws.value[5] == frame[3] && ws.value[6] == frame[2] && ws.value[7] == frame[1] && ws.value[8] == frame[0]
  {
    hide StackDwords, RoomBelow, Holds;
    PopsFrame(e, c, top, frame, 9);
  }

  /** What the nine dwords bring back. */
  lemma VmReturn(e: Env, c0: Core, c: Core, top: Word, f: Eflags)
    requires ValidEnv(e, |c.m|) && InVmMode(e, c0) && Big(c.segs.ss) && c.cpl == 0 && RoomBelow(e, c.segs.ss, top, 9)
    requires Holds(c.m, c.segs.ss, top, VmFrame(c0)) && c.esp == Wrap(top - 36)
    ensures var (r, c3) := ReturnToVm(e, c, f);
            && r.Ok? && c3.segs == c0.segs && c3.cpl == 3 && c3.esp == c0.esp && c3.flags == Flags(f, false, c.flags.arith)
            && c3.nextIp == c0.ip % 0x1_0000
  {
    hide RoomBelow, Has, Holds, StackDwords, FlagsWord, FlagsKept, Effective;
    VmStack(e, c, top, VmFrame(c0));
  }

  /**
   From virtual-8086 mode: all six segments come back too. EIP comes back cut to 16 bits,
   so the program goes on where it was exactly when EIP had no more.
   */
  lemma FromVirtual8086(e: Env, c0: Core, c1: Core, c2: Core, pushErr: bool, code: Word, gate: Gate, top: Word)
    requires ValidEnv(e, |c0.m|) && InVmMode(e, c0) && Big(c1.segs.ss)
    requires Entered(e, c0, c1, pushErr, code, gate, top) && Handled(c1, c2, top, 9, pushErr)
    ensures var (r, c3) := Iret(e, c2);
            && r.Ok? && c3.segs == c0.segs && c3.cpl == 3 && c3.esp == c0.esp && InVm(c3)
            && Effective(c3.flags) == Effective(c0.flags)
            && (c3.nextIp == c0.ip <==> c0.ip < 0x1_0000)
  {
    hide Pushed, ReturnFlags, FlagsKept, FlagsWord, WordFlags, RoomBelow, Has, Iret, Holds, StackDwords;
    hide Slot, Dword, HandlerFlags, WithError, ReturnToCode, ReturnToVm, Merge, Off, On, Loaded, SegOf, VmLoaded;
    var frame := VmFrame(c0);
    FrameKept(e, c0, c1, c2, pushErr, code, top, frame);
    IretOfFrame(e, c2, top, frame);
    FlagsReturn(e, c2.flags.word, Effective(c0.flags));
    VmReturn(e, c0, c2, top, Effective(c0.flags));
    RefreshKeepsVm(c0.flags);
  }
}
