/**
 Interrupt delivery through a 32-bit gate in protected mode, and the return by IRET.
 */
module Interrupts {
  import opened Words
  import opened EntryBits
  import opened SplitAccess
  import opened Segments
  import opened Handlers
  import R = Returns

  // ---------- gates and code segments ----------

  /** `disables` tells an interrupt gate from a trap gate. */
  datatype Gate = Gate(sel: Selector, offset: Word, disables: bool)

  function GateOf(e: Env, m: seq<Byte>, cpl: nat, no: nat, ext: nat): Result<Gate>
    requires ValidEnv(e, |m|)
  {
    var off := 8 * no;
    if off + 7 > e.idtLimit then Failed(Raise(GP, off + 2 + ext)) else
    var a1, a2 := Wrap(e.idtBase + off), Wrap(e.idtBase + off + 4);
    if !Reach(e, a1, false) || !Reach(e, a2, false) then Failed(Abort) else
    ReachIsRam(e, |m|, a1, false);
    ReachIsRam(e, |m|, a2, false);
    DecodeGate(cpl, off, ext, Dword(m, a1), Dword(m, a2))
  }

  function DecodeGate(cpl: nat, off: nat, ext: nat, w1: Word, w2: Word): Result<Gate> {
    var gt := w2 / 0x100 % 16;
    if gt != 6 && gt != 7 && gt != 14 && gt != 15 && gt != 5 then Failed(Raise(GP, off + 2 + ext))
    else if ext == 0 && Dpl(w2) < cpl then Failed(Raise(GP, off + 2))
    else if !IsPresent(w2) then Failed(Raise(NP, off + 2 + ext))
    else if gt != 14 && gt != 15 then Failed(Unmodelled)
    else Ok(Gate(w1 / 0x1_0000, w1 % 0x1_0000 + (w2 - w2 % 0x1_0000), gt == 14))
  }

  /**
   A gate opens exactly if it lies in the table and can be read, is a present 32-bit interrupt or trap gate, and, for
   INT n, is of the caller's privilege or a more outer one. A fault names the vector and the table in its error code.
   */
  lemma GateOpens(e: Env, m: seq<Byte>, cpl: nat, no: nat, ext: nat)
    requires ValidEnv(e, |m|) && ext <= 1
    ensures var g, a, b := GateOf(e, m, cpl, no, ext), (e.idtBase + 8 * no) % 0x1_0000_0000, (e.idtBase + 8 * no + 4) % 0x1_0000_0000;
            && (g.Ok? <==> 8 * no + 7 <= e.idtLimit && Reach(e, a, false) && Reach(e, b, false)
                           && GateIs(e, m, no, DwordOr(m, a), DwordOr(m, b)) && (ext == 0 ==> DwordOr(m, b) / 0x2000 % 4 >= cpl))
            && (g.Failed? && g.why.Raise? ==> (g.why.vector == 13 || g.why.vector == 11) && g.why.code / 8 == no && g.why.code / 2 % 2 == 1)
            && (g.Failed? && g.why.Raise? && g.why.vector == 11 ==> a + 4 <= |m| && b + 4 <= |m| && DwordOr(m, b) / 0x8000 % 2 == 0)
  {
    hide Dword;
    var a, b := Wrap(e.idtBase + 8 * no), Wrap(e.idtBase + 8 * no + 4);
    if Reach(e, a, false) { ReachIsRam(e, |m|, a, false); }
    if Reach(e, b, false) { ReachIsRam(e, |m|, b, false); }
    hide Reach;
    CodeOfVector(no, 0);
    CodeOfVector(no, ext);
  }

  lemma CodeOfVector(no: nat, ext: nat)
    requires ext <= 1
    ensures (8 * no + 2 + ext) / 8 == no && (8 * no + 2 + ext) / 2 % 2 == 1
  {
    assert (8 * no + 2 + ext) / 2 == 2 * (2 * no) + 1 by { assert 8 * no + 2 + ext == 2 * (4 * no + 1) + ext; }
    Odd(2 * no);
  }

  lemma Odd(k: nat)
    ensures (2 * k + 1) % 2 == 1
  {
  }

  datatype Verdict = Refused(why: Failure) | Intra | Inter(dpl: nat) | FromVm

  /** `__call_isr_check_cs`. */
  function CheckCs(e: Env, m: seq<Byte>, cpl: nat, vm: bool, sel: Selector, ext: nat): (v: Verdict)
    requires ValidEnv(e, |m|)
    ensures v.Inter? ==> v.dpl < cpl && !vm
    ensures (v.FromVm? ==> vm) && (v.Intra? ==> !vm)
  {
    var (base, limit) := TableOf(e, sel);
    if Rounded(sel) == 0 || DescOffset(sel) + 7 > limit then Refused(Raise(GP, ext)) else
    var a := Wrap(base + DescOffset(sel) + 4);
    if !Reach(e, a, false) then Refused(Abort) else
    ReachIsRam(e, |m|, a, false);
    var w2 := Dword(m, a);
    if !IsSegment(w2) || !IsCode(w2) || Dpl(w2) > cpl then Refused(Raise(GP, Rounded(sel) + ext))
    else if !IsPresent(w2) then Refused(Raise(NP, Rounded(sel)))
    else if !IsConforming(w2) && Dpl(w2) < cpl then
      (if !vm then Inter(Dpl(w2)) else if Dpl(w2) != 0 then Refused(Raise(GP, Rounded(sel) + ext)) else FromVm)
    else if vm then Refused(Raise(GP, Rounded(sel) + ext))
    else Intra
  }

  /**
   A code segment takes a handler exactly if its selector is not null and lies in its table, and its descriptor can be read
   and is present code of the current privilege or a more inner one; from virtual-8086 mode, not conforming and of privilege 0.
   */
  lemma CodeTakes(e: Env, m: seq<Byte>, cpl: nat, vm: bool, sel: Selector, ext: nat)
    requires ValidEnv(e, |m|) && (vm ==> cpl > 0)
    ensures var ldt := sel / 4 % 2 == 1;
            var a := ((if ldt then e.ldt.base else e.gdtBase) + 8 * (sel / 8) + 4) % 0x1_0000_0000;
            var w := DwordOr(m, a);
            !CheckCs(e, m, cpl, vm, sel, ext).Refused? <==>
              && sel >= 4 && 8 * (sel / 8) + 7 <= (if ldt then e.ldt.limit else e.gdtLimit) && Reach(e, a, false)
              && CodeIs(e, m, sel, cpl, w) && (vm ==> w / 0x400 % 2 == 0 && w / 0x2000 % 4 == 0)
  {
    hide Dword;
    var a := Wrap(TableOf(e, sel).0 + DescOffset(sel) + 4);
    if Reach(e, a, false) { ReachIsRam(e, |m|, a, false); }
    hide Reach;
  }

  // ---------- the frame on the stack ----------

  /** Below `top` the stack holds `vals`, the first one highest. */
  ghost predicate Holds(m: seq<Byte>, ss: Seg, top: Word, vals: seq<Word>) {
    forall k :: 1 <= k <= |vals| ==> Slot(ss, top - 4 * k) + 4 <= |m| && Dword(m, Slot(ss, top - 4 * k)) == vals[k - 1]
  }

  lemma SlotsApart(ss: Seg, top: Word, i: nat, k: nat)
    requires Big(ss) && i < k <= 16
    ensures var a, b := Slot(ss, top - 4 * i), Slot(ss, top - 4 * k);
            a + 4 <= 0x1_0000_0000 && b + 4 <= 0x1_0000_0000 ==> a + 4 <= b || b + 4 <= a
  {
    WrapTwice(ss.base, top - 4 * i);
    WrapTwice(ss.base, top - 4 * k);
    WrapNear(ss.base + top - 4 * k, 4 * (k - i));
  }

  lemma WrapTwice(base: Word, x: int)
    ensures Wrap(base + Wrap(x)) == Wrap(base + x)
  {
  }

  lemma WrapNear(x: int, d: nat)
    requires d <= 64
    ensures Wrap(x + d) == Wrap(x) + d || Wrap(x + d) == Wrap(x) + d - 0x1_0000_0000
  {
  }

  lemma PushHolds(m: seq<Byte>, ss: Seg, top: Word, vals: seq<Word>, v: Word)
    requires Big(ss) && |vals| < 16 && |m| <= 0x1_0000_0000 && Holds(m, ss, top, vals)
    requires Slot(ss, top - 4 * (|vals| + 1)) + 4 <= |m|
    ensures Holds(PutDword(m, Slot(ss, top - 4 * (|vals| + 1)), v), ss, top, vals + [v])
  {
    hide PutDword, Dword, Slot;
    var n := |vals| + 1;
    var b := Slot(ss, top - 4 * n);
    forall k | 1 <= k <= n
      ensures Slot(ss, top - 4 * k) + 4 <= |m| && Dword(PutDword(m, b, v), Slot(ss, top - 4 * k)) == (vals + [v])[k - 1]
    {
      DwordOfPut(m, b, v, Slot(ss, top - 4 * k));
      if k < n { SlotsApart(ss, top, k, n); }
    }
  }

  /** The first `n` dwords below `top` can be written: the translations in the order of the source. */
  predicate RoomBelow(e: Env, ss: Seg, top: Word, n: nat) {
    forall k :: 1 <= k <= n ==> StackOk(e, ss, top - 4 * k, true)
  }

  lemma LessRoom(e: Env, ss: Seg, top: Word)
    ensures RoomBelow(e, ss, top, 10) ==> RoomBelow(e, ss, top, 9)
  {
  }

  function Refreshed(f: Flags): Flags {
    Flags(Effective(f), false, f.arith)
  }

  function SameFrame(c: Core): seq<Word> {
    [FlagsWord(Effective(c.flags)), c.segs.cs.sel, c.ip]
  }

  function OuterFrame(c: Core): seq<Word> {
    [c.segs.ss.sel as Word, c.esp] + SameFrame(c)
  }

  function VmFrame(c: Core): seq<Word> {
    [c.segs.gs.sel as Word, c.segs.fs.sel, c.segs.ds.sel, c.segs.es.sel] + OuterFrame(c)
  }

  /** `flags &= ~VM`. */
  function VmOff(f: Flags): Flags {
    f.(word := Off(f.word, VM))
  }

  /** What is pushed once VM has been cleared. */
  function WithVm(f: Flags): Eflags {
    On(Effective(f), VM)
  }

  function VmNine(s: Segs, ss: Selector, esp: Word, f: Eflags, ip: Word): (r: seq<Word>)
    ensures |r| == 9
  {
    [s.gs.sel as Word, s.fs.sel, s.ds.sel, s.es.sel, ss, esp, FlagsWord(f), s.cs.sel, ip]
  }

  function WithError(f: seq<Word>, push: bool, code: Word): seq<Word> {
    if push then f + [code] else f
  }

  /** Memory after `vals` have been pushed below `top`, the first one highest. */
  function Pushed(e: Env, m: seq<Byte>, ss: Seg, top: Word, vals: seq<Word>): (r: seq<Byte>)
    requires ValidEnv(e, |m|) && RoomBelow(e, ss, top, |vals|)
    ensures |r| == |m|
    decreases |vals|
  {
    if vals == [] then m else
    var n := |vals|;
    SlotInRam(e, |m|, ss, top, n);
    PutDword(Pushed(e, m, ss, top, vals[..n - 1]), Slot(ss, top - 4 * n), vals[n - 1])
  }

  lemma PushedOne(e: Env, m: seq<Byte>, ss: Seg, top: Word, vals: seq<Word>, v: Word)
    requires ValidEnv(e, |m|) && RoomBelow(e, ss, top, |vals| + 1)
    ensures Slot(ss, top - 4 * (|vals| + 1)) + 4 <= |m|
    ensures Pushed(e, m, ss, top, vals + [v]) == PutDword(Pushed(e, m, ss, top, vals), Slot(ss, top - 4 * (|vals| + 1)), v)
  {
    hide StackOk, Slot, PutDword;
    assert (vals + [v])[..|vals|] == vals && (vals + [v])[|vals|] == v;
    SlotInRam(e, |m|, ss, top, |vals| + 1);
  }

  lemma SlotInRam(e: Env, ram: nat, ss: Seg, top: Word, k: nat)
    requires ValidEnv(e, ram) && StackOk(e, ss, top - 4 * k, true)
    ensures Slot(ss, top - 4 * k) + 4 <= ram && StackOk(e, ss, top - 4 * k, false)
  {
    ReachIsRam(e, ram, Slot(ss, top - 4 * k), true);
  }

  lemma {:induction false} PushedHolds(e: Env, m: seq<Byte>, ss: Seg, top: Word, vals: seq<Word>)
    requires ValidEnv(e, |m|) && RoomBelow(e, ss, top, |vals|) && Big(ss) && |vals| <= 16
    ensures Holds(Pushed(e, m, ss, top, vals), ss, top, vals)
    decreases |vals|
  {
    if vals != [] {
      hide PutDword, Dword, Slot, Pushed;
      var n := |vals|;
      var init := vals[..n - 1];
      assert vals == init + [vals[n - 1]];
      PushedHolds(e, m, ss, top, init);
      PushedOne(e, m, ss, top, init, vals[n - 1]);
      PushHolds(Pushed(e, m, ss, top, init), ss, top, init, vals[n - 1]);
    }
  }

  /** The stack for privilege level `pl`, from a 32-bit TSS. */
  function TssStack(e: Env, m: seq<Byte>, pl: nat): Result<(Selector, Word)>
    requires ValidEnv(e, |m|)
  {
    if e.tr.flags / 8 % 2 == 0 then Failed(Unmodelled) else
    var a, b := Wrap(e.tr.base + 4 + 8 * pl), Wrap(e.tr.base + 8 + 8 * pl);
    if !Usable(e.tr) then Failed(Raise(GP, 0))
    else if !Reach(e, a, false) || !Reach(e, b, false) then Failed(PageFault)
    else
      ReachIsRam(e, |m|, a, false);
      ReachIsRam(e, |m|, b, false);
      Ok((Dword(m, b) % 0x1_0000, Dword(m, a)))
  }

  /** `(sel & ~3) | cpl`. */
  function CodeSelector(sel: Selector, cpl: nat): (r: Selector)
    requires cpl <= 3
    ensures r % 4 == cpl && Rounded(r) == Rounded(sel)
  {
    Rounded(sel) + cpl
  }

  /** The flags that a handler starts with. */
  function HandlerFlags(f: Flags, disables: bool): Eflags {
    Cleared(Refreshed(if Has(f.word, VM) then VmOff(f) else f).word, disables)
  }

  function Cleared(w: Eflags, disables: bool): Eflags {
    var cleared := Off(w, TF | RF | NT);
    if disables then Off(cleared, IF) else cleared
  }

  /**
   `c1` is `c0` with a handler entered through `gate`: on the same stack, or from `top` on the
   stack of the inner privilege, lies the frame that belongs to the origin.
   */
  ghost predicate Entered(e: Env, c0: Core, c1: Core, pushErr: bool, code: Word, gate: Gate, top: Word)
    requires ValidEnv(e, |c0.m|)
  {
    var ss := c1.segs.ss;
    var frame := WithError(if InVm(c0) then VmFrame(c0) else if c1.cpl < c0.cpl then OuterFrame(c0) else SameFrame(c0), pushErr, code);
    && RoomBelow(e, ss, top, |frame|) && c1.m == Pushed(e, c0.m, ss, top, frame)
    && (Big(ss) ==> c1.esp == Wrap(top - 4 * |frame|))
    && c1.cpl <= c0.cpl && c1.cpl <= 3
    && c1.ip == gate.offset && c1.nextIp == gate.offset && c1.segs.cs.sel == CodeSelector(gate.sel, c1.cpl)
    && c1.flags == Flags(HandlerFlags(c0.flags, gate.disables), false, c0.flags.arith)
    && (InVm(c0) ==> c1.cpl == 0)
    && (!InVm(c0) && c1.cpl == c0.cpl ==> ss == c0.segs.ss && top == c0.esp)
    && (!InVm(c0) ==> c1.segs == c0.segs.(ss := ss, cs := c1.segs.cs))
  }

  lemma LoadedIsModelled(e: Env, m: seq<Byte>, sel: Selector)
    requires ValidEnv(e, |m|)
    ensures var g := Loaded(e, m, false, SS, sel); g.Failed? ==> !g.why.Unmodelled?
  {
  }

  /** A null selector loads alike into every data segment. */
  lemma NullLoadsAlike(e: Env, m: seq<Byte>, vm: bool)
    requires ValidEnv(e, |m|)
    ensures forall which :: which in {ES, DS, FS, GS} ==> Loaded(e, m, vm, which, 0) == Loaded(e, m, vm, DS, 0)
  {
    hide ReadDesc;
  }

  function NewCpl(c: Core, v: Verdict): nat {
    match v
    case Inter(dpl) => dpl
    case FromVm => 0
    case _ => c.cpl
  }

  function FrameFor(c: Core, v: Verdict): seq<Word> {
    match v
    case Inter(_) => OuterFrame(c)
    case FromVm => VmFrame(c)
    case _ => SameFrame(c)
  }

  /** The stack that the frame goes to: the current one, or the one that the TSS names for the new privilege. */
  function StackFor(e: Env, c: Core, v: Verdict): Result<(Seg, Word)>
    requires ValidEnv(e, |c.m|)
  {
    if v.Inter? || v.FromVm? then TssSegment(e, c.m, NewCpl(c, v)) else Ok((c.segs.ss, c.esp))
  }

  function TssSegment(e: Env, m: seq<Byte>, pl: nat): Result<(Seg, Word)>
    requires ValidEnv(e, |m|)
  {
    var t := TssStack(e, m, pl);
    if t.Failed? then Failed(t.why)
    else
      var g := Loaded(e, m, false, SS, t.value.0);
      if g.Failed? then Failed(g.why) else Ok((g.value, t.value.1))
  }

  /** The frame fits on the stack that it goes to. */
  ghost predicate Fits(e: Env, c: Core, v: Verdict, pushErr: bool, code: Word)
    requires ValidEnv(e, |c.m|)
  {
    var st := StackFor(e, c, v);
    st.Ok? && RoomBelow(e, st.value.0, st.value.1, |WithError(FrameFor(c, v), pushErr, code)|)
  }

  /** The state with the frame pushed. */
  ghost function Framed(e: Env, c: Core, v: Verdict, pushErr: bool, code: Word): Core
    requires ValidEnv(e, |c.m|) && Fits(e, c, v, pushErr, code)
  {
    var (ss, top) := StackFor(e, c, v).value;
    var frame := WithError(FrameFor(c, v), pushErr, code);
    c.(m := Pushed(e, c.m, ss, top, frame), flags := Refreshed(if v.FromVm? then VmOff(c.flags) else c.flags),
       segs := c.segs.(ss := ss), esp := if v.Inter? then Wrap(top - 4 * |frame|) else NewSp(ss, top, top - 4 * |frame|))
  }

  /** What a delivery leaves that fails before the frame is pushed: by then it may have moved SS and ESP, and cleared VM. */
  function AfterFailure(e: Env, c: Core, v: Verdict): Core
    requires ValidEnv(e, |c.m|)
  {
    match v
    case Inter(dpl) =>
      var t := TssStack(e, c.m, dpl);
      if t.Failed? then c else
      var g := Loaded(e, c.m, false, SS, t.value.0);
      c.(esp := t.value.1, segs := if g.Ok? then c.segs.(ss := g.value) else c.segs)
    case FromVm =>
      var st := TssSegment(e, c.m, 0);
      if st.Failed? then c else c.(flags := VmOff(c.flags), esp := st.value.1, segs := c.segs.(ss := st.value.0))
    case _ => c
  }

  /** Why it fails; from virtual-8086 mode the core aborts on a 16-bit TSS and where the nine dwords proper do not fit. */
  function WhyNot(e: Env, c: Core, v: Verdict): Failure
    requires ValidEnv(e, |c.m|)
  {
    var st := StackFor(e, c, v);
    if st.Failed? then (if v.FromVm? && st.why.Unmodelled? then Abort else st.why)
    else if v.FromVm? && !RoomBelow(e, st.value.0, st.value.1, 9) then Abort
    else StackFailure(st.value.0)
  }

  /** The descriptors that the handler starts with load from memory `m`. */
  predicate HandlerLoads(e: Env, m: seq<Byte>, v: Verdict, gate: Gate, newpl: nat)
    requires ValidEnv(e, |m|)
  {
    newpl <= 3 && (v.FromVm? ==> Loaded(e, m, false, DS, 0).Ok?) && Loaded(e, m, false, CS, CodeSelector(gate.sel, newpl)).Ok?
  }

  /** The state in which the handler starts; from virtual-8086 mode its data segments are null. */
  function Started(e: Env, c: Core, v: Verdict, gate: Gate, newpl: nat): Core
    requires ValidEnv(e, |c.m|) && HandlerLoads(e, c.m, v, gate, newpl)
  {
    var n := Loaded(e, c.m, false, DS, 0);
    var segs := if v.FromVm? then c.segs.(es := n.value, ds := n.value, fs := n.value, gs := n.value) else c.segs;
    c.(segs := segs.(cs := Loaded(e, c.m, false, CS, CodeSelector(gate.sel, newpl)).value), cpl := newpl,
       ip := gate.offset, nextIp := gate.offset, flags := c.flags.(word := Cleared(c.flags.word, gate.disables)))
  }

  /** The frame fits, and the handler's descriptors load once it has been pushed. */
  ghost predicate Enterable(e: Env, c: Core, v: Verdict, gate: Gate, pushErr: bool, code: Word)
    requires ValidEnv(e, |c.m|)
  {
    Fits(e, c, v, pushErr, code) && HandlerLoads(e, Framed(e, c, v, pushErr, code).m, v, gate, NewCpl(c, v))
  }

  ghost function FrameTop(e: Env, c: Core, v: Verdict, pushErr: bool, code: Word): (top: Word)
    requires ValidEnv(e, |c.m|) && Fits(e, c, v, pushErr, code)
    ensures StackFor(e, c, v).Ok? && top == StackFor(e, c, v).value.1
  {
    StackFor(e, c, v).value.1
  }

  /** No handler starts in virtual-8086 mode. */
  lemma FramedLeavesVm(e: Env, c: Core, v: Verdict, pushErr: bool, code: Word)
    requires ValidEnv(e, |c.m|) && Fits(e, c, v, pushErr, code) && (v.FromVm? <==> InVm(c))
    ensures !InVm(Framed(e, c, v, pushErr, code)) && Framed(e, c, v, pushErr, code).cpl == c.cpl
  {
    hide Pushed, RoomBelow, StackFor, WithError, FrameFor;
    RefreshKeepsVm(c.flags);
    RefreshKeepsVm(VmOff(c.flags));
    if InVm(c) { VmCleared(c.flags); }
  }

  /** The handler has been entered with the frame of its origin. */
  lemma StartedIsEntered(e: Env, c: Core, v: Verdict, gate: Gate, pushErr: bool, code: Word)
    requires ValidEnv(e, |c.m|) && Enterable(e, c, v, gate, pushErr, code) && c.cpl <= 3
    requires !v.Refused? && (v.FromVm? <==> InVm(c)) && (v.Inter? ==> v.dpl < c.cpl)
    ensures Entered(e, c, Started(e, Framed(e, c, v, pushErr, code), v, gate, NewCpl(c, v)), pushErr, code, gate, StackFor(e, c, v).value.1)
    ensures Started(e, Framed(e, c, v, pushErr, code), v, gate, NewCpl(c, v)).cpl == NewCpl(c, v)
  {
    hide Pushed, Loaded, TssSegment, Effective, Has, Off, RoomBelow, SameFrame, OuterFrame, VmFrame, CodeSelector, Wrap;
    var st := StackFor(e, c, v).value;
    EspWraps(st.0, st.1, |WithError(FrameFor(c, v), pushErr, code)|);
  }

  // ---------- a whole delivery, and its callers ----------

  /** The handler starts, or the delivery fails and leaves a state, or the core aborts when the frame has been pushed. */
  datatype Delivery = Delivered(c: Core) | Lost(why: Failure, c: Core) | Aborted

  /** `call_isr`. */
  ghost function Isr(e: Env, c: Core, no: nat, pushErr: bool, code: Word, ext: nat): Delivery
    requires ValidEnv(e, |c.m|)
  {
    var g := GateOf(e, c.m, c.cpl, no, ext);
    if g.Failed? then Lost(g.why, c) else
    var v := CheckCs(e, c.m, c.cpl, InVm(c), g.value.sel, ext);
    if v.Refused? then Lost(v.why, c)
    else if !Fits(e, c, v, pushErr, code) then Lost(WhyNot(e, c, v), AfterFailure(e, c, v))
    else if !Enterable(e, c, v, g.value, pushErr, code) then Aborted
    else Delivered(Started(e, Framed(e, c, v, pushErr, code), v, g.value, NewCpl(c, v)))
  }

  lemma GateOfIs(e: Env, m: seq<Byte>, cpl: nat, no: nat, ext: nat) returns (w1: Word, w2: Word)
    requires ValidEnv(e, |m|) && GateOf(e, m, cpl, no, ext).Ok?
    ensures GateIs(e, m, no, w1, w2)
    ensures var g := GateOf(e, m, cpl, no, ext).value;
            && g.sel == w1 / 0x1_0000 && g.offset == w1 % 0x1_0000 + 0x1_0000 * (w2 / 0x1_0000)
            && g.disables == (w2 / 0x100 % 16 == 14)
  {
    hide Dword;
    var a, b := Wrap(e.idtBase + 8 * no), Wrap(e.idtBase + 8 * no + 4);
    ReachIsRam(e, |m|, a, false);
    ReachIsRam(e, |m|, b, false);
    w1, w2 := Dword(m, a), Dword(m, b);
    hide Reach;
  }

  lemma CheckCsIs(e: Env, m: seq<Byte>, cpl: nat, vm: bool, sel: Selector, ext: nat) returns (s: Word)
    requires ValidEnv(e, |m|) && !CheckCs(e, m, cpl, vm, sel, ext).Refused?
    ensures CodeIs(e, m, sel, cpl, s)
    ensures var v, dpl, conforming := CheckCs(e, m, cpl, vm, sel, ext), s / 0x2000 % 4, s / 0x400 % 2 == 1;
            && (v.Inter? ==> v.dpl == dpl && !conforming)
            && (v.FromVm? ==> dpl == 0 && !conforming)
            && (v.Intra? ==> conforming || dpl == cpl)
  {
    hide Dword;
    var a := Wrap(TableOf(e, sel).0 + DescOffset(sel) + 4);
    ReachIsRam(e, |m|, a, false);
    s := Dword(m, a);
    hide Reach;
  }

  /** A handler starts as the gate and the descriptor of its code segment say. */
  lemma IsrBegins(e: Env, c: Core, no: nat, pushErr: bool, code: Word, ext: nat)
    requires ValidEnv(e, |c.m|)
    ensures var d := Isr(e, c, no, pushErr, code, ext); d.Delivered? ==> Begins(e, c, no, d.c)
  {
    hide GateOf, CheckCs, Framed, Started, Fits, Enterable, WhyNot, AfterFailure, HandlerBits, InForce, GateIs, CodeIs, DataSegs;
    var g := GateOf(e, c.m, c.cpl, no, ext);
    if g.Ok? {
      var w1, w2 := GateOfIs(e, c.m, c.cpl, no, ext);
      var v := CheckCs(e, c.m, c.cpl, InVm(c), g.value.sel, ext);
      if !v.Refused? && Enterable(e, c, v, g.value, pushErr, code) {
        var s := CheckCsIs(e, c.m, c.cpl, InVm(c), g.value.sel, ext);
        StartOf(e, c, v, g.value, pushErr, code);
        StartsWithSegs(e, c, v, g.value, pushErr, code);
      }
    }
  }

  lemma StartOf(e: Env, c: Core, v: Verdict, gate: Gate, pushErr: bool, code: Word)
    requires ValidEnv(e, |c.m|) && Enterable(e, c, v, gate, pushErr, code) && (v.FromVm? <==> InVm(c))
    ensures var c' := Started(e, Framed(e, c, v, pushErr, code), v, gate, NewCpl(c, v));
            && c'.ip == c'.nextIp == gate.offset && c'.cpl == NewCpl(c, v) && c'.segs.cs.sel == CodeSelector(gate.sel, c'.cpl)
            && HandlerBits(Effective(c.flags), gate.disables, c'.flags.word) && InForce(c.flags, Effective(c.flags)) && !c'.flags.pending
  {
    hide Pushed, StackFor, Effective, HandlerBits, Has, Off;
    HandlerBitsOf(c.flags, gate.disables);
    EffectiveInForce(c.flags);
  }

  lemma StartsWithSegs(e: Env, c: Core, v: Verdict, gate: Gate, pushErr: bool, code: Word)
    requires ValidEnv(e, |c.m|) && Enterable(e, c, v, gate, pushErr, code) && (v.FromVm? <==> InVm(c))
    ensures DataSegs(c, Started(e, Framed(e, c, v, pushErr, code), v, gate, NewCpl(c, v)))
  {
    hide Pushed, StackFor, Refreshed, Cleared, Loaded, CodeSelector, NewSp;
  }

  lemma SlotOfEsp(ss: Seg, top: Word, n: nat, i: nat)
    requires Big(ss) && i <= n <= 16
    ensures Slot(ss, Wrap(top - 4 * n) + 4 * i) == Slot(ss, top - 4 * (n - i))
  {
    WrapTwice(0, top - 4 * n);
    assert Wrap(Wrap(top - 4 * n) + 4 * i) == Wrap(top - 4 * n + 4 * i) by { WrapTwice(4 * i, top - 4 * n); }
  }

  /** The frame from the top of the stack on, `w` being the flags in force and `eip` the address to come back to. */
  function FrameUp(c: Core, c': Core, pushErr: bool, code: Word, eip: Word, w: Eflags): seq<Word> {
    (if pushErr then [code] else []) + [eip, c.segs.cs.sel as Word, FlagsWord(w)]
    + (if c'.cpl < c.cpl then [c.esp, c.segs.ss.sel as Word] else [])
    + (if c.flags.word & 0x2_0000 != 0 then [c.segs.es.sel as Word, c.segs.ds.sel, c.segs.fs.sel, c.segs.gs.sel] else [])
  }

  /** On a 32-bit stack a handler finds the frame of its origin. */
  ghost predicate Finds(c: Core, c': Core, pushErr: bool, code: Word, eip: Word) {
    Big(c'.segs.ss) ==> exists w :: InForce(c.flags, w) && R.OnStack(c', FrameUp(c, c', pushErr, code, eip, w))
  }

  lemma EnteredFinds(e: Env, c0: Core, c1: Core, pushErr: bool, code: Word, gate: Gate, top: Word)
    requires ValidEnv(e, |c0.m|) && Entered(e, c0, c1, pushErr, code, gate, top) && c0.cpl <= 3 && (InVm(c0) ==> c0.cpl == 3)
    ensures Finds(c0, c1, pushErr, code, c0.ip)
  {
    hide Pushed, RoomBelow, Effective, HandlerFlags, InForce, CodeSelector, Holds, R.OnStack, FrameUp, VmFrame, OuterFrame, SameFrame;
    EffectiveInForce(c0.flags);
    if Big(c1.segs.ss) {
      var frame := WithError(if InVm(c0) then VmFrame(c0) else if c1.cpl < c0.cpl then OuterFrame(c0) else SameFrame(c0), pushErr, code);
      var up := FrameUp(c0, c1, pushErr, code, c0.ip, Effective(c0.flags));
      FrameTurns(c0, c1, pushErr, code, frame, up);
      PushedHolds(e, c0.m, c1.segs.ss, top, frame);
      HoldsTurned(c1, top, frame, up);
    }
  }

  /** A frame below `top`, from the new top of the stack on. */
  lemma HoldsTurned(c: Core, top: Word, frame: seq<Word>, up: seq<Word>)
    requires Big(c.segs.ss) && Holds(c.m, c.segs.ss, top, frame) && c.esp == Wrap(top - 4 * |frame|)
    requires |up| == |frame| <= 16 && forall k :: 0 <= k < |up| ==> up[k] == frame[|frame| - 1 - k]
    ensures R.OnStack(c, up)
  {
    hide Slot, Dword, Wrap;
    var n := |frame|;
    forall k | 0 <= k < n ensures R.OnStackAt(c, k, up[k]) {
      SlotOfEsp(c.segs.ss, top, n, k);
      var i := n - k;
      assert Slot(c.segs.ss, top - 4 * i) + 4 <= |c.m| && Dword(c.m, Slot(c.segs.ss, top - 4 * i)) == frame[i - 1];
    }
  }

  lemma FindsAnywhere(c: Core, c': Core, pushErr: bool, code: Word, eip: Word, ip: Word, nextIp: Word)
    requires Finds(c, c', pushErr, code, eip)
    ensures Finds(c.(ip := ip, nextIp := nextIp), c', pushErr, code, eip)
  {
    hide InForce, R.OnStack, FlagsWord;
  }

  lemma FrameTurns(c: Core, c': Core, pushErr: bool, code: Word, frame: seq<Word>, up: seq<Word>)
    requires InVm(c) ==> c'.cpl < c.cpl
    requires frame == WithError(if InVm(c) then VmFrame(c) else if c'.cpl < c.cpl then OuterFrame(c) else SameFrame(c), pushErr, code)
    requires up == FrameUp(c, c', pushErr, code, c.ip, Effective(c.flags))
    ensures |up| == |frame| <= 10 && forall k :: 0 <= k < |up| ==> up[k] == frame[|frame| - 1 - k]
  {
    hide Effective, FlagsWord;
  }

  /** On an inner privilege the handler runs on the stack that the TSS names for it. */
  lemma StackIsTss(e: Env, c: Core, v: Verdict, gate: Gate, pushErr: bool, code: Word)
    requires ValidEnv(e, |c.m|) && Enterable(e, c, v, gate, pushErr, code) && (v.Inter? || v.FromVm?)
    ensures var st, c' := StackFor(e, c, v).value, Started(e, Framed(e, c, v, pushErr, code), v, gate, NewCpl(c, v));
            c'.segs.ss == st.0 && TssHas(e, c.m, NewCpl(c, v), st.1, c'.segs.ss.sel)
  {
    hide Pushed, Loaded, Dword, RoomBelow, Refreshed, Usable;
    var pl := NewCpl(c, v);
    var a, b := Wrap(e.tr.base + 4 + 8 * pl), Wrap(e.tr.base + 8 + 8 * pl);
    if Reach(e, a, false) && Reach(e, b, false) {
      ReachIsRam(e, |c.m|, a, false);
      ReachIsRam(e, |c.m|, b, false);
      assert DwordAt(c.m, e.tr.base + 8 + 8 * pl, Dword(c.m, b));
    }
    hide Reach;
  }

  lemma HandlerBitsOf(f: Flags, disables: bool)
    ensures HandlerBits(Effective(f), disables, HandlerFlags(f, disables))
  {
    hide HandlerBits, Has, Off, Merge;
    var g := if Has(f.word, VM) then VmOff(f) else f;
    RefreshKeepsVm(g);
    if Has(f.word, VM) {
      VmCleared(f);
      OffOn(Effective(g));
    }
    TrapBits(Effective(g));
    InterruptBits(Effective(g));
    if Has(f.word, VM) { VmOffBits(Effective(f), disables, HandlerFlags(f, disables)); }
  }

  lemma OffOn(w: Eflags)
    requires !Has(w, VM)
    ensures Off(On(w, VM), VM) == w
  {
  }

  predicate Ends(d: Delivery, r: Result<()>, c: Core) {
    match d
    case Delivered(c') => r.Ok? && c == c'
    case Lost(why, c') => r == Failed(why) && c == c'
    case Aborted => r == Failed(Abort)
  }

  /** A caller that aborts on any failure. */
  function OrAbort(d: Delivery): Delivery {
    if d.Lost? && !d.why.Unmodelled? then Aborted else d
  }

  /** The exceptions that push an error code. */
  predicate HasCode(vector: nat) {
    vector == 8 || 10 <= vector <= 14
  }

  /** A hardware interrupt before an instruction. */
  ghost function Interrupted(e: Env, c: Core, no: nat): Delivery
    requires ValidEnv(e, |c.m|)
  {
    OrAbort(Isr(e, c.(ip := c.nextIp), no, false, 0, 1))
  }

  /** The exception of an instruction that has failed. */
  ghost function Excepted(e: Env, c: Core, vector: nat, code: Word): Delivery
    requires ValidEnv(e, |c.m|)
  {
    OrAbort(Isr(e, c.(nextIp := c.ip), vector, vector in {8, 10, 11, 12, 13, 14}, code, 1))
  }

  /** INT n: the one caller that goes on after a failure, which then is an exception of the instruction. */
  ghost function IntN(e: Env, c: Core, no: nat): Delivery
    requires ValidEnv(e, |c.m|)
  {
    if InVm(c) && R.Iopl(c.flags.word) < 3 then Lost(Raise(GP, 0), c) else
    match Isr(e, c.(ip := c.nextIp), no, false, 0, 0)
    case Lost(why, c') => Lost(why, c'.(ip := c.ip))
    case d => d
  }

  /** From virtual-8086 mode an INT n that fails changes nothing, unless the core aborts. */
  lemma IntFromVm(e: Env, c: Core, no: nat)
    requires ValidEnv(e, |c.m|) && InVm(c)
    ensures var d := IntN(e, c, no); d.Lost? && !d.why.Abort? ==> d.c == c
  {
    hide GateOf, CheckCs, RoomBelow, TssStack, Loaded, Enterable, Framed, Started;
    var c1 := c.(ip := c.nextIp);
    FrameSizes(c1);
  }

  /**
   From protected mode an INT n that fails leaves ESP moved exactly if the TSS has been read for an inner privilege, and
   SS too if its descriptor has loaded; nothing else changes.
   */
  lemma IntFromProtected(e: Env, c: Core, no: nat)
    requires ValidEnv(e, |c.m|) && !InVm(c)
    ensures var d := IntN(e, c, no); d.Lost? ==>
      && d.c == c.(esp := d.c.esp, segs := c.segs.(ss := d.c.segs.ss))
      && var g := GateOf(e, c.m, c.cpl, no, 0);
         if g.Failed? then d.c == c else
         var v := CheckCs(e, c.m, c.cpl, false, g.value.sel, 0);
         if !v.Inter? then d.c == c else
         var t := TssStack(e, c.m, v.dpl);
         if t.Failed? then d.c == c else
         var ss := Loaded(e, c.m, false, SS, t.value.0);
         d.c.esp == t.value.1 && d.c.segs.ss == if ss.Ok? then ss.value else c.segs.ss
  {
    hide GateOf, CheckCs, RoomBelow, TssStack, Loaded, Enterable, Framed, Started, Fits;
  }

  lemma FrameSizes(c: Core)
    ensures |SameFrame(c)| == 3 && |OuterFrame(c)| == 5 && |VmFrame(c)| == 9
  {
  }

  lemma EspWraps(ss: Seg, top: Word, n: nat)
    ensures Big(ss) ==> NewSp(ss, top, top - 4 * n) == Wrap(top - 4 * n)
  {
  }

  class Cpu {
    const ram: Ram
    const env: Env
    var flags: Flags
    var cpl: nat
    var ip: Word
    var nextIp: Word
    var esp: Word
    var segs: Segs

    constructor (ram: Ram, env: Env, c: Core)
      requires ValidEnv(env, ram.mem.Length) && c.m == ram.mem[..]
      ensures Valid() && Now() == c && this.ram == ram && this.env == env
    {
      this.ram, this.env := ram, env;
      flags, cpl, ip, nextIp, esp, segs := c.flags, c.cpl, c.ip, c.nextIp, c.esp, c.segs;
    }

    ghost predicate Valid() { ValidEnv(env, ram.mem.Length) }

    function Now(): Core
      reads this, ram.mem
    {
      Core(ram.mem[..], flags, cpl, ip, nextIp, esp, segs)
    }

    /** Dword `k` of a frame below `top`. */
    method Push(ghost m: seq<Byte>, ghost frame: seq<Word>, k: nat, top: Word, v: Word)
      requires Valid() && |m| == ram.mem.Length && 1 <= k <= |frame| && v == frame[k - 1]
      requires RoomBelow(env, segs.ss, top, |frame|) && ram.mem[..] == Pushed(env, m, segs.ss, top, frame[..k - 1])
      modifies ram.mem
      ensures ram.mem[..] == Pushed(env, m, segs.ss, top, frame[..k])
    {
      hide Pushed, Slot;
      assert frame[..k - 1] + [v] == frame[..k];
      PushedOne(env, m, segs.ss, top, frame[..k - 1], v);
      ram.PStore32(Slot(segs.ss, top - 4 * k), v);
    }

    method PushVm(ghost m: seq<Byte>, ghost frame: seq<Word>, sp: Word, oldss: Selector, oldsp: Word)
      requires Valid() && |m| == ram.mem.Length && 9 <= |frame| && RoomBelow(env, segs.ss, sp, |frame|) && ram.mem[..] == m
      requires frame[..9] == VmNine(segs, oldss, oldsp, WithVm(flags), ip)
      modifies ram.mem, this`flags
      ensures ram.mem[..] == Pushed(env, m, segs.ss, sp, frame[..9]) && flags == Refreshed(old(flags))
    {
      hide Pushed, RoomBelow, FlagsWord, Effective;
      PushedNothing(env, m, segs.ss, sp, frame);
      assert forall k :: 0 <= k < 9 ==> frame[k] == frame[..9][k];
      Push(m, frame, 1, sp, segs.gs.sel);
      Push(m, frame, 2, sp, segs.fs.sel);
      Push(m, frame, 3, sp, segs.ds.sel);
      Push(m, frame, 4, sp, segs.es.sel);
      Push(m, frame, 5, sp, oldss);
      Push(m, frame, 6, sp, oldsp);
      Refresh();
      Push(m, frame, 7, sp, FlagsWord(On(flags.word, VM)));
      Push(m, frame, 8, sp, segs.cs.sel);
      Push(m, frame, 9, sp, ip);
    }

    method PushOuter(ghost m: seq<Byte>, ghost frame: seq<Word>, sp: Word, oldss: Selector, oldsp: Word)
      requires Valid() && |m| == ram.mem.Length && 5 <= |frame| && RoomBelow(env, segs.ss, sp, |frame|) && ram.mem[..] == m
      requires frame[..5] == [oldss as Word, oldsp, FlagsWord(Effective(flags)), segs.cs.sel, ip]
      modifies ram.mem, this`flags
      ensures ram.mem[..] == Pushed(env, m, segs.ss, sp, frame[..5]) && flags == Refreshed(old(flags))
    {
      hide Pushed, RoomBelow, FlagsWord, Effective;
      PushedNothing(env, m, segs.ss, sp, frame);
      assert forall k :: 0 <= k < 5 ==> frame[k] == frame[..5][k];
      Push(m, frame, 1, sp, oldss);
      Push(m, frame, 2, sp, oldsp);
      Refresh();
      Push(m, frame, 3, sp, FlagsWord(flags.word));
      Push(m, frame, 4, sp, segs.cs.sel);
      Push(m, frame, 5, sp, ip);
    }

    method Refresh()
      modifies this`flags
      ensures flags == Refreshed(old(flags))
    {
      flags := Flags(Effective(flags), false, flags.arith);
    }

    /** Delivery at the same privilege. A failure leaves everything as it was. */
    method EnterSame(pushErr: bool, code: Word) returns (r: Result<()>)
      requires Valid()
      modifies this`flags, this`esp, ram.mem
      ensures r.Ok? <==> Fits(env, old(Now()), Intra, pushErr, code)
      ensures r.Failed? ==> r == Failed(WhyNot(env, old(Now()), Intra)) && Now() == old(Now())
      ensures r.Ok? ==> Now() == Framed(env, old(Now()), Intra, pushErr, code)
    {
      hide Pushed, RoomBelow, NewSp;
      ghost var m := ram.mem[..];
      ghost var frame := WithError(SameFrame(Now()), pushErr, code);
      var sp: int := esp;
      if !RoomBelow(env, segs.ss, sp, if pushErr then 4 else 3) {
        return Failed(StackFailure(segs.ss));
      }
      Refresh();
      PushedNothing(env, m, segs.ss, sp, frame);
      Push(m, frame, 1, sp, FlagsWord(flags.word));
      Push(m, frame, 2, sp, segs.cs.sel);
      Push(m, frame, 3, sp, ip);
      if pushErr {
        Push(m, frame, 4, sp, code);
        esp := NewSp(segs.ss, esp, sp - 16);
      } else {
        esp := NewSp(segs.ss, esp, sp - 12);
      }
      assert frame[..|frame|] == frame;
      r := Ok(());
    }

    method SetSeg(which: SegName, sel: Selector) returns (r: Result<()>)
      requires Valid()
      modifies this`segs, this`cpl
      ensures match WithSeg(env, old(Now()), which, sel)
              case Ok(c) => r.Ok? && Now() == c
              case Failed(why) => r == Failed(why) && Now() == old(Now())
    {
      hide Loaded;
      var vm := Has(flags.word, VM);
      match Loaded(env, ram.mem[..], vm, which, sel) {
        case Failed(why) => r := Failed(why);
        case Ok(g) =>
          segs := PutSeg(segs, which, g);
          if which.CS? { cpl := if vm then 3 else sel % 4; }
          r := Ok(());
      }
    }

    /** Delivery to an inner privilege: the stack comes from the TSS. A failure leaves SS and ESP as far as they have been moved. */
    method EnterOuter(newpl: nat, pushErr: bool, code: Word) returns (r: Result<()>)
      requires Valid() && !InVm(Now()) && newpl < 3
      modifies this`flags, this`esp, this`segs, this`cpl, ram.mem
      ensures r.Ok? <==> Fits(env, old(Now()), Inter(newpl), pushErr, code)
      ensures r.Failed? ==> r == Failed(WhyNot(env, old(Now()), Inter(newpl))) && Now() == AfterFailure(env, old(Now()), Inter(newpl))
      ensures r.Ok? ==> Now() == Framed(env, old(Now()), Inter(newpl), pushErr, code)
    {
      hide Pushed, RoomBelow, TssStack, Loaded, Effective, FlagsWord;
      ghost var c := Now();
      ghost var m := c.m;
      ghost var frame := WithError(OuterFrame(c), pushErr, code);
      var oldss, oldsp := segs.ss.sel, esp;
      var t := TssStack(env, ram.mem[..], newpl);
      if t.Failed? { return Failed(t.why); }
      esp := t.value.1;
      r := SetSeg(SS, t.value.0);
      if r.Failed? { return; }
      var sp: int := esp;
      if !RoomBelow(env, segs.ss, sp, if pushErr then 6 else 5) {
        return Failed(StackFailure(segs.ss));
      }
      PushOuter(m, frame, sp, oldss, oldsp);
      if pushErr {
        Push(m, frame, 6, sp, code);
        esp := Wrap(sp - 24);
      } else {
        esp := Wrap(sp - 20);
      }
      assert frame[..|frame|] == frame;
      r := Ok(());
    }

    /** Leaves virtual-8086 mode and takes the stack from the TSS; a failure leaves everything as it was. */
    method LeaveVm() returns (r: Result<()>)
      requires Valid() && InVm(Now())
      modifies this`flags, this`esp, this`segs, this`cpl
      ensures var t := TssSegment(env, old(ram.mem[..]), 0);
        r.Failed? ==> t.Failed? && r.why == (if t.why.Unmodelled? then Abort else t.why) && Now() == old(Now())
      ensures r.Ok? <==> TssSegment(env, old(ram.mem[..]), 0).Ok?
      ensures r.Ok? ==>
        var c := old(Now());
        var t := TssSegment(env, c.m, 0);
        && t.Ok? && segs.ss == t.value.0
        && Now() == c.(flags := VmOff(c.flags), segs := c.segs.(ss := segs.ss), esp := t.value.1)
    {
      hide TssStack, Loaded, Effective;
      var oldsp, oldflags := esp, flags;
      var t := TssStack(env, ram.mem[..], 0);
      if t.Failed? { return Failed(if t.why.Unmodelled? then Abort else t.why); }
      LoadedIsModelled(env, ram.mem[..], t.value.0);
      flags := VmOff(flags);
      VmCleared(oldflags);
      esp := t.value.1;
      r := SetSeg(SS, t.value.0);
      if r.Failed? { flags, esp := oldflags, oldsp; }
    }

    /**
     Delivery from virtual-8086 mode to privilege 0. A failure leaves everything as it was while the stack
     has not been loaded, and else VM cleared and SS and ESP moved; but then the core or its caller aborts, since
     `Int`, which alone goes on, pushes no error code.
     */
    method EnterFromVm(pushErr: bool, code: Word) returns (r: Result<()>)
      requires Valid() && InVm(Now())
      modifies this`flags, this`esp, this`segs, this`cpl, ram.mem
      ensures r.Ok? <==> Fits(env, old(Now()), FromVm, pushErr, code)
      ensures r.Failed? ==> r == Failed(WhyNot(env, old(Now()), FromVm)) && Now() == AfterFailure(env, old(Now()), FromVm)
      ensures r.Ok? ==> Now() == Framed(env, old(Now()), FromVm, pushErr, code)
    {
      hide Pushed, RoomBelow, TssStack, Loaded, Effective, NewSp, VmFrame, WithError, FlagsWord, VmNine, VmOff, WithVm, InVm, Refreshed;
      ghost var c := Now();
      ghost var frame := WithError(VmFrame(c), pushErr, code);
      var oldss, oldsp := segs.ss.sel, esp;
      r := LeaveVm();
      if r.Failed? { return; }
      var sp: int := esp;
      var ss := segs.ss;
      VmFrameShape(c, ss, pushErr, code);
      LessRoom(env, ss, sp);
      if !RoomBelow(env, ss, sp, 9) { return Failed(Abort); }
      if pushErr && !RoomBelow(env, ss, sp, 10) { return Failed(StackFailure(ss)); }
      PushVm(c.m, frame, sp, oldss, oldsp);
      if pushErr {
        Push(c.m, frame, 10, sp, code);
        esp := NewSp(ss, esp, sp - 40);
      } else {
        esp := NewSp(ss, esp, sp - 36);
      }
      assert frame[..|frame|] == frame;
      r := Ok(());
    }

    /** DS, ES, FS and GS get the null selector. */
    method ClearDataSegs() returns (r: Result<()>)
      requires Valid()
      modifies this`segs, this`cpl
      ensures cpl == old(cpl) && segs.cs == old(segs.cs) && segs.ss == old(segs.ss)
      ensures r.Ok? <==> Loaded(env, ram.mem[..], InVm(old(Now())), DS, 0).Ok?
      ensures r.Ok? ==> Loaded(env, ram.mem[..], InVm(old(Now())), DS, 0) == Ok(segs.ds) && segs.es == segs.fs == segs.gs == segs.ds
    {
      NullLoadsAlike(env, ram.mem[..], Has(flags.word, VM));
      hide Loaded;
      r := SetSeg(DS, 0);
      if r.Failed? { return; }
      r := SetSeg(ES, 0);
      if r.Failed? { return; }
      r := SetSeg(FS, 0);
      if r.Failed? { return; }
      r := SetSeg(GS, 0);
    }

    /** The end of `call_isr`: CS, EIP and the flags of the handler. */
    method StartHandler(gate: Gate, newpl: nat) returns (r: Result<()>)
      requires Valid() && !InVm(Now()) && newpl <= 3
      modifies this`segs, this`cpl, this`ip, this`nextIp, this`flags
      ensures r.Failed? ==> r.why == Abort
      ensures r.Ok? <==> Loaded(env, ram.mem[..], false, CS, CodeSelector(gate.sel, newpl)).Ok?
      ensures r.Ok? ==> Loaded(env, ram.mem[..], false, CS, CodeSelector(gate.sel, newpl)) == Ok(segs.cs)
                        && Now() == old(Now()).(segs := old(segs).(cs := segs.cs), cpl := newpl, ip := gate.offset, nextIp := gate.offset,
                                                flags := old(flags).(word := Cleared(old(flags).word, gate.disables)))
    {
      hide Loaded, Has, Off;
      r := SetSeg(CS, CodeSelector(gate.sel, newpl));
      if r.Failed? { return Failed(Abort); }
      nextIp, ip := gate.offset, gate.offset;
      flags := flags.(word := Off(flags.word, TF | RF | NT));
      if gate.disables { flags := flags.(word := Off(flags.word, IF)); }
    }

    /** After the frame has been pushed. */
    method Start(v: Verdict, gate: Gate, newpl: nat) returns (r: Result<()>)
      requires Valid() && !InVm(Now()) && newpl <= 3
      modifies this`segs, this`cpl, this`ip, this`nextIp, this`flags
      ensures r.Ok? <==> HandlerLoads(env, ram.mem[..], v, gate, newpl)
      ensures r.Failed? ==> r.why == Abort
      ensures r.Ok? ==> Now() == Started(env, old(Now()), v, gate, newpl)
    {
      hide Loaded, Has, CodeSelector, Cleared;
      if v.FromVm? {
        var cleared := ClearDataSegs();
        if cleared.Failed? { return Failed(Abort); }
      }
      r := StartHandler(gate, newpl);
    }

    /** The frame of the origin, on the stack that belongs to the verdict. */
    method PushFrame(v: Verdict, pushErr: bool, code: Word) returns (r: Result<()>)
      requires Valid() && !v.Refused? && (v.FromVm? <==> InVm(Now())) && (v.Inter? ==> v.dpl < 3)
      modifies this`flags, this`esp, this`segs, this`cpl, ram.mem
      ensures r.Ok? <==> Fits(env, old(Now()), v, pushErr, code)
      ensures r.Failed? ==> r == Failed(WhyNot(env, old(Now()), v)) && Now() == AfterFailure(env, old(Now()), v)
      ensures r.Ok? ==> Now() == Framed(env, old(Now()), v, pushErr, code)
    {
      hide Fits, Framed, WhyNot, InVm;
      match v {
        case Intra => r := EnterSame(pushErr, code);
        case Inter(dpl) => r := EnterOuter(dpl, pushErr, code);
        case FromVm => r := EnterFromVm(pushErr, code);
      }
    }

    /**
     `call_isr` in protected mode: the frame of the origin is pushed and the handler entered. Without room
     for the frame the state is that of `AfterFailure`, as `Isr` says; later failures abort.
     */
    method CallIsr(no: nat, pushErr: bool, code: Word, ext: nat) returns (r: Result<()>, ghost gate: Gate, ghost top: Word)
      requires Valid() && cpl <= 3 && (InVm(Now()) ==> cpl == 3)
      modifies this, ram.mem
      ensures Ends(Isr(env, old(Now()), no, pushErr, code, ext), r, Now())
      ensures r.Ok? ==>
        var c := old(Now());
        && GateOf(env, c.m, c.cpl, no, ext) == Ok(gate)
        && var st := StackFor(env, c, CheckCs(env, c.m, c.cpl, InVm(c), gate.sel, ext)); st.Ok? && top == st.value.1
      ensures r.Ok? ==> Entered(env, old(Now()), Now(), pushErr, code, gate, top)
      ensures r.Ok? ==> Begins(env, old(Now()), no, Now())
      ensures r.Ok? ==> Finds(old(Now()), Now(), pushErr, code, old(ip))
      ensures r.Ok? && cpl < old(cpl) ==> TssHas(env, old(ram.mem[..]), cpl, top, segs.ss.sel)
    {
      hide TssHas, Finds, GateOf, CheckCs, Fits, Framed, WhyNot, AfterFailure, HandlerLoads, Started, Entered, StackFor, InVm, Begins;
      gate, top := Gate(0, 0, false), 0;
      ghost var c := Now();
      IsrBegins(env, c, no, pushErr, code, ext);
      var g := GateOf(env, ram.mem[..], cpl, no, ext);
      if g.Failed? { return Failed(g.why), gate, top; }
      var v := CheckCs(env, ram.mem[..], cpl, InVm(Now()), g.value.sel, ext);
      if v.Refused? { return Failed(v.why), gate, top; }
      var newpl := if v.Inter? then v.dpl else if v.FromVm? then 0 else cpl;
      r := PushFrame(v, pushErr, code);
      if r.Failed? { return; }
      FramedLeavesVm(env, c, v, pushErr, code);
      r := Start(v, g.value, newpl);
      if r.Ok? {
        gate, top := g.value, FrameTop(env, c, v, pushErr, code);
        StartedIsEntered(env, c, v, gate, pushErr, code);
        EnteredFinds(env, c, Now(), pushErr, code, gate, top);
        if !v.Intra? { StackIsTss(env, c, v, gate, pushErr, code); }
      }
    }

    /** INT n. */
    method Int(no: nat) returns (r: Result<()>)
      requires Valid() && cpl <= 3 && (InVm(Now()) ==> cpl == 3)
      modifies this, ram.mem
      ensures Ends(IntN(env, old(Now()), no), r, Now())
      ensures r.Ok? ==> Begins(env, old(Now()), no, Now()) && Finds(old(Now()), Now(), false, 0, old(nextIp))
    {
      hide Isr, Has, R.Iopl, Begins, Finds;
      if InVm(Now()) && R.Iopl(flags.word) < 3 { return Failed(Raise(GP, 0)); }
      var oldip := ip;
      ip := nextIp;
      ghost var c := Now();
      ghost var gate, top;
      r, gate, top := CallIsr(no, false, 0, 0);
      if r.Failed? { ip := oldip; } else {
        BeginsAnywhere(env, c, no, Now(), oldip, c.nextIp);
        FindsAnywhere(c, Now(), false, 0, c.ip, oldip, c.nextIp);
      }
    }

    /** The start of `cpui386_step`, when an interrupt is taken. */
    method Interrupt(no: nat) returns (r: Result<()>)
      requires Valid() && cpl <= 3 && (InVm(Now()) ==> cpl == 3)
      modifies this, ram.mem
      ensures Ends(Interrupted(env, old(Now()), no), r, Now())
      ensures r.Ok? ==> Begins(env, old(Now()), no, Now()) && Finds(old(Now()), Now(), false, 0, old(nextIp))
    {
      hide Isr, Has, Begins, Finds;
      ghost var oldip := ip;
      ip := nextIp;
      ghost var c := Now();
      ghost var gate, top;
      r, gate, top := CallIsr(no, false, 0, 1);
      if r.Ok? {
        BeginsAnywhere(env, c, no, Now(), oldip, c.nextIp);
        FindsAnywhere(c, Now(), false, 0, c.ip, oldip, c.nextIp);
      }
      if r.Failed? && !r.why.Unmodelled? { r := Failed(Abort); }
    }

    /** The end of `cpui386_step`, after an instruction has failed. */
    method Exception(vector: nat, code: Word) returns (r: Result<()>)
      requires Valid() && cpl <= 3 && (InVm(Now()) ==> cpl == 3)
      modifies this, ram.mem
      ensures Ends(Excepted(env, old(Now()), vector, code), r, Now())
      ensures r.Ok? ==>
        Begins(env, old(Now()), vector, Now()) && Finds(old(Now()), Now(), vector in {8, 10, 11, 12, 13, 14}, code, old(ip))
    {
      hide Isr, Has, Begins, Finds;
      ghost var oldnext := nextIp;
      nextIp := ip;
      ghost var c := Now();
      ghost var gate, top;
      r, gate, top := CallIsr(vector, HasCode(vector), code, 1);
      if r.Ok? {
        BeginsAnywhere(env, c, vector, Now(), c.ip, oldnext);
        FindsAnywhere(c, Now(), HasCode(vector), code, c.ip, c.ip, oldnext);
      }
      if r.Failed? && !r.why.Unmodelled? { r := Failed(Abort); }
    }

    /** IRET with a 32-bit operand: `pmret`. */
    method PmRet() returns (r: Result<()>)
      requires Valid()
      modifies this
      ensures (r, Now()) == R.Iret(env, old(Now()))
      ensures r.Ok? ==> R.ComesBack(env, old(Now()), Now())
    {
      hide Has, R.StackDwords, R.ReturnFlags, R.Iopl, WordFlags, R.ReturnTo, R.ComesBack;
      R.IretComesBack(env, Now());
      if Has(flags.word, VM) { return Failed(if R.Iopl(flags.word) < 3 then Raise(GP, 0) else Abort); }
      if Has(flags.word, NT) { return Failed(Unmodelled); }
      var popped := R.StackDwords(env, Now(), esp, 3);
      if popped.Failed? { return Failed(popped.why); }
      r := ReturnTo(popped.value[0], popped.value[1], R.ReturnFlags(env, flags.word, WordFlags(popped.value[2]), cpl));
    }

    method ReturnTo(newip: Word, newcs: Word, f: Eflags) returns (r: Result<()>)
      requires Valid()
      modifies this
      ensures (r, Now()) == R.ReturnTo(env, old(Now()), newip, newcs, f)
    {
      hide Has, R.CheckReturn, R.ReturnToVm, R.ReturnSame, R.ReturnOuter;
      if Has(f, VM) {
        r := ReturnToVm(f);
      } else if newcs % 4 < cpl {
        r := Failed(Raise(GP, newcs - newcs % 4));
      } else {
        var sel := R.Low16(newcs);
        var check := R.CheckReturn(env, ram.mem[..], cpl, sel);
        if check.Failed? { return Failed(check.why); }
        if sel % 4 == cpl { r := ReturnSame(newip, sel, f); } else { r := ReturnOuter(newip, sel, f); }
      }
    }

    method ReturnToVm(f: Eflags) returns (r: Result<()>)
      requires Valid()
      modifies this
      ensures (r, Now()) == R.ReturnToVm(env, old(Now()), f)
    {
      hide R.StackDwords;
      if cpl != 0 { return Failed(Abort); }
      var ws := R.StackDwords(env, Now(), esp, 9);
      if ws.Failed? { return Failed(ws.why); }
      flags := Flags(f, false, flags.arith);
      cpl := 3;
      nextIp := ws.value[0] % 0x1_0000;
      segs := Segs(R.VmSeg(ws.value[5]), R.VmSeg(ws.value[1]), R.VmSeg(ws.value[4]), R.VmSeg(ws.value[6]),
                   R.VmSeg(ws.value[7]), R.VmSeg(ws.value[8]));
      esp := ws.value[3];
      r := Ok(());
    }

    method ReturnSame(newip: Word, sel: Selector, f: Eflags) returns (r: Result<()>)
      requires Valid()
      modifies this
      ensures (r, Now()) == R.ReturnSame(env, old(Now()), newip, sel, f)
    {
      hide Loaded;
      var cs := Loaded(env, ram.mem[..], false, CS, sel);
      if cs.Failed? { return Failed(Abort); }
      flags := Flags(f, false, flags.arith);
      segs := segs.(cs := cs.value);
      cpl := sel % 4;
      esp := NewSp(segs.ss, esp, esp as int + 12);
      nextIp := newip;
      r := Ok(());
    }

    method ReturnOuter(newip: Word, sel: Selector, f: Eflags) returns (r: Result<()>)
      requires Valid()
      modifies this
      ensures (r, Now()) == R.ReturnOuter(env, old(Now()), newip, sel, f)
    {
      hide Loaded, R.StackDwords, R.ClearSegs;
      var ws := R.StackDwords(env, Now(), esp, 5);
      if ws.Failed? { return Failed(ws.why); }
      var cs, ss := Loaded(env, ram.mem[..], false, CS, sel), Loaded(env, ram.mem[..], false, SS, R.Low16(ws.value[4]));
      if cs.Failed? || ss.Failed? { return Failed(Abort); }
      flags := Flags(f, false, flags.arith);
      cpl := sel % 4;
      esp := NewSp(ss.value, esp, ws.value[3]);
      nextIp := newip;
      segs := R.ClearSegs(segs.(cs := cs.value, ss := ss.value), cpl);
      r := Ok(());
    }
  }

  /** The flags that are pushed with VM put back are the flags of the interrupted code. */
  lemma VmCleared(f: Flags)
    requires Has(f.word, VM)
    ensures var g := VmOff(f); !Has(g.word, VM) && On(Effective(g), VM) == Effective(f)
  {
    hide Has, Off, On, Merge;
    VmBits(f.word);
    VmArithmetic(f.word, f.arith);
  }

  lemma RefreshKeepsVm(f: Flags)
    ensures Has(Effective(f), VM) == Has(f.word, VM)
  {
    hide Has, Merge;
    MergeKeepsVm(f.word, f.arith);
  }

  lemma MergeKeepsVm(w: Eflags, a: Eflags)
    ensures Has(Merge(w, a, ARITHMETIC), VM) == Has(w, VM)
  {
  }

  lemma VmBits(w: Eflags)
    requires Has(w, VM)
    ensures !Has(Off(w, VM), VM) && On(Off(w, VM), VM) == w
  {
  }

  lemma VmArithmetic(w: Eflags, a: Eflags)
    requires Has(w, VM)
    ensures On(Merge(Off(w, VM), a, ARITHMETIC), VM) == Merge(w, a, ARITHMETIC)
  {
  }

  lemma VmFrameShape(c: Core, ss: Seg, push: bool, code: Word)
    requires InVm(c)
    ensures var f, g := WithError(VmFrame(c), push, code), VmOff(c.flags);
            && |f| == (if push then 10 else 9) && (push ==> f[9] == code)
            && f[..9] == VmNine(c.segs.(ss := ss), c.segs.ss.sel, c.esp, WithVm(g), c.ip)
  {
    hide Effective, FlagsWord;
    VmCleared(c.flags);
  }

  lemma PushedNothing(e: Env, m: seq<Byte>, ss: Seg, top: Word, frame: seq<Word>)
    requires ValidEnv(e, |m|)
    ensures Pushed(e, m, ss, top, frame[..0]) == m
  {
  }
}
