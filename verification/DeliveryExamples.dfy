/**
 A small machine at which delivery and return depart from what they stand for: two pages of memory,
 of which the lower one holds descriptors and a task state segment and cannot be written.
 */
module DeliveryExamples {
  import opened EntryBits
  import opened Words
  import opened SplitAccess
  import opened Segments
  import opened Returns
  import opened Interrupts
  import opened RoundTrip

  const RAM := 0x2000

  /**
   Selector 8 is code, 10h conforming code and 18h data, all of privilege 0; `esp0` is in the TSS at 80h. The IDT at C0h
   has interrupt gates 0, which a program of any privilege may call, to selector 8, and 14, for page faults, to 10h.
   */
  function DwordAt(esp0: Word, a: nat): Word {
    if a == 0x08 || a == 0x10 || a == 0x18 then 0xffff
    else if a == 0x0c then 0x00cf_9a00
    else if a == 0x14 then 0x00cf_9e00
    else if a == 0x1c then 0x00cf_9200
    else if a == 0x84 then esp0
    else if a == 0x88 then 0x18
    else if a == 0xc0 then 0x0008_0000
    else if a == 0xc4 then 0xee00
    else if a == 0x130 then 0x0010_0000
    else if a == 0x134 then 0x8e00
    else 0
  }

  function Image(esp0: Word): (m: seq<Byte>)
    ensures |m| == RAM
  {
    seq(RAM, i requires 0 <= i < RAM => Digits(DwordAt(esp0, i - i % 4), 4)[i % 4])
  }

  const MACHINE := Env(0, 0xff, Seg(0, 0, 0, 0), Seg(0x28, 0x80, 0xff, 8), 0xc0, 0x7f, 0xffff_ffff,
                       (p: nat, write: bool) => p == 1 || (p == 0 && !write))

  const CODE := Seg(8, 0, 0xffff_ffff, 0xcf9a)
  const CONFORMING := Seg(0x13, 0, 0xffff_ffff, 0xcf9e)
  const STACK := Seg(0x18, 0, 0xffff_ffff, 0xcf92)
  const USER_STACK := Seg(0x1b, 0, 0xffff_ffff, 0xcf92)
  const NULL := Seg(0, 0, 0, 0)

  /** The descriptors and the TSS are as in the image. */
  predicate Tables(m: seq<Byte>, esp0: Word) {
    |m| == RAM && forall a: nat :: a < 0x140 && a % 4 == 0 ==> Dword(m, a) == DwordAt(esp0, a)
  }

  lemma ImageTables(esp0: Word)
    ensures Tables(Image(esp0), esp0)
  {
    hide Dword, DwordAt, Image;
    forall a: nat | a < 0x140 && a % 4 == 0 ensures Dword(Image(esp0), a) == DwordAt(esp0, a) {
      ImageDword(esp0, a);
    }
  }

  lemma ImageDword(esp0: Word, a: nat)
    requires a < 0x140 && a % 4 == 0
    ensures Dword(Image(esp0), a) == DwordAt(esp0, a)
  {
    hide DwordAt, Digits, Value;
    var d := Digits(DwordAt(esp0, a), 4);
    assert forall i :: 0 <= i < 4 ==> (a + i) % 4 == i && Image(esp0)[a + i] == d[i];
    assert Row(Image(esp0), a, 4) == d;
    FourBytes();
    ValueOfDigits(DwordAt(esp0, a), 4);
  }

  lemma Valid()
    ensures ValidEnv(MACHINE, RAM)
  {
  }

  /** A descriptor of the GDT, whatever the privilege bits of the selector ask for. */
  lemma Reads(m: seq<Byte>, esp0: Word, o: nat, rpl: nat)
    requires Tables(m, esp0) && ValidEnv(MACHINE, |m|) && o in {0, 8, 0x10, 0x18} && rpl < 4
    ensures ReadDesc(MACHINE, m, o + rpl) == Ok((DwordAt(esp0, o), DwordAt(esp0, o + 4)))
    ensures HighWord(MACHINE, m, o + rpl) == Ok(DwordAt(esp0, o + 4))
  {
    hide Dword, DwordAt, Reach, Wrap, TableOf, DescOffset, Rounded, Tables, ValidEnv;
    SelectorParts(o, rpl);
    LowDword(m, esp0, o);
    LowDword(m, esp0, o + 4);
    LowReach(o);
    LowReach(o + 4);
  }

  lemma LowDword(m: seq<Byte>, esp0: Word, a: nat)
    requires Tables(m, esp0) && a < 0x140 && a % 4 == 0
    ensures a + 4 <= |m| && Dword(m, a) == DwordAt(esp0, a)
  {
    hide Dword, DwordAt;
  }

  lemma LowReach(a: nat)
    requires a < 0x140
    ensures Wrap(0 + a) == a && Reach(MACHINE, a, false)
  {
  }

  lemma SelectorParts(o: nat, rpl: nat)
    requires o in {0, 8, 0x10, 0x18} && rpl < 4
    ensures DescOffset(o + rpl) == o == Rounded(o + rpl) && TableOf(MACHINE, o + rpl) == (0, 0xff)
  {
  }

  /** A present descriptor loads as it reads. */
  lemma LoadsAsRead(m: seq<Byte>, which: SegName, sel: Selector, lo: Word, hi: Word)
    requires ValidEnv(MACHINE, |m|) && ReadDesc(MACHINE, m, sel) == Ok((lo, hi)) && IsPresent(hi) && (which.CS? || which.SS?)
    ensures Loaded(MACHINE, m, false, which, sel) == Ok(SegOf(sel, lo, hi))
  {
    hide ReadDesc, SegOf, Rounded, IsPresent, IsSegment;
  }

  /** Flat code and stack segments load as they are described. */
  lemma LoadsFlat(m: seq<Byte>, esp0: Word, which: SegName, o: nat, rpl: nat, flags: nat)
    requires Tables(m, esp0) && ValidEnv(MACHINE, |m|) && o in {8, 0x10, 0x18} && rpl < 4 && (which.CS? || which.SS?)
    requires flags == 0xcf9a || flags == 0xcf9e || flags == 0xcf92
    requires DwordAt(esp0, o) == 0xffff && DwordAt(esp0, o + 4) == 0x100 * flags
    ensures Loaded(MACHINE, m, false, which, o + rpl) == Ok(Seg(o + rpl, 0, 0xffff_ffff, flags))
  {
    hide ReadDesc, HighWord, Tables, SegOf, DwordAt, Loaded, IsPresent, Rounded;
    Reads(m, esp0, o, rpl);
    SelectorParts(o, rpl);
    FlatSegment(o + rpl, flags);
    LoadsAsRead(m, which, o + rpl, 0xffff, 0x100 * flags);
  }

  /** What loads while the tables are there. */
  lemma LoadsCode(m: seq<Byte>, esp0: Word)
    requires Tables(m, esp0) && ValidEnv(MACHINE, |m|)
    ensures Loaded(MACHINE, m, false, CS, 8) == Ok(CODE) && Loaded(MACHINE, m, false, CS, 0x13) == Ok(CONFORMING)
    ensures HighWord(MACHINE, m, 0x13) == Ok(0x00cf_9e00)
  {
    hide HighWord, Tables, Loaded, ReadDesc, ValidEnv;
    LoadsFlat(m, esp0, CS, 8, 0, 0xcf9a);
    LoadsFlat(m, esp0, CS, 0x10, 3, 0xcf9e);
    Reads(m, esp0, 0x10, 3);
  }

  lemma LoadsStack(m: seq<Byte>, esp0: Word)
    requires Tables(m, esp0) && ValidEnv(MACHINE, |m|)
    ensures Loaded(MACHINE, m, false, SS, 0x18) == Ok(STACK) && Loaded(MACHINE, m, false, SS, 0x1b) == Ok(USER_STACK)
  {
    hide Tables, Loaded, ValidEnv;
    LoadsFlat(m, esp0, SS, 0x18, 0, 0xcf92);
    LoadsFlat(m, esp0, SS, 0x18, 3, 0xcf92);
  }

  lemma NullDescriptor(esp0: Word)
    ensures DwordAt(esp0, 0) == 0 && DwordAt(esp0, 4) == 0 && SegOf(0, 0, 0) == NULL
  {
    hide SegOf;
    SegParts(0, 0, 0, 0, 0, 0);
  }

  lemma FlatSegment(sel: Selector, flags: nat)
    requires flags == 0xcf9a || flags == 0xcf9e || flags == 0xcf92
    ensures SegOf(sel, 0xffff, 0x100 * flags) == Seg(sel, 0, 0xffff_ffff, flags) && IsPresent(0x100 * flags)
  {
    hide SegOf;
    SegParts(sel, 0xffff, 0x100 * flags, 0, 0xf_ffff, flags);
  }

  /** The parts of a descriptor, worked out. */
  lemma SegParts(sel: Selector, w1: Word, w2: Word, base: Word, limit: nat, flags: nat)
    requires limit == w2 / 0x1_0000 % 16 * 0x1_0000 + w1 % 0x1_0000 && flags == w2 / 0x100 % 0x1_0000
    requires base == w1 / 0x1_0000 + 0x1_0000 * (w2 % 0x100) + 0x100_0000 * (w2 / 0x100_0000)
    ensures SegOf(sel, w1, w2) == Seg(sel, base, if w2 / 0x80_0000 % 2 == 1 then limit * 0x1000 + 0xfff else limit, flags)
  {
  }

  lemma NullLoads(m: seq<Byte>)
    requires ValidEnv(MACHINE, |m|) && ReadDesc(MACHINE, m, 0) == Ok((0, 0))
    ensures Loaded(MACHINE, m, false, DS, 0) == Ok(SegOf(0, 0, 0))
  {
    hide ReadDesc, SegOf;
  }

  lemma LoadsNull(m: seq<Byte>, esp0: Word)
    requires Tables(m, esp0) && ValidEnv(MACHINE, |m|)
    ensures Loaded(MACHINE, m, false, DS, 0) == Ok(NULL)
  {
    NullDescriptor(esp0);
    hide ReadDesc, HighWord, Tables, Loaded, SegOf, DwordAt;
    Reads(m, esp0, 0, 0);
    NullLoads(m);
  }

  lemma InnerStack(m: seq<Byte>, esp0: Word)
    requires Tables(m, esp0) && ValidEnv(MACHINE, |m|)
    ensures TssStack(MACHINE, m, 0) == Ok((0x18, esp0))
  {
    hide Dword, DwordAt;
    assert Dword(m, 0x84) == DwordAt(esp0, 0x84) && Dword(m, 0x88) == DwordAt(esp0, 0x88);
    assert Wrap(0x80 + 4 + 8 * 0) == 0x84 && Wrap(0x80 + 8 + 8 * 0) == 0x88;
    assert Reach(MACHINE, 0x84, false) && Reach(MACHINE, 0x88, false);
    TssDwords(esp0);
  }

  lemma TssDwords(esp0: Word)
    ensures DwordAt(esp0, 0x84) == esp0 && DwordAt(esp0, 0x88) == 0x18
  {
  }

  lemma InnerSegment(m: seq<Byte>, esp0: Word)
    requires Tables(m, esp0) && ValidEnv(MACHINE, |m|)
    ensures TssStack(MACHINE, m, 0) == Ok((0x18, esp0)) && TssSegment(MACHINE, m, 0) == Ok((STACK, esp0))
  {
    hide TssStack, Loaded, Tables, SegOf;
    InnerStack(m, esp0);
    LoadsStack(m, esp0);
  }

  /** Pushes to the upper page leave the tables alone. */
  lemma {:induction false} PushedTables(m: seq<Byte>, esp0: Word, ss: Seg, top: Word, vals: seq<Word>)
    requires ValidEnv(MACHINE, |m|) && RoomBelow(MACHINE, ss, top, |vals|) && Tables(m, esp0)
    ensures Tables(Pushed(MACHINE, m, ss, top, vals), esp0)
    decreases |vals|
  {
    hide Slot, PutDword, DwordAt, Dword;
    if vals != [] {
      var n := |vals|;
      var init := vals[..n - 1];
      assert vals == init + [vals[n - 1]];
      PushedTables(m, esp0, ss, top, init);
      PushedOne(MACHINE, m, ss, top, init, vals[n - 1]);
      assert StackOk(MACHINE, ss, top - 4 * n, true);
      hide Pushed;
      PutAbove(Pushed(MACHINE, m, ss, top, init), esp0, Slot(ss, top - 4 * n), vals[n - 1]);
    }
  }

  lemma PutAbove(m: seq<Byte>, esp0: Word, at: Word, w: Word)
    requires Tables(m, esp0) && PAGE <= at && at + 4 <= |m|
    ensures Tables(PutDword(m, at, w), esp0)
  {
    hide Dword, DwordAt, PutDword;
    forall a: nat | a < 0x140 && a % 4 == 0 ensures Dword(PutDword(m, at, w), a) == DwordAt(esp0, a) {
      DwordOfPut(m, at, w, a);
    }
  }

  // ---------- the gate ----------

  const HANDLER := Gate(8, 0, true)

  /** The program is interrupted, and the handler does nothing but return. */
  ghost function AtHandler(c: Core, v: Verdict): Core
    requires ValidEnv(MACHINE, |c.m|) && Enterable(MACHINE, c, v, HANDLER, false, 0)
  {
    Started(MACHINE, Framed(MACHINE, c, v, false, 0), v, HANDLER, NewCpl(c, v))
  }

  lemma GateDwords(esp0: Word)
    ensures DwordAt(esp0, 0xc0) == 0x0008_0000 && DwordAt(esp0, 0xc4) == 0xee00 && DwordAt(esp0, 0xc) == 0x00cf_9a00
  {
  }

  lemma GateDecodes(ext: nat)
    ensures DecodeGate(3, 0, ext, 0x0008_0000, 0xee00) == Ok(HANDLER)
  {
  }

  /** Interrupt 0 goes through the gate, from privilege 3 and from virtual-8086 mode to privilege 0. */
  lemma GateLeads(m: seq<Byte>, esp0: Word, vm: bool, ext: nat)
    requires Tables(m, esp0) && ValidEnv(MACHINE, |m|)
    ensures GateOf(MACHINE, m, 3, 0, ext) == Ok(HANDLER)
    ensures CheckCs(MACHINE, m, 3, vm, 8, ext) == if vm then FromVm else Inter(0)
  {
    hide Dword, DwordAt, Tables, DecodeGate, IsSegment, IsCode, IsPresent, IsConforming, Dpl;
    GateDwords(esp0);
    GateDecodes(ext);
    LowDword(m, esp0, 0xc0);
    LowDword(m, esp0, 0xc4);
    LowDword(m, esp0, 0xc);
    LowReach(0xc0);
    LowReach(0xc4);
    LowReach(0xc);
    SelectorParts(8, 0);
    PlainCode();
  }

  lemma PlainCode()
    ensures var w: Word := 0x00cf_9a00; IsSegment(w) && IsCode(w) && IsPresent(w) && !IsConforming(w) && Dpl(w) == 0
  {
  }

  /** An interrupt that fits on the stack is delivered. */
  lemma Delivers(c: Core, ext: nat)
    requires ValidEnv(MACHINE, |c.m|) && Tables(c.m, 0x1800) && c.cpl == 3
    requires var v := if InVm(c) then FromVm else Inter(0); Enterable(MACHINE, c, v, HANDLER, false, 0)
    ensures var v := if InVm(c) then FromVm else Inter(0); Isr(MACHINE, c, 0, false, 0, ext) == Delivered(AtHandler(c, v))
  {
    hide GateOf, CheckCs, Enterable, Started, Framed, Tables, Fits;
    GateLeads(c.m, 0x1800, InVm(c), ext);
    var v := if InVm(c) then FromVm else Inter(0);
    assert Fits(MACHINE, c, v, false, 0) by { EnterableMeansFits(c, v, HANDLER, false, 0); }
  }

  // ---------- a failed delivery ----------

  /** A program of privilege 3, and one in virtual-8086 mode that runs at `ip`. */
  function Program(esp0: Word): Core {
    Core(Image(esp0), Flags(0x202, false, 0), 3, 0, 0, 0x1800, Segs(NULL, CONFORMING, USER_STACK, NULL, NULL, NULL))
  }

  function VmProgram(esp0: Word, ip: Word): Core {
    var s := VmSeg(0);
    Core(Image(esp0), Flags(0x2_0202, false, 0), 3, ip, ip, 0x1800, Segs(s, s, s, s, s, s))
  }

  lemma StackIsUsable()
    ensures Usable(STACK) && StackFailure(STACK) == PageFault
  {
  }

  lemma SlotAt(top: Word, k: nat)
    requires 4 * k <= top <= 0x2000
    ensures Slot(STACK, top - 4 * k) == top - 4 * k
  {
    assert Big(STACK) && STACK.base == 0;
  }

  /** The stack of privilege 0 has room in the upper page only. */
  lemma RoomAbove(top: Word, n: nat)
    requires 0x1000 <= top <= 0x1ffc && 1 <= n <= 16
    ensures RoomBelow(MACHINE, STACK, top, n) <==> top - 4 * n >= 0x1000
  {
    hide Slot;
    assert Usable(STACK);
    forall k | 1 <= k <= n ensures StackOk(MACHINE, STACK, top - 4 * k, true) <==> top - 4 * k >= 0x1000 {
      SlotAt(top, k);
    }
  }

  /**
   INT 0 with room for four of the five dwords on the stack of privilege 0: #PF, and the program's SS and ESP are those
   of privilege 0. On that stack the page fault then reaches its conforming handler, still at privilege 3.
   */
  lemma FailedIntExample()
    ensures ValidEnv(MACHINE, RAM)
    ensures var c := Program(0x1010);
      var lost := c.(esp := 0x1010, segs := c.segs.(ss := STACK));
      && c.segs.ss != STACK && IntN(MACHINE, c, 0) == Lost(PageFault, lost)
      && var d := Excepted(MACHINE, lost, 14, 2);
         d.Delivered? && d.c.cpl == 3 && d.c.segs.ss == STACK && d.c.segs.cs == CONFORMING && d.c.ip == 0
  {
    hide IntN, Excepted;
    IntFails();
    FaultArrives();
  }

  lemma IntFails()
    ensures ValidEnv(MACHINE, RAM)
    ensures var c := Program(0x1010); IntN(MACHINE, c, 0) == Lost(PageFault, c.(esp := 0x1010, segs := c.segs.(ss := STACK)))
  {
    hide TssStack, TssSegment, Loaded, RoomBelow, Image, SegOf, GateOf, CheckCs, Tables, Enterable;
    ImageTables(0x1010);
    Valid();
    GateLeads(Image(0x1010), 0x1010, false, 0);
    InnerSegment(Image(0x1010), 0x1010);
    LoadsStack(Image(0x1010), 0x1010);
    RoomAbove(0x1010, 5);
    StackIsUsable();
  }

  const FAULT_HANDLER := Gate(0x10, 0, true)

  lemma FaultGateDwords(esp0: Word)
    ensures DwordAt(esp0, 0x130) == 0x0010_0000 && DwordAt(esp0, 0x134) == 0x8e00 && DwordAt(esp0, 0x14) == 0x00cf_9e00
    ensures DecodeGate(3, 0x70, 1, 0x0010_0000, 0x8e00) == Ok(FAULT_HANDLER)
  {
  }

  lemma FaultGateLeads(m: seq<Byte>, esp0: Word)
    requires Tables(m, esp0) && ValidEnv(MACHINE, |m|)
    ensures GateOf(MACHINE, m, 3, 14, 1) == Ok(FAULT_HANDLER) && CheckCs(MACHINE, m, 3, false, 0x10, 1) == Intra
  {
    hide Dword, DwordAt, Tables, DecodeGate, IsSegment, IsCode, IsPresent, IsConforming, Dpl;
    FaultGateDwords(esp0);
    LowDword(m, esp0, 0x130);
    LowDword(m, esp0, 0x134);
    LowDword(m, esp0, 0x14);
    LowReach(0x130);
    LowReach(0x134);
    LowReach(0x14);
    SelectorParts(0x10, 0);
    ConformingCode();
  }

  ghost function AtFault(c: Core): Core
    requires ValidEnv(MACHINE, |c.m|) && Enterable(MACHINE, c, Intra, FAULT_HANDLER, true, 2)
  {
    Started(MACHINE, Framed(MACHINE, c, Intra, true, 2), Intra, FAULT_HANDLER, NewCpl(c, Intra))
  }

  lemma FaultFrame(c: Core)
    ensures |WithError(FrameFor(c, Intra), true, 2)| == 4 && NewCpl(c, Intra) == c.cpl
  {
  }

  lemma FaultFits(c: Core)
    requires c.m == Image(0x1010) && c.cpl == 3 && c.segs.ss == STACK && c.esp == 0x1010
    ensures ValidEnv(MACHINE, |c.m|) && Tables(c.m, 0x1010) && Fits(MACHINE, c, Intra, true, 2)
    ensures var d := Framed(MACHINE, c, Intra, true, 2); Tables(d.m, 0x1010) && d.segs == c.segs && d.cpl == 3
  {
    hide TssSegment, Loaded, RoomBelow, Image, Tables, Pushed, FrameFor, WithError, StackOk, Usable, Reach, SegOf, NewSp, Refreshed;
    var frame := WithError(FrameFor(c, Intra), true, 2);
    ImageTables(0x1010);
    Valid();
    FaultFrame(c);
    RoomAbove(0x1010, 4);
    PushedTables(c.m, 0x1010, STACK, 0x1010, frame);
  }

  lemma FaultEnters(c: Core)
    requires c.m == Image(0x1010) && c.cpl == 3 && c.segs.ss == STACK && c.esp == 0x1010
    ensures ValidEnv(MACHINE, |c.m|) && Tables(c.m, 0x1010) && Enterable(MACHINE, c, Intra, FAULT_HANDLER, true, 2)
    ensures var d := AtFault(c); d.cpl == 3 && d.segs.ss == STACK && d.segs.cs == CONFORMING && d.ip == 0
  {
    hide Loaded, Image, Tables, Fits, Framed, CodeSelector, Interrupts.Cleared;
    Valid();
    FaultFits(c);
    TableSize(Framed(MACHINE, c, Intra, true, 2).m, 0x1010);
    LoadsCode(Framed(MACHINE, c, Intra, true, 2).m, 0x1010);
    ConformingSelector();
  }

  lemma ConformingSelector()
    ensures CodeSelector(0x10, 3) == 0x13
  {
  }

  lemma FaultArrives()
    ensures ValidEnv(MACHINE, RAM)
    ensures var c := Program(0x1010);
      var d := Excepted(MACHINE, c.(esp := 0x1010, segs := c.segs.(ss := STACK)), 14, 2);
      d.Delivered? && d.c.cpl == 3 && d.c.segs.ss == STACK && d.c.segs.cs == CONFORMING && d.c.ip == 0
  {
    hide Image, GateOf, CheckCs, Tables, Enterable, Started, Framed, Fits;
    var c := Program(0x1010).(esp := 0x1010, segs := Program(0x1010).segs.(ss := STACK));
    FaultEnters(c);
    FaultGateLeads(c.m, 0x1010);
    assert Fits(MACHINE, c, Intra, true, 2) by { EnterableMeansFits(c, Intra, FAULT_HANDLER, true, 2); }
  }

  lemma EnterableMeansFits(c: Core, v: Verdict, gate: Gate, pushErr: bool, code: Word)
    requires ValidEnv(MACHINE, |c.m|) && Enterable(MACHINE, c, v, gate, pushErr, code)
    ensures Fits(MACHINE, c, v, pushErr, code)
  {
  }

  lemma VmClear(esp0: Word, ip: Word)
    ensures var c := VmProgram(esp0, ip); InVm(c) && !Has(VmOff(c.flags).word, VM) && |VmFrame(c)| == 9
  {
  }

  // ---------- returns that do not come back ----------

  /** With a stack in the upper page the handler is entered, and the tables stay. */
  lemma Enters(c: Core, v: Verdict)
    requires c.m == Image(0x1800) && (v == Inter(0) || v.FromVm?) && 1 <= |FrameFor(c, v)| <= 9
    ensures ValidEnv(MACHINE, |c.m|) && Enterable(MACHINE, c, v, HANDLER, false, 0) && Tables(c.m, 0x1800)
    ensures Tables(AtHandler(c, v).m, 0x1800) && AtHandler(c, v).segs.ss == STACK && StackFor(MACHINE, c, v) == Ok((STACK, 0x1800))
  {
    hide TssSegment, Loaded, RoomBelow, Image, Tables, Pushed, FrameFor, StackOk, Interrupts.Cleared, Usable, Reach, SegOf, NewSp, Refreshed;
    ImageTables(0x1800);
    Valid();
    InnerSegment(c.m, 0x1800);
    RoomAbove(0x1800, |FrameFor(c, v)|);
    PushedTables(c.m, 0x1800, STACK, 0x1800, FrameFor(c, v));
    var m := Pushed(MACHINE, c.m, STACK, 0x1800, FrameFor(c, v));
    LoadsCode(m, 0x1800);
    LoadsNull(m, 0x1800);
  }

  lemma FlagBits(disables: bool)
    ensures FlagsKept(MACHINE, 0x202) && FlagsKept(MACHINE, 0x2_0202) && !Has(0x202, VM)
    ensures var f := HandlerFlags(Flags(0x202, false, 0), disables); !Has(f, VM) && !Has(f, NT)
    ensures var f := HandlerFlags(Flags(0x2_0202, false, 0), disables); !Has(f, VM) && !Has(f, NT)
  {
  }

  lemma ConformingCode()
    ensures var w: Word := 0x00cf_9e00; IsSegment(w) && IsCode(w) && IsPresent(w) && IsConforming(w) && Dpl(w) == 0
    ensures Big(USER_STACK) && Big(STACK)
  {
  }

  lemma ProgramRuns()
    ensures ValidEnv(MACHINE, RAM) && Running(MACHINE, Program(0x1800))
  {
    hide Loaded, Image, Tables, FlagsKept, ReadDesc, HighWord, IsSegment, IsCode, IsPresent, IsConforming, Dpl, Big, Has;
    var m := Image(0x1800);
    Valid();
    ImageTables(0x1800);
    FlagBits(true);
    ConformingCode();
    LoadsCode(m, 0x1800);
    LoadsStack(m, 0x1800);
    SelectorParts(0x10, 3);
  }

  lemma TablesStay(c1: Core)
    requires Tables(c1.m, 0x1800)
    ensures ValidEnv(MACHINE, |c1.m|) && TablesKept(MACHINE, Program(0x1800), c1)
  {
    hide ReadDesc, HighWord, Image, DwordAt, Tables;
    var m := Image(0x1800);
    Valid();
    ImageTables(0x1800);
    assert |c1.m| == RAM by { assert Tables(c1.m, 0x1800); TableSize(c1.m, 0x1800); }
    Reads(m, 0x1800, 0x10, 3);
    Reads(c1.m, 0x1800, 0x10, 3);
    Reads(m, 0x1800, 0x18, 3);
    Reads(c1.m, 0x1800, 0x18, 3);
  }

  lemma TableSize(m: seq<Byte>, esp0: Word)
    requires Tables(m, esp0)
    ensures |m| == RAM
  {
  }

  /** A handler that does nothing leaves the frame alone. */
  lemma AtOnce(c: Core, v: Verdict, n: nat)
    requires ValidEnv(MACHINE, |c.m|) && Enterable(MACHINE, c, v, HANDLER, false, 0) && (v.FromVm? <==> InVm(c)) && (v.Inter? || v.FromVm?)
    requires c.flags == Flags(if v.FromVm? then 0x2_0202 else 0x202, false, 0)
    ensures var c1 := AtHandler(c, v); c1.cpl == NewCpl(c, v) && Handled(c1, c1, StackFor(MACHINE, c, v).value.1, n, false)
  {
    hide Loaded, Pushed, RoomBelow, Slot, Dword, TssSegment, FrameFor, NewSp;
    FlagBits(true);
    WrapSame(AtHandler(c, v).esp);
  }

  lemma WrapSame(x: Word)
    ensures Wrap(x + 0) == x
  {
  }

  lemma ConformingReturn()
    ensures ValidEnv(MACHINE, RAM)
    ensures var c := Program(0x1800);
      Running(MACHINE, c) && Enterable(MACHINE, c, Inter(0), HANDLER, false, 0)
      && Iret(MACHINE, AtHandler(c, Inter(0))) == (Failed(Raise(GP, 0x10)), AtHandler(c, Inter(0)))
  {
    hide Loaded, Image, Tables, Pushed, HandlerFlags, FlagsKept, Iret, ReadDesc, HighWord, IsConforming, Dpl;
    hide Started, Framed, RoomBelow, Slot, Dword, Big, Has, Running, Enterable, Entered, Handled, TablesKept, StackFor, AtHandler;
    var c := Program(0x1800);
    Valid();
    ProgramRuns();
    FlagBits(true);
    ConformingCode();
    Enters(c, Inter(0));
    var c1 := AtHandler(c, Inter(0));
    HandlerOf(c, Inter(0));
    AtOnce(c, Inter(0), 5);
    TablesStay(c1);
    LoadsCode(c.m, 0x1800);
    SelectorParts(0x10, 3);
    OuterPrivilege(MACHINE, c, c1, c1, false, 0, HANDLER, 0x1800);
  }

  /** Conforming code of privilege 0 that runs at privilege 3 takes hardware interrupt 0, and cannot be returned to. */
  lemma ConformingExample()
    ensures ValidEnv(MACHINE, RAM)
    ensures var c := Program(0x1800);
      var d := Interrupted(MACHINE, c, 0);
      Running(MACHINE, c) && d.Delivered? && |d.c.m| == RAM && Iret(MACHINE, d.c) == (Failed(Raise(GP, 0x10)), d.c)
  {
    hide Image, Tables, Iret, Running, Enterable, AtHandler, Isr, FrameFor;
    var c := Program(0x1800);
    ConformingReturn();
    OuterCore();
    Enters(c, Inter(0));
    TableSize(AtHandler(c, Inter(0)).m, 0x1800);
    Delivers(c, 1);
  }

  lemma OuterCore()
    ensures var c := Program(0x1800); !InVm(c) && |FrameFor(c, Inter(0))| == 5
  {
  }

  lemma HandlerOf(c: Core, v: Verdict)
    requires ValidEnv(MACHINE, |c.m|) && Enterable(MACHINE, c, v, HANDLER, false, 0) && c.cpl == 3
    requires (v.FromVm? <==> InVm(c)) && (v == Inter(0) || v.FromVm?)
    ensures Entered(MACHINE, c, AtHandler(c, v), false, 0, HANDLER, StackFor(MACHINE, c, v).value.1)
  {
    hide Started, Framed, Entered, Enterable;
    StartedIsEntered(MACHINE, c, v, HANDLER, false, 0);
  }

  lemma VmReturn()
    ensures ValidEnv(MACHINE, RAM)
    ensures var c := VmProgram(0x1800, 0x1_2345);
      InVmMode(MACHINE, c) && Enterable(MACHINE, c, FromVm, HANDLER, false, 0)
      && var (r, c3) := Iret(MACHINE, AtHandler(c, FromVm)); r.Ok? && c3.segs == c.segs && c3.nextIp != c.ip
  {
    hide Loaded, Image, Tables, Pushed, HandlerFlags, FlagsKept, Iret, Started, Framed, RoomBelow, Slot, Dword, Big, Has, VmFrame;
    var c := VmProgram(0x1800, 0x1_2345);
    FlagBits(true);
    ConformingCode();
    VmClear(0x1800, 0x1_2345);
    Enters(c, FromVm);
    StartedIsEntered(MACHINE, c, FromVm, HANDLER, false, 0);
    var c1 := AtHandler(c, FromVm);
    FromVirtual8086(MACHINE, c, c1, c1, false, 0, HANDLER, 0x1800);
  }

  /** Code in virtual-8086 mode at EIP 1_2345h takes hardware interrupt 0, and goes on elsewhere. */
  lemma VmAddressExample()
    ensures ValidEnv(MACHINE, RAM)
    ensures var c := VmProgram(0x1800, 0x1_2345);
      var d := Interrupted(MACHINE, c, 0);
      InVmMode(MACHINE, c) && d.Delivered? && |d.c.m| == RAM
      && var (r, c3) := Iret(MACHINE, d.c); r.Ok? && c3.segs == c.segs && c3.nextIp != c.ip
  {
    hide Image, Tables, Iret, InVmMode, Enterable, AtHandler, Isr, FrameFor, VmFrame, InVm;
    var c := VmProgram(0x1800, 0x1_2345);
    VmReturn();
    VmCore();
    Enters(c, FromVm);
    TableSize(AtHandler(c, FromVm).m, 0x1800);
    Delivers(c, 1);
  }

  lemma VmCore()
    ensures var c := VmProgram(0x1800, 0x1_2345); InVm(c) && |FrameFor(c, FromVm)| == 9
  {
  }
}
