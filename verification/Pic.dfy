/**
 The cascaded pair of 8259A interrupt controllers and the CPU's interrupt latch. The 8-bit
 registers are sets of line numbers.
 */
module PicPriority {
  type Line = l: nat | l < 8 witness 0

  /** 0 for the line that currently has the highest priority, 7 for the lowest. */
  function Rank(add: Line, l: Line): Line {
    if l >= add then l - add else l + 8 - add
  }

  /** The line of a given rank: `(priority + priority_add) & 7`. */
  function LineOf(add: Line, rank: Line): Line {
    if rank + add < 8 then rank + add else rank + add - 8
  }

  /** `(irq + 1) & 7`. */
  function Next(l: Line): Line {
    if l == 7 then 0 else l + 1
  }

  lemma LinesGoRound(add: Line, l: Line)
    ensures Rank(add, l) == (l + 8 - add) % 8 && LineOf(add, l) == (l + add) % 8 && Next(l) == (l + 1) % 8
  {
  }

  /** The best rank in `mask`, or 8 when it is empty. */
  ghost predicate IsPriority(add: Line, mask: set<Line>, p: nat) {
    && p <= 8
    && (forall l :: l in mask ==> p <= Rank(add, l))
    && (p < 8 ==> LineOf(add, p) in mask)
  }

  lemma RankOfLine(add: Line, l: Line, rank: Line)
    ensures LineOf(add, Rank(add, l)) == l
    ensures Rank(add, LineOf(add, rank)) == rank
  {
  }

  lemma RankInjective(add: Line, l: Line, k: Line)
    ensures Rank(add, l) == Rank(add, k) <==> l == k
  {
    RankOfLine(add, l, 0);
    RankOfLine(add, k, 0);
  }

  /** The registers that decide which request, if any, a chip puts forward. */
  datatype Regs = Regs(irr: set<Line>, imr: set<Line>, isr: set<Line>, add: Line, specialMask: bool, fullyNestedSpecial: bool)

  /** The in-service lines that hold back new requests. */
  function Blocking(r: Regs): set<Line> {
    (if r.specialMask then r.isr - r.imr else r.isr) - (if r.fullyNestedSpecial then {2} else {})
  }

  /** `l` is an unmasked request, the best one, and outranks every blocking line. */
  ghost predicate Deliverable(r: Regs, l: Line) {
    && l in r.irr - r.imr
    && (forall k :: k in r.irr - r.imr ==> Rank(r.add, l) <= Rank(r.add, k))
    && (forall k :: k in Blocking(r) ==> Rank(r.add, l) < Rank(r.add, k))
  }

  ghost predicate Requesting(r: Regs) {
    exists l :: Deliverable(r, l)
  }

  lemma DeliverableUnique(r: Regs, l: Line, k: Line)
    requires Deliverable(r, l) && Deliverable(r, k)
    ensures l == k
  {
    RankInjective(r.add, l, k);
  }

  /** Some unmasked request outranks all lines in `blocking`. */
  predicate AnyOutranks(irr: set<Line>, imr: set<Line>, add: Line, blocking: set<Line>) {
    exists l :: l in irr && l !in imr && forall k :: k in blocking ==> Rank(add, l) < Rank(add, k)
  }

  lemma BestLine(add: Line, mask: set<Line>) returns (l: Line)
    requires mask != {}
    ensures l in mask && forall k :: k in mask ==> Rank(add, l) <= Rank(add, k)
  {
    var p := 0;
    RankOfLine(add, 0, 0);
    forall k | k in mask ensures LineOf(add, Rank(add, k)) == k { RankOfLine(add, k, 0); }
    while p < 7 && LineOf(add, p) !in mask
      invariant p < 8 && forall k :: k in mask ==> p <= Rank(add, k)
      decreases 8 - p
    {
      p := p + 1;
    }
    var any :| any in mask;
    RankOfLine(add, any, p);
    l := LineOf(add, p);
  }

  /** The best request is deliverable if any request outranks what blocks. */
  lemma OutranksIsRequesting(r: Regs)
    ensures Requesting(r) <==> AnyOutranks(r.irr, r.imr, r.add, Blocking(r))
  {
    hide Rank, Blocking;
    if AnyOutranks(r.irr, r.imr, r.add, Blocking(r)) {
      var l :| l in r.irr && l !in r.imr && forall k :: k in Blocking(r) ==> Rank(r.add, l) < Rank(r.add, k);
      assert l in r.irr - r.imr;
      var best := BestLine(r.add, r.irr - r.imr);
      assert Deliverable(r, best);
    }
    if Requesting(r) {
      var l :| Deliverable(r, l);
      assert l in r.irr && l !in r.imr;
    }
  }

  /** In-service lines in the order of their acknowledgement: each outranks all before it. */
  ghost predicate Nested(stack: seq<Line>, add: Line) {
    forall i, j :: 0 <= i < j < |stack| ==> Rank(add, stack[j]) < Rank(add, stack[i])
  }

  function Elements(stack: seq<Line>): set<Line> {
    set l | l in stack
  }

  /** Making the popped line the lowest keeps the order of the lines that it outranked. */
  lemma RotationKeepsOrder(stack: seq<Line>, add: Line, l: Line)
    requires Nested(stack, add) && forall k :: k in stack ==> Rank(add, l) < Rank(add, k)
    ensures Nested(stack, Next(l))
  {
    forall i, j | 0 <= i < j < |stack|
      ensures Rank(Next(l), stack[j]) < Rank(Next(l), stack[i])
    {
      RotatedRank(add, l, stack[i]);
      RotatedRank(add, l, stack[j]);
    }
  }

  lemma RotatedRank(add: Line, l: Line, k: Line)
    requires Rank(add, l) < Rank(add, k)
    ensures Rank(Next(l), k) == Rank(add, k) - Rank(add, l) - 1
  {
  }

  /** The stack without one of its lines. */
  function Without(stack: seq<Line>, l: Line): seq<Line> {
    if stack == [] then []
    else if stack[|stack| - 1] == l then Without(stack[..|stack| - 1], l)
    else Without(stack[..|stack| - 1], l) + [stack[|stack| - 1]]
  }

  lemma {:induction false} WithoutElements(stack: seq<Line>, l: Line)
    ensures Elements(Without(stack, l)) == Elements(stack) - {l}
  {
    if stack != [] {
      var n := |stack| - 1;
      WithoutElements(stack[..n], l);
      assert stack == stack[..n] + [stack[n]];
      ElementsAppend(stack[..n], stack[n]);
      ElementsAppend(Without(stack[..n], l), stack[n]);
    }
  }

  lemma ElementsAppend(stack: seq<Line>, l: Line)
    ensures Elements(stack + [l]) == Elements(stack) + {l}
  {
    forall k | k in Elements(stack) + {l}
      ensures k in Elements(stack + [l])
    {
      if k in stack {
        var i :| 0 <= i < |stack| && stack[i] == k;
        assert (stack + [l])[i] == k;
      } else {
        assert (stack + [l])[|stack|] == k;
      }
    }
  }

  lemma {:induction false} WithoutNested(stack: seq<Line>, add: Line, l: Line)
    requires Nested(stack, add)
    ensures Nested(Without(stack, l), add)
  {
    if stack != [] {
      var n := |stack| - 1;
      WithoutNested(stack[..n], add, l);
      var rest := Without(stack[..n], l);
      forall i | 0 <= i < |rest|
        ensures Rank(add, stack[n]) < Rank(add, rest[i])
      {
        WithoutElements(stack[..n], l);
        assert rest[i] in Elements(rest);
      }
    }
  }

  lemma {:induction false} WithoutAbsent(stack: seq<Line>, l: Line)
    requires l !in stack
    ensures Without(stack, l) == stack
  {
    if stack != [] {
      var n := |stack| - 1;
      assert l !in stack[..n];
      WithoutAbsent(stack[..n], l);
      assert stack == stack[..n] + [stack[n]];
    }
  }

  /** Removing the last line of a nested stack pops it. */
  lemma WithoutTop(stack: seq<Line>, add: Line)
    requires Nested(stack, add) && stack != []
    ensures Without(stack, stack[|stack| - 1]) == stack[..|stack| - 1]
  {
    WithoutAbsent(stack[..|stack| - 1], stack[|stack| - 1]);
  }

  lemma EmptyStack(stack: seq<Line>)
    ensures Elements(stack) == {} <==> stack == []
  {
    if stack != [] { assert stack[0] in Elements(stack); }
  }

  /** In a nested stack the best rank in service is the line acknowledged last. */
  lemma TopIsBest(stack: seq<Line>, add: Line, p: nat)
    requires Nested(stack, add) && stack != []
    requires IsPriority(add, Elements(stack), p)
    ensures p < 8 && LineOf(add, p) == stack[|stack| - 1]
  {
    var top := stack[|stack| - 1];
    assert top in Elements(stack);
    assert LineOf(add, p) in Elements(stack);
    var i :| 0 <= i < |stack| && stack[i] == LineOf(add, p);
    RankOfLine(add, top, p);
  }
}

module Pic {
  import opened PicPriority

  /** The structure of one chip. */
  datatype PicState = PicState(lastIrr: set<Line>, irr: set<Line>, imr: set<Line>, isr: set<Line>, add: Line, mode: Modes, icw: Icw)

  /** The modes that commands set. */
  datatype Modes = Modes(readIsr: bool, poll: bool, specialMask: bool, autoEoi: bool, rotateOnAutoEoi: bool, fullyNestedSpecial: bool)

  /** How far the initialisation sequence has come, and what it has set; `state` is 0 outside it. */
  datatype Icw = Icw(state: nat, init4: bool, single: bool, irqBase: bv8)

  const RESET_MODES := Modes(false, false, false, false, false, false)
  const RESET := PicState({}, {}, {}, {}, 0, RESET_MODES, Icw(0, false, false, 0))

  /** The registers that decide on requests; special fully nested mode is the master's alone. */
  function Registers(s: PicState, isMaster: bool): Regs {
    Regs(s.irr, s.imr, s.isr, s.add, s.mode.specialMask, s.mode.fullyNestedSpecial && isMaster)
  }

  function BitOf(l: Line): bv8 {
    match l
    case 0 => 0x01 case 1 => 0x02 case 2 => 0x04 case 3 => 0x08
    case 4 => 0x10 case 5 => 0x20 case 6 => 0x40 case 7 => 0x80
  }

  /** The lines whose bits are set in a byte. */
  function Lines(val: bv8): set<Line> {
    set l: Line | 0 <= l < 8 && val & BitOf(l) != 0
  }

  /** `val & 7`. */
  function LowLine(val: bv8): Line {
    (if val & 4 != 0 then 4 else 0) + (if val & 2 != 0 then 2 else 0) + (if val & 1 != 0 then 1 else 0)
  }

  predicate IsSet(val: bv8, k: nat)
    requires k < 8
  {
    (val >> k) & 1 == 1
  }

  /** Bit `l` of the mask byte is line `l`. */
  lemma LinesAreBits(val: bv8, l: Line)
    ensures l in Lines(val) <==> IsSet(val, l)
  {
    match l
    case 0 =>
    case 1 =>
    case 2 =>
    case 3 =>
    case 4 =>
    case 5 =>
    case 6 =>
    case 7 =>
  }

  /** The line in the lowest three bits of a command. */
  lemma LowLineIs(val: bv8)
    ensures (val & 7 == 0 <==> LowLine(val) == 0) && (val & 7 == 1 <==> LowLine(val) == 1)
    ensures (val & 7 == 2 <==> LowLine(val) == 2) && (val & 7 == 3 <==> LowLine(val) == 3)
    ensures (val & 7 == 4 <==> LowLine(val) == 4) && (val & 7 == 5 <==> LowLine(val) == 5)
    ensures (val & 7 == 6 <==> LowLine(val) == 6) && (val & 7 == 7 <==> LowLine(val) == 7)
  {
  }

  /** Edge detection: a request is latched when its line rises. */
  function SetLine(s: PicState, irq: Line, level: bool): PicState {
    if level then
      s.(irr := if irq in s.lastIrr then s.irr else s.irr + {irq}, lastIrr := s.lastIrr + {irq})
    else
      s.(lastIrr := s.lastIrr - {irq})
  }

  /** Line by line: only a rising edge makes a request, and a falling one takes none back. */
  lemma EdgesLatch(s: PicState, irq: Line, level: bool, l: Line)
    ensures var t := SetLine(s, irq, level);
      && (l in t.irr <==> l in s.irr || (l == irq && level && l !in s.lastIrr))
      && (l in t.lastIrr <==> if l == irq then level else l in s.lastIrr)
      && t == s.(irr := t.irr, lastIrr := t.lastIrr)
  {
  }

  function Acknowledged(s: PicState, irq: Line): PicState {
    if s.mode.autoEoi then s.(irr := s.irr - {irq}, add := if s.mode.rotateOnAutoEoi then Next(irq) else s.add)
    else s.(irr := s.irr - {irq}, isr := s.isr + {irq})
  }

  /** The lines in service, oldest first, after the acknowledgement of `irq`. */
  function Pushed(stack: seq<Line>, s: PicState, irq: Line): seq<Line> {
    if s.mode.autoEoi || irq in s.isr then stack else stack + [irq]
  }

  /** The stack is the in-service register, and each line outranks those below it. */
  ghost predicate InOrder(stack: seq<Line>, s: PicState) {
    Elements(stack) == s.isr && Nested(stack, s.add)
  }

  /** In fully nested mode an acknowledged line outranks all lines in service. */
  lemma AcknowledgePushes(stack: seq<Line>, s: PicState, isMaster: bool, irq: Line)
    requires InOrder(stack, s) && Deliverable(Registers(s, isMaster), irq)
    requires !s.mode.specialMask && !(s.mode.fullyNestedSpecial && isMaster)
    ensures irq !in s.isr && forall l :: l in s.isr ==> Rank(s.add, irq) < Rank(s.add, l)
    ensures InOrder(Pushed(stack, s, irq), Acknowledged(s, irq))
  {
    assert Blocking(Registers(s, isMaster)) == s.isr;
    forall i | 0 <= i < |stack|
      ensures Rank(s.add, irq) < Rank(s.add, stack[i])
    {
      assert stack[i] in Elements(stack);
    }
    ElementsAppend(stack, irq);
    if s.mode.autoEoi && s.mode.rotateOnAutoEoi { RotationKeepsOrder(stack, s.add, irq); }
  }

  method GetPriority(add: Line, mask: set<Line>) returns (priority: nat)
    ensures IsPriority(add, mask, priority)
  {
    if mask == {} { return 8; }
    ghost var l :| l in mask;
    priority := 0;
    while LineOf(add, priority) !in mask
      invariant priority <= Rank(add, l)
      invariant forall k :: k in mask ==> priority <= Rank(add, k)
      decreases 8 - priority
    {
      forall k | k in mask
        ensures priority < Rank(add, k)
      {
        RankOfLine(add, k, priority);
      }
      priority := priority + 1;
    }
  }

  /** The line that a chip wants served, or -1. */
  method GetIrq(s: PicState, isMaster: bool) returns (irq: int)
    ensures -1 <= irq < 8
    ensures irq >= 0 ==> Deliverable(Registers(s, isMaster), irq)
    ensures irq >= 0 <==> Requesting(Registers(s, isMaster))
  {
    var priority := GetPriority(s.add, s.irr - s.imr);
    if priority == 8 { return -1; }
    var mask := s.isr;
    if s.mode.specialMask { mask := mask - s.imr; }
    if s.mode.fullyNestedSpecial && isMaster { mask := mask - {2}; }
    assert mask == Blocking(Registers(s, isMaster));
    var current := GetPriority(s.add, mask);
    RankOfLine(s.add, 0, priority);
    if priority < current {
      irq := LineOf(s.add, priority);
      assert Deliverable(Registers(s, isMaster), irq);
    } else {
      irq := -1;
      RankOfLine(s.add, 0, current);
      assert LineOf(s.add, current) in mask && LineOf(s.add, priority) in s.irr - s.imr;
    }
  }

  /** What a byte written to the command port asks for. */
  datatype Command =
    | Init(init4: bool, single: bool, level: bool)
    | Mode(poll: bool, select: bool, readIsr: bool, setMask: bool, specialMask: bool)
    | AutoRotate(on: bool)
    | Eoi(rotate: bool)
    | SpecificEoi(irq: Line, rotate: bool)
    | SetPriority(lowest: Line)
    | NoOperation

  function Decode(val: bv8): Command {
    if val & 0x10 != 0 then Init(val & 0x01 != 0, val & 0x02 != 0, val & 0x08 != 0)
    else if val & 0x08 != 0 then Mode(val & 0x04 != 0, val & 0x02 != 0, val & 0x01 != 0, val & 0x40 != 0, val & 0x20 != 0)
    else
      var rotate := val & 0x80 != 0;
      if val & 0x20 != 0 then
        (if val & 0x40 != 0 then SpecificEoi(LowLine(val), rotate) else Eoi(rotate))
      else if val & 0x40 != 0 then (if rotate then SetPriority(LowLine(val)) else NoOperation)
      else AutoRotate(rotate)
  }

  /** The command bytes by their bits: bits 4 and 3 tell the kinds apart, and of the third kind bits 7 to 5 the eight commands. */
  lemma CommandTable(val: bv8)
    ensures Decode(val).Init? <==> IsSet(val, 4)
    ensures Decode(val).Mode? <==> !IsSet(val, 4) && IsSet(val, 3)
    ensures IsSet(val, 4) ==> Decode(val) == Init(IsSet(val, 0), IsSet(val, 1), IsSet(val, 3))
    ensures !IsSet(val, 4) && IsSet(val, 3) ==>
      Decode(val) == Mode(IsSet(val, 2), IsSet(val, 1), IsSet(val, 0), IsSet(val, 6), IsSet(val, 5))
    ensures !IsSet(val, 4) && !IsSet(val, 3) ==>
      Decode(val) == match val >> 5
                     case 0 => AutoRotate(false)
                     case 1 => Eoi(false)
                     case 2 => NoOperation
                     case 3 => SpecificEoi(LowLine(val), false)
                     case 4 => AutoRotate(true)
                     case 5 => Eoi(true)
                     case 6 => SetPriority(LowLine(val))
                     case _ => SpecificEoi(LowLine(val), true)
  {
    hide LowLine;
  }

  /** A line leaves service and may become the lowest. */
  function Retired(s: PicState, l: Line, rotate: bool): PicState {
    s.(isr := s.isr - {l}, add := if rotate then Next(l) else s.add)
  }

  /**
   Line by line: an acknowledged line leaves the requests and enters service, or with automatic end of interrupt does not
   and may become the lowest; a retired line leaves service and may become the lowest.
   */
  lemma ServiceByLine(s: PicState, irq: Line, rotate: bool, l: Line)
    ensures var t := Acknowledged(s, irq);
      && (l in t.irr <==> l in s.irr && l != irq)
      && (l in t.isr <==> l in s.isr || (l == irq && !s.mode.autoEoi))
      && (if s.mode.autoEoi && s.mode.rotateOnAutoEoi then Rank(t.add, irq) == 7 else t.add == s.add)
      && t == s.(irr := t.irr, isr := t.isr, add := t.add)
    ensures var t := Retired(s, irq, rotate);
      && (l in t.isr <==> l in s.isr && l != irq)
      && (if rotate then Rank(t.add, irq) == 7 else t.add == s.add)
      && t == s.(isr := t.isr, add := t.add)
  {
  }

  /** The best line in service, on which a non-specific end of interrupt works. */
  ghost predicate BestInService(s: PicState, l: Line) {
    l in s.isr && forall k :: k in s.isr ==> Rank(s.add, l) <= Rank(s.add, k)
  }

  /** What each command makes of a chip. */
  ghost predicate Effect(cmd: Command, s: PicState, s': PicState) {
    match cmd
    case Init(init4, single, _) =>
      s' == PicState({}, {}, {}, {}, 0, Modes(false, false, false, false, false, false), Icw(1, init4, single, 0))
    case Mode(poll, select, readIsr, setMask, specialMask) =>
      s' == s.(mode := s.mode.(poll := s.mode.poll || poll, readIsr := if select then readIsr else s.mode.readIsr,
                               specialMask := if setMask then specialMask else s.mode.specialMask))
    case AutoRotate(on) => s' == s.(mode := s.mode.(rotateOnAutoEoi := on))
    case Eoi(rotate) => if s.isr == {} then s' == s else exists l :: BestInService(s, l) && s' == Retired(s, l, rotate)
    case SpecificEoi(l, rotate) => s' == Retired(s, l, rotate)
    case SetPriority(l) => s' == s.(add := Next(l))
    case NoOperation => s' == s
  }

  /** The stack that a command leaves. */
  function Popped(cmd: Command, stack: seq<Line>): seq<Line> {
    match cmd
    case Init(_, _, _) => []
    case Eoi(_) => if stack == [] then [] else stack[..|stack| - 1]
    case SpecificEoi(l, _) => Without(stack, l)
    case _ => stack
  }

  /** Commands that may reorder the lines in service. */
  predicate Reorders(cmd: Command) {
    cmd.SetPriority? || (cmd.SpecificEoi? && cmd.rotate)
  }

  /** A non-specific end of interrupt takes exactly the last acknowledged line. */
  lemma EoiPops(stack: seq<Line>, s: PicState, l: Line, rotate: bool)
    requires InOrder(stack, s) && BestInService(s, l)
    ensures stack != [] && l == stack[|stack| - 1]
    ensures InOrder(stack[..|stack| - 1], Retired(s, l, rotate))
  {
    EmptyStack(stack);
    var n := |stack| - 1;
    RankOfLine(s.add, l, 0);
    TopIsBest(stack, s.add, Rank(s.add, l));
    WithoutTop(stack, s.add);
    WithoutElements(stack, l);
    forall i | 0 <= i < n
      ensures Rank(s.add, l) < Rank(s.add, stack[i])
    {
    }
    RotationKeepsOrder(stack[..n], s.add, l);
  }

  lemma CommandKeepsOrder(cmd: Command, stack: seq<Line>, s: PicState, s': PicState)
    requires InOrder(stack, s) && Effect(cmd, s, s') && !Reorders(cmd)
    ensures InOrder(Popped(cmd, stack), s')
  {
    EmptyStack(stack);
    match cmd
    case Eoi(rotate) =>
      if s.isr != {} {
        var l :| BestInService(s, l) && s' == Retired(s, l, rotate);
        EoiPops(stack, s, l, rotate);
      }
    case SpecificEoi(l, _) =>
      WithoutElements(stack, l);
      WithoutNested(stack, s.add, l);
    case _ =>
  }

  /** A request is left that the CPU has not been told of. */
  ghost predicate Stranded(master: PicState, intr: bool) {
    Requesting(Registers(master, true)) && !intr
  }

  /** A request that the slave would put forward is pending on the master's line 2. */
  ghost predicate Forwarded(master: PicState, slave: PicState) {
    Requesting(Registers(slave, false)) ==> 2 in master.irr
  }

  /** The master after a request of the slave, if there is one, has pulsed its line 2. */
  ghost function Pulsed(master: PicState, slave: PicState): PicState {
    if Requesting(Registers(slave, false)) then SetLine(SetLine(master, 2, true), 2, false) else master
  }

  lemma PulsedForwards(master: PicState, slave: PicState)
    ensures var m := Pulsed(master, slave);
            && m == master.(irr := m.irr, lastIrr := m.lastIrr)
            && (2 !in master.lastIrr ==> Forwarded(m, slave) && 2 !in m.lastIrr)
  {
    hide Requesting, Registers;
  }

  lemma NoRequests(s: PicState, isMaster: bool)
    ensures s.irr == {} ==> !Requesting(Registers(s, isMaster))
  {
  }

  /** The sequence after one of its bytes. */
  function IcwWritten(i: Icw, val: bv8): Icw {
    if i.state == 1 then i.(irqBase := val & 0xf8, state := if i.single then (if i.init4 then 3 else 0) else 2)
    else if i.state == 2 then i.(state := if i.init4 then 3 else 0)
    else if i.state == 3 then i.(state := 0)
    else i
  }

  /** The chip after a byte has been written to its data port. */
  function DataWritten(s: PicState, val: bv8): PicState {
    if s.icw.state == 0 then s.(imr := Lines(val))
    else if s.icw.state == 3 then
      s.(icw := IcwWritten(s.icw, val), mode := s.mode.(fullyNestedSpecial := val & 0x10 != 0, autoEoi := val & 0x02 != 0))
    else s.(icw := IcwWritten(s.icw, val))
  }

  /**
   The initialisation: its first data byte gives the vectors' upper five bits, the second is for the cascade and comes
   unless the chip is single, and the last comes if it has been announced.
   */
  lemma IcwByte(i: Icw, val: bv8)
    ensures var j := IcwWritten(i, val);
      && j == i.(irqBase := j.irqBase, state := j.state)
      && (if i.state == 1 then UpperFive(val, j.irqBase) else j.irqBase == i.irqBase)
      && (i.state == 1 && !i.single ==> j.state == 2)
      && ((i.state == 1 && i.single) || i.state == 2 ==> j.state == if i.init4 then 3 else 0)
      && (i.state == 3 ==> j.state == 0)
  {
    hide UpperFive;
    VectorBits(val);
  }

  /** Outside the initialisation a data byte is the mask, and the last byte of the initialisation gives two modes. */
  lemma DataByte(s: PicState, val: bv8)
    ensures var t := DataWritten(s, val);
      && t == s.(imr := t.imr, icw := t.icw, mode := s.mode.(fullyNestedSpecial := t.mode.fullyNestedSpecial, autoEoi := t.mode.autoEoi))
      && (if s.icw.state == 0 then forall l: Line :: l in t.imr <==> IsSet(val, l) else t.imr == s.imr)
      && t.icw == (if s.icw.state == 0 then s.icw else IcwWritten(s.icw, val))
      && (if s.icw.state == 3 then t.mode.fullyNestedSpecial == IsSet(val, 4) && t.mode.autoEoi == IsSet(val, 1) else t.mode == s.mode)
  {
    hide Lines, IsSet, IcwWritten;
    if s.icw.state == 0 {
      forall l: Line ensures l in Lines(val) <==> IsSet(val, l) { LinesAreBits(val, l); }
    } else {
      VectorBits(val);
    }
  }

  /** `base` has the upper five bits of `val` and no others. */
  predicate UpperFive(val: bv8, base: bv8) {
    base >> 3 == val >> 3 && base & 7 == 0
  }

  lemma VectorBits(val: bv8)
    ensures UpperFive(val, val & 0xf8)
    ensures (val & 0x10 != 0 <==> IsSet(val, 4)) && (val & 0x02 != 0 <==> IsSet(val, 1))
  {
  }

  /** The last initialisation byte puts the master in special fully nested mode. */
  predicate SetsSpecialNesting(master: PicState, toSlave: bool, val: bv8) {
    !toSlave && master.icw.state == 3 && val & 0x10 != 0
  }

  /** A polled line is neither pending nor in service. */
  function Taken(s: PicState, l: Line): PicState {
    s.(irr := s.irr - {l}, isr := s.isr - {l})
  }

  lemma TakenKeepsOrder(stack: seq<Line>, s: PicState, l: Line)
    ensures InOrder(stack, s) ==> InOrder(Without(stack, l), Taken(s, l))
  {
    WithoutElements(stack, l);
    if Nested(stack, s.add) { WithoutNested(stack, s.add, l); }
  }

  lemma PollCleared(stack: seq<Line>, s: PicState)
    ensures var s' := s.(mode := s.mode.(poll := false));
            (InOrder(stack, s) <==> InOrder(stack, s')) && Registers(s', true) == Registers(s, true)
  {
  }

  lemma AcknowledgeKeepsModes(s: PicState, l: Line)
    ensures Acknowledged(s, l).mode == s.mode && Acknowledged(s, l).icw == s.icw
  {
  }

  lemma PollKeepsModes(master: PicState, slave: PicState)
    ensures forall l :: Taken(master, l).mode == master.mode && Taken(slave, l).mode == slave.mode
  {
  }

  lemma DataWrittenFields(s: PicState, val: bv8)
    ensures var s' := DataWritten(s, val);
            && s'.isr == s.isr && s'.irr == s.irr && s'.add == s.add
            && (s.icw.state != 0 ==> s'.imr == s.imr)
            && s'.mode.specialMask == s.mode.specialMask
            && s'.mode.fullyNestedSpecial == if s.icw.state == 3 then val & 0x10 != 0 else s.mode.fullyNestedSpecial
  {
    hide Lines;
    hide IcwWritten;
  }

  /** A data byte leaves the order alone, and requests too unless it sets the mask or the modes. */
  lemma DataWrittenKeeps(s: PicState, val: bv8, stack: seq<Line>)
    ensures var s' := DataWritten(s, val);
            && (InOrder(stack, s) <==> InOrder(stack, s'))
            && s'.mode.specialMask == s.mode.specialMask
            && s'.mode.fullyNestedSpecial == (if s.icw.state == 3 then val & 0x10 != 0 else s.mode.fullyNestedSpecial)
            && (s.icw.state != 0 && s.icw.state != 3 ==> Registers(s', true) == Registers(s, true))
  {
    hide DataWritten, Nested, Elements;
    DataWrittenFields(s, val);
  }

  /** Commands after which the requests are looked at again. */
  predicate Updates(cmd: Command, s: PicState) {
    match cmd
    case Eoi(_) => s.isr != {}
    case SpecificEoi(_, _) => true
    case SetPriority(_) => true
    case _ => false
  }

  /** The pair of chips and the interrupt latch of the CPU. */
  datatype Pair = Pair(master: PicState, slave: PicState, intr: bool)

  /** The state after requests have been looked at again: `m` and `s` are the chips before. */
  ghost predicate Updated(m: PicState, s: PicState, intr: bool, p': Pair) {
    p'.slave == s && p'.master == Pulsed(m, s) && (p'.intr <==> intr || Requesting(Registers(p'.master, true)))
  }

  /** Writes that leave one chip as `after`, with or without an update. */
  ghost predicate Rewritten(p: Pair, toSlave: bool, after: PicState, update: bool, p': Pair) {
    var m, s := if toSlave then p.master else after, if toSlave then after else p.slave;
    if update then Updated(m, s, p.intr, p') else p' == Pair(m, s, p.intr)
  }

  ghost predicate Commanded(p: Pair, toSlave: bool, cmd: Command, after: PicState, p': Pair) {
    var before := if toSlave then p.slave else p.master;
    Effect(cmd, before, after) && Rewritten(p, toSlave, after, Updates(cmd, before), p')
  }

  /** The acknowledge cycle: the master's best request is `line`, and the slave's, through line 2, `sub`. */
  ghost predicate Acks(p: Pair, line: int, sub: int, no: nat, p': Pair) {
    && -1 <= line < 8 && (line >= 0 <==> Requesting(Registers(p.master, true)))
    && (line >= 0 ==> Deliverable(Registers(p.master, true), line))
    && -1 <= sub < 8 && (sub >= 0 <==> line == 2 && Requesting(Registers(p.slave, false)))
    && (sub >= 0 ==> Deliverable(Registers(p.slave, false), sub))
    && no == (if line == 2 then p.slave.icw.irqBase as nat + (if sub == -1 then 7 else sub)
              else p.master.icw.irqBase as nat + (if line == -1 then 7 else line))
    && Updated(if line == -1 then p.master else Acknowledged(p.master, line),
               if sub == -1 then p.slave else Acknowledged(p.slave, sub), p.intr, p')
  }

  /** A poll takes the best request of a chip, and line 2 of the master if it is the slave's. */
  ghost predicate PollTakes(p: Pair, fromSlave: bool, ret: nat, p': Pair) {
    var s := if fromSlave then p.slave else p.master;
    var taken := Requesting(Registers(s, !fromSlave));
    && ret < 8
    && (if taken then Deliverable(Registers(s, !fromSlave), ret) else ret == 7)
    && var s' := if taken then Taken(s, ret) else s;
       if fromSlave then Updated(if taken then Taken(p.master, 2) else p.master, s', p.intr, p')
       else if taken && ret == 2 then p' == Pair(s', p.slave, p.intr)
       else Updated(s', p.slave, p.intr, p')
  }

  function PollOff(p: Pair, ofSlave: bool): Pair {
    if ofSlave then p.(slave := p.slave.(mode := p.slave.mode.(poll := false)))
    else p.(master := p.master.(mode := p.master.mode.(poll := false)))
  }

  /** A request that the slave would put forward is pending on the master's line 2, which is low. */
  ghost predicate Cascaded(p: Pair) {
    Forwarded(p.master, p.slave) && 2 !in p.master.lastIrr
  }

  /** What an event does; `line` and `sub` are the lines that it acknowledges. */
  ghost predicate Does(op: Op, p: Pair, o: Out, p': Pair) {
    match op
    case SetIrqOp(irq, level) =>
      o == Quiet
      && Updated(if irq < 8 then SetLine(p.master, irq, level) else p.master,
                 if irq < 8 then p.slave else SetLine(p.slave, irq - 8, level), p.intr, p')
    case CommandOp(toSlave, val) => o == Quiet && exists after :: Commanded(p, toSlave, Decode(val), after, p')
    case DataOp(toSlave, val) =>
      var before := if toSlave then p.slave else p.master;
      o == Quiet && Rewritten(p, toSlave, DataWritten(before, val), before.icw.state == 0, p')
    case ReadOp(fromSlave, data) =>
      var s := if fromSlave then p.slave else p.master;
      if s.mode.poll then
        o.Port? && o.value.Polled? && exists q :: PollTakes(p, fromSlave, o.value.irq, q) && p' == PollOff(q, fromSlave)
      else
        p' == p && o == Port(Register(if data then s.imr else if s.mode.readIsr then s.isr else s.irr))
    case StepOp(interruptFlag) =>
      if interruptFlag && p.intr then
        o.Interrupt? && Acks(p.(intr := false), o.line, o.sub, o.no, p')
      else
        p' == p && o == Quiet
  }

  /**
   Events after which a request of the slave is missing from the master's line 2, or that line is high. All are
   told from the state before: the slave is asked for requests as `pic_get_irq` would find them.
   */
  ghost predicate Unhooks(op: Op, p: Pair) {
    match op
    case SetIrqOp(irq, level) => irq == 2 && level && !Requesting(Registers(p.slave, false))
    case CommandOp(toSlave, val) =>
      var cmd := Decode(val);
      if toSlave then
        cmd.Mode? && cmd.setMask && cmd.specialMask && 2 !in p.master.irr
        && AnyOutranks(p.slave.irr, p.slave.imr, p.slave.add, p.slave.isr - p.slave.imr)
      else cmd.Init? && Requesting(Registers(p.slave, false))
    case ReadOp(fromSlave, _) =>
      !fromSlave && p.master.mode.poll && Deliverable(Registers(p.master, true), 2) && Requesting(Registers(p.slave, false))
    case _ => false
  }

  /** The slave's requests stay pending on the master exactly if the event does not unhook them. */
  lemma StaysCascaded(op: Op, p: Pair, o: Out, p': Pair)
    requires Cascaded(p) && Does(op, p, o, p')
    ensures Cascaded(p') <==> !Unhooks(op, p)
  {
    hide Requesting, Deliverable, Decode, Lines, Effect, Pulsed, Forwarded, DataWritten, AnyOutranks, Registers;
    match op
    case SetIrqOp(irq, level) =>
      LineCascades(p, irq, level, p');
    case CommandOp(toSlave, val) =>
      var after :| Commanded(p, toSlave, Decode(val), after, p');
      CommandCascades(p, toSlave, Decode(val), after, p');
    case DataOp(toSlave, val) =>
      DataCascades(p, toSlave, val, p');
    case ReadOp(fromSlave, data) =>
      if (if fromSlave then p.slave else p.master).mode.poll {
        var q :| PollTakes(p, fromSlave, o.value.irq, q) && p' == PollOff(q, fromSlave);
        PollCascades(p, fromSlave, o.value.irq, q);
      }
    case StepOp(interruptFlag) =>
      if interruptFlag && p.intr {
        UpdatedCascades(if o.line == -1 then p.master else Acknowledged(p.master, o.line),
                        if o.sub == -1 then p.slave else Acknowledged(p.slave, o.sub), false, p');
      }
  }

  lemma LineCascades(p: Pair, irq: Irq, level: bool, p': Pair)
    requires Cascaded(p) && Does(SetIrqOp(irq, level), p, Quiet, p')
    ensures Cascaded(p') <==> !Unhooks(SetIrqOp(irq, level), p)
  {
    hide Requesting, Deliverable, Registers;
    var m, s := if irq < 8 then SetLine(p.master, irq, level) else p.master, if irq < 8 then p.slave else SetLine(p.slave, irq - 8, level);
    if 2 !in m.lastIrr { UpdatedCascades(m, s, p.intr, p'); }
  }

  lemma UpdatedCascades(m: PicState, s: PicState, intr: bool, p': Pair)
    requires Updated(m, s, intr, p') && 2 !in m.lastIrr
    ensures Cascaded(p')
  {
    hide Requesting;
    PulsedForwards(m, s);
  }

  lemma CommandCascades(p: Pair, toSlave: bool, cmd: Command, after: PicState, p': Pair)
    requires Cascaded(p) && Commanded(p, toSlave, cmd, after, p')
    ensures Cascaded(p') <==>
      !(if toSlave then
          cmd.Mode? && cmd.setMask && cmd.specialMask && 2 !in p.master.irr
          && AnyOutranks(p.slave.irr, p.slave.imr, p.slave.add, p.slave.isr - p.slave.imr)
        else cmd.Init? && Requesting(Registers(p.slave, false)))
  {
    hide Deliverable, Requesting, Rank, AnyOutranks;
    var m, s := if toSlave then p.master else after, if toSlave then after else p.slave;
    assert 2 !in m.lastIrr;
    if Updates(cmd, if toSlave then p.slave else p.master) {
      UpdatedCascades(m, s, p.intr, p');
    } else if cmd.Init? {
      NoRequests(after, false);
    } else if toSlave && cmd.Mode? && cmd.setMask {
      SlaveMasks(p.slave, after, cmd);
    } else {
      assert m.irr == p.master.irr && Registers(s, false) == Registers(p.slave, false);
    }
  }

  /** Special mask mode opens a chip to requests that outrank the unmasked lines in service; leaving it opens it to none. */
  lemma SlaveMasks(s: PicState, after: PicState, cmd: Command)
    requires cmd.Mode? && cmd.setMask && Effect(cmd, s, after)
    ensures cmd.specialMask ==>
      (Requesting(Registers(after, false)) <==> AnyOutranks(s.irr, s.imr, s.add, s.isr - s.imr))
    ensures !cmd.specialMask && Requesting(Registers(after, false)) ==> Requesting(Registers(s, false))
  {
    hide Requesting, Rank;
    OutranksIsRequesting(Registers(after, false));
    OutranksIsRequesting(Registers(s, false));
    assert Blocking(Registers(after, false)) == if cmd.specialMask then s.isr - s.imr else s.isr;
    assert Blocking(Registers(s, false)) <= s.isr;
  }

  lemma DataCascades(p: Pair, toSlave: bool, val: bv8, p': Pair)
    requires Cascaded(p) && Does(DataOp(toSlave, val), p, Quiet, p')
    ensures Cascaded(p')
  {
    hide Deliverable, Requesting, Rank, Lines;
    var before := if toSlave then p.slave else p.master;
    var after := DataWritten(before, val);
    var m, s := if toSlave then p.master else after, if toSlave then after else p.slave;
    DataWrittenFields(before, val);
    assert m.lastIrr == p.master.lastIrr && m.irr == p.master.irr;
    if before.icw.state == 0 {
      UpdatedCascades(m, s, p.intr, p');
    } else {
      assert Registers(s, false) == Registers(p.slave, false);
    }
  }

  lemma PollCascades(p: Pair, fromSlave: bool, ret: nat, q: Pair)
    requires Cascaded(p) && PollTakes(p, fromSlave, ret, q)
    ensures Cascaded(PollOff(q, fromSlave)) <==>
      !(!fromSlave && Deliverable(Registers(p.master, true), 2) && Requesting(Registers(p.slave, false)))
  {
    hide Deliverable, Requesting, Rank;
    var s := if fromSlave then p.slave else p.master;
    var taken := Requesting(Registers(s, !fromSlave));
    PollOffKeeps(q, fromSlave);
    if fromSlave {
      UpdatedCascades(if taken then Taken(p.master, 2) else p.master, if taken then Taken(p.slave, ret) else p.slave, p.intr, q);
    } else {
      PolledLine(p.master, ret);
      if !(taken && ret == 2) { UpdatedCascades(if taken then Taken(p.master, ret) else p.master, p.slave, p.intr, q); }
    }
  }

  lemma PollOffKeeps(q: Pair, ofSlave: bool)
    ensures Cascaded(PollOff(q, ofSlave)) == Cascaded(q)
  {
    hide Requesting;
    assert Registers(PollOff(q, ofSlave).slave, false) == Registers(q.slave, false);
  }

  /** The line that a poll of the master takes is 2 exactly if 2 is the deliverable one. */
  lemma PolledLine(m: PicState, ret: nat)
    requires if Requesting(Registers(m, true)) then ret < 8 && Deliverable(Registers(m, true), ret) else ret == 7
    ensures Requesting(Registers(m, true)) && ret == 2 <==> Deliverable(Registers(m, true), 2)
  {
    hide Registers;
    if Deliverable(Registers(m, true), 2) { DeliverableUnique(Registers(m, true), 2, ret); }
  }

  /** Initialising the master while the slave requests: line 2 is forgotten. */
  lemma UnhookExample(p: Pair)
    requires p == Pair(RESET.(irr := {2}), RESET.(irr := {1}), true)
    ensures Cascaded(p) && Decode(0x11) == Init(true, false, false) && Unhooks(CommandOp(false, 0x11), p)
    ensures var p' := p.(master := RESET.(icw := Icw(1, true, false, 0)));
      Does(CommandOp(false, 0x11), p, Quiet, p') && !Cascaded(p')
  {
    assert Deliverable(Registers(p.slave, false), 1);
    var p' := p.(master := RESET.(icw := Icw(1, true, false, 0)));
    assert Commanded(p, false, Decode(0x11), p'.master, p');
  }

  /** In fully nested mode both chips serve lines in the order of their ranks; each stack has the latest one last. */
  ghost predicate Ordered(stacks: (seq<Line>, seq<Line>), p: Pair) {
    && InOrder(stacks.0, p.master) && InOrder(stacks.1, p.slave)
    && !p.master.mode.specialMask && !p.master.mode.fullyNestedSpecial && !p.slave.mode.specialMask
  }

  /** None of the first `k` events reorders the lines in service. */
  predicate AllStayNested(ops: seq<Op>, trace: seq<Pair>, k: nat)
    requires k <= |ops| && k <= |trace|
  {
    forall j :: 0 <= j < k ==> StaysNested(ops[j], trace[j])
  }

  /** None of the first `k` events unhooks a request of the slave. */
  ghost predicate NoneUnhooks(ops: seq<Op>, trace: seq<Pair>, k: nat)
    requires k <= |ops| && k <= |trace|
  {
    forall j :: 0 <= j < k ==> !Unhooks(ops[j], trace[j])
  }

  lemma LongerTrace(ops: seq<Op>, trace: seq<Pair>, p: Pair, n: nat)
    requires |trace| == n + 1 <= |ops|
    ensures forall k :: 0 <= k <= n ==> AllStayNested(ops, trace + [p], k) == AllStayNested(ops, trace, k)
    ensures forall k :: 0 <= k <= n ==> NoneUnhooks(ops, trace + [p], k) == NoneUnhooks(ops, trace, k)
    ensures AllStayNested(ops, trace + [p], n + 1) ==> AllStayNested(ops, trace, n) && StaysNested(ops[n], trace[n])
    ensures NoneUnhooks(ops, trace + [p], n + 1) ==> NoneUnhooks(ops, trace, n) && !Unhooks(ops[n], trace[n])
  {
    hide StaysNested, Unhooks;
    assert forall j :: 0 <= j <= n ==> (trace + [p])[j] == trace[j];
    forall k | 0 <= k <= n ensures AllStayNested(ops, trace + [p], k) == AllStayNested(ops, trace, k)
                                   && NoneUnhooks(ops, trace + [p], k) == NoneUnhooks(ops, trace, k)
    {
    }
    if AllStayNested(ops, trace + [p], n + 1) { assert StaysNested(ops[n], (trace + [p])[n]); }
    if NoneUnhooks(ops, trace + [p], n + 1) { assert !Unhooks(ops[n], (trace + [p])[n]); }
  }

  /** Events that leave both chips in fully nested mode, with the lines in service in the order of their ranks. */
  predicate StaysNested(op: Op, p: Pair) {
    match op
    case CommandOp(_, val) =>
      var cmd := Decode(val);
      !Reorders(cmd) && !(cmd.Mode? && cmd.setMask && cmd.specialMask)
    case DataOp(toSlave, val) => !SetsSpecialNesting(p.master, toSlave, val)
    case _ => true
  }

  // ---------- stranded requests ----------

  /**
   The events that free a request of the master without telling the CPU: a mode command that enters special mask
   mode, and the initialisation byte that enters special fully nested mode, when some request of the state before
   outranks the lines that still block it.
   */
  predicate Strands(op: Op, p: Pair) {
    var m := p.master;
    match op
    case CommandOp(toSlave, val) =>
      var cmd := Decode(val);
      && !toSlave && cmd.Mode? && cmd.setMask && cmd.specialMask && !p.intr
      && AnyOutranks(m.irr, m.imr, m.add, m.isr - m.imr - (if m.mode.fullyNestedSpecial then {2} else {}))
    case DataOp(toSlave, val) =>
      && !toSlave && m.icw.state == 3 && val & 0x10 != 0 && !p.intr
      && AnyOutranks(m.irr, m.imr, m.add, (if m.mode.specialMask then m.isr - m.imr else m.isr) - {2})
    case _ => false
  }

  /** A request is stranded by exactly these events. */
  lemma StrandsExactly(op: Op, p: Pair, o: Out, p': Pair)
    requires !Stranded(p.master, p.intr) && Does(op, p, o, p')
    ensures Stranded(p'.master, p'.intr) <==> Strands(op, p)
  {
    hide Requesting, Deliverable, Decode, Lines, Effect, Pulsed, DataWritten, AnyOutranks, Registers;
    match op
    case SetIrqOp(_, _) =>
    case CommandOp(toSlave, val) =>
      var after :| Commanded(p, toSlave, Decode(val), after, p');
      CommandStrands(p, toSlave, Decode(val), after, p');
    case DataOp(toSlave, val) =>
      DataStrands(p, toSlave, val, p');
    case ReadOp(fromSlave, _) =>
      if (if fromSlave then p.slave else p.master).mode.poll {
        var q :| PollTakes(p, fromSlave, o.value.irq, q) && p' == PollOff(q, fromSlave);
        PollOffRegisters(q, fromSlave);
      }
    case StepOp(_) =>
  }

  lemma PollOffRegisters(q: Pair, ofSlave: bool)
    ensures Registers(PollOff(q, ofSlave).master, true) == Registers(q.master, true) && PollOff(q, ofSlave).intr == q.intr
  {
  }

  lemma CommandStrands(p: Pair, toSlave: bool, cmd: Command, after: PicState, p': Pair)
    requires !Stranded(p.master, p.intr) && Commanded(p, toSlave, cmd, after, p')
    ensures Stranded(p'.master, p'.intr) <==>
      !toSlave && cmd.Mode? && cmd.setMask && cmd.specialMask && !p.intr
      && AnyOutranks(p.master.irr, p.master.imr, p.master.add, p.master.isr - p.master.imr - (if p.master.mode.fullyNestedSpecial then {2} else {}))
  {
    hide Deliverable, Requesting, Rank, AnyOutranks;
    if !toSlave && !Updates(cmd, p.master) {
      if cmd.Init? {
        NoRequests(after, true);
      } else if cmd.Mode? && cmd.setMask {
        MasterMasks(p.master, after, cmd);
      } else {
        assert Registers(after, true) == Registers(p.master, true);
      }
    }
  }

  lemma MasterMasks(m: PicState, after: PicState, cmd: Command)
    requires cmd.Mode? && cmd.setMask && Effect(cmd, m, after)
    ensures cmd.specialMask ==>
      (Requesting(Registers(after, true)) <==>
       AnyOutranks(m.irr, m.imr, m.add, m.isr - m.imr - (if m.mode.fullyNestedSpecial then {2} else {})))
    ensures !cmd.specialMask && Requesting(Registers(after, true)) ==> Requesting(Registers(m, true))
  {
    hide Requesting, Rank;
    OutranksIsRequesting(Registers(after, true));
    OutranksIsRequesting(Registers(m, true));
    var two: set<Line> := if m.mode.fullyNestedSpecial then {2} else {};
    assert Blocking(Registers(after, true)) == (if cmd.specialMask then m.isr - m.imr else m.isr) - two;
    assert Blocking(Registers(m, true)) <= m.isr - two;
  }

  lemma DataStrands(p: Pair, toSlave: bool, val: bv8, p': Pair)
    requires !Stranded(p.master, p.intr) && Does(DataOp(toSlave, val), p, Quiet, p')
    ensures Stranded(p'.master, p'.intr) <==> Strands(DataOp(toSlave, val), p)
  {
    hide Deliverable, Requesting, Rank, AnyOutranks, Lines;
    if !toSlave && p.master.icw.state != 0 {
      var after := DataWritten(p.master, val);
      DataWrittenFields(p.master, val);
      if p.master.icw.state == 3 {
        NestsSpecially(p.master, after, val & 0x10 != 0);
      } else {
        assert Registers(after, true) == Registers(p.master, true);
      }
    }
  }

  lemma NestsSpecially(m: PicState, after: PicState, on: bool)
    requires after.isr == m.isr && after.irr == m.irr && after.add == m.add && after.imr == m.imr
    requires after.mode.specialMask == m.mode.specialMask && after.mode.fullyNestedSpecial == on
    ensures on ==> (Requesting(Registers(after, true)) <==>
                    AnyOutranks(m.irr, m.imr, m.add, (if m.mode.specialMask then m.isr - m.imr else m.isr) - {2}))
    ensures !on && Requesting(Registers(after, true)) ==> Requesting(Registers(m, true))
  {
    hide Requesting, Rank;
    OutranksIsRequesting(Registers(after, true));
    OutranksIsRequesting(Registers(m, true));
    var base := if m.mode.specialMask then m.isr - m.imr else m.isr;
    assert Blocking(Registers(after, true)) == base - if on then {2} else {};
    assert Blocking(Registers(m, true)) <= base;
  }

  datatype PortValue = Register(lines: set<Line>) | Polled(irq: nat)

  /** What an event shows: the value of a port, or the interrupt taken, for lines `line` and `sub`. */
  datatype Out = Quiet | Port(value: PortValue) | Interrupt(no: nat, line: int, sub: int)

  type Irq = n: nat | n < 16 witness 0

  datatype Op =
    | SetIrqOp(irq: Irq, level: bool)
    | CommandOp(toSlave: bool, val: bv8)
    | DataOp(toSlave: bool, val: bv8)
    | ReadOp(fromSlave: bool, data: bool)
    | StepOp(interruptFlag: bool)

  /** The pair of chips and the interrupt latch of the CPU. */
  class PicPair {
    var master: PicState
    var slave: PicState
    var intr: bool

    ghost var masterStack: seq<Line>
    ghost var slaveStack: seq<Line>

    ghost function Now(): Pair
      reads `master, `slave, `intr
    {
      Pair(master, slave, intr)
    }

    /** No request that the master would put forward is unknown to the CPU. */
    ghost predicate NoneStranded()
      reads this
    {
      !Stranded(master, intr)
    }

    /** Both chips are in fully nested mode and serve their lines in nested order. */
    ghost predicate FullyNested()
      reads this
    {
      && InOrder(masterStack, master) && InOrder(slaveStack, slave)
      && !master.mode.specialMask && !master.mode.fullyNestedSpecial && !slave.mode.specialMask
    }

    lemma NestedNow()
      ensures FullyNested() <==> Ordered((masterStack, slaveStack), Now())
    {
      hide InOrder;
    }

    constructor ()
      ensures master == slave == RESET && !intr
      ensures NoneStranded() && Cascaded(Now()) && FullyNested()
    {
      master, slave, intr := RESET, RESET, false;
      masterStack, slaveStack := [], [];
    }

    /** Forwards the slave's request to the master and the master's to the CPU. */
    method UpdateIrq()
      modifies this`master, this`intr
      ensures Updated(old(master), slave, old(intr), Now())
      ensures NoneStranded() && (old(FullyNested()) ==> FullyNested())
    {
      hide Requesting, Deliverable;
      var irq2 := GetIrq(slave, false);
      if irq2 >= 0 {
        master := SetLine(master, 2, true);
        master := SetLine(master, 2, false);
      }
      var irq := GetIrq(master, true);
      if irq >= 0 { intr := true; }
    }

    method SetIrq(irq: Irq, level: bool)
      modifies this`master, this`slave, this`intr
      ensures Does(SetIrqOp(irq, level), old(Now()), Quiet, Now())
      ensures NoneStranded() && (old(FullyNested()) ==> FullyNested())
    {
      hide Updated, Requesting, Deliverable;
      if irq < 8 {
        master := SetLine(master, irq, level);
      } else {
        slave := SetLine(slave, irq - 8, level);
      }
      UpdateIrq();
    }

    /** The slave's half of an acknowledge cycle; without a request it reports line 7. */
    method AckSlave() returns (intno: nat, ghost sub: int)
      modifies `slave, `slaveStack
      ensures -1 <= sub < 8 && (sub >= 0 <==> Requesting(Registers(old(slave), false)))
      ensures sub >= 0 ==> Deliverable(Registers(old(slave), false), sub)
      ensures slave == if sub == -1 then old(slave) else Acknowledged(old(slave), sub)
      ensures slave.mode == old(slave.mode) && slave.icw == old(slave.icw)
      ensures slaveStack == if sub == -1 then old(slaveStack) else Pushed(old(slaveStack), old(slave), sub)
      ensures intno == slave.icw.irqBase as nat + if sub == -1 then 7 else sub
      ensures old(InOrder(slaveStack, slave) && !slave.mode.specialMask) ==>
        InOrder(slaveStack, slave)
        && (sub >= 0 ==> forall l :: l in old(slave.isr) ==> Rank(old(slave.add), sub) < Rank(old(slave.add), l))
    {
      hide Requesting, Deliverable, Rank, Registers, Acknowledged, Pushed, InOrder;
      sub := -1;
      var irq2 := GetIrq(slave, false);
      if irq2 >= 0 {
        if InOrder(slaveStack, slave) && !slave.mode.specialMask { AcknowledgePushes(slaveStack, slave, false, irq2); }
        AcknowledgeKeepsModes(slave, irq2);
        slaveStack := Pushed(slaveStack, slave, irq2);
        slave := Acknowledged(slave, irq2);
        sub := irq2;
      } else {
        irq2 := 7;
      }
      intno := slave.icw.irqBase as nat + irq2;
    }

    method AckMaster() returns (irq: int)
      modifies `master, `masterStack
      ensures -1 <= irq < 8 && (irq >= 0 <==> Requesting(Registers(old(master), true)))
      ensures irq >= 0 ==> Deliverable(Registers(old(master), true), irq)
      ensures master == if irq == -1 then old(master) else Acknowledged(old(master), irq)
      ensures master.mode == old(master.mode) && master.icw == old(master.icw)
      ensures masterStack == if irq == -1 then old(masterStack) else Pushed(old(masterStack), old(master), irq)
      ensures old(InOrder(masterStack, master) && !master.mode.specialMask && !master.mode.fullyNestedSpecial) ==>
        InOrder(masterStack, master)
        && (irq >= 0 ==> forall l :: l in old(master.isr) ==> Rank(old(master.add), irq) < Rank(old(master.add), l))
    {
      hide Requesting, Deliverable, Rank, Registers, Acknowledged, Pushed, InOrder;
      irq := GetIrq(master, true);
      if irq >= 0 {
        if InOrder(masterStack, master) && !master.mode.specialMask && !master.mode.fullyNestedSpecial {
          AcknowledgePushes(masterStack, master, true, irq);
        }
        AcknowledgeKeepsModes(master, irq);
        masterStack := Pushed(masterStack, master, irq);
        master := Acknowledged(master, irq);
      }
    }

    /**
     The acknowledge cycle serves the master's best request, `line`, and through line 2 the
     slave's, `sub`; -1 stands for a spurious interrupt, reported as line 7.
     */
    method ReadIrq() returns (intno: nat, ghost line: int, ghost sub: int)
      modifies this
      ensures NoneStranded() && Acks(old(Now()), line, sub, intno, Now())
      ensures masterStack == if line == -1 then old(masterStack) else Pushed(old(masterStack), old(master), line)
      ensures slaveStack == if sub == -1 then old(slaveStack) else Pushed(old(slaveStack), old(slave), sub)
      ensures old(FullyNested()) ==>
                && FullyNested()
                && (line >= 0 ==> forall l :: l in old(master.isr) ==> Rank(old(master.add), line) < Rank(old(master.add), l))
                && (sub >= 0 ==> forall l :: l in old(slave.isr) ==> Rank(old(slave.add), sub) < Rank(old(slave.add), l))
    {
      hide Requesting, Deliverable, Updated, Rank, Registers, Acknowledged, Pushed, InOrder;
      var irq := AckMaster();
      line, sub := irq, -1;
      if irq == 2 {
        intno, sub := AckSlave();
      } else {
        intno := master.icw.irqBase as nat + if irq >= 0 then irq else 7;
      }
      UpdateIrq();
    }

    /** The interrupt check at the start of a CPU step. */
    method Step(interruptFlag: bool) returns (ghost o: Out, no: int)
      requires NoneStranded()
      modifies this
      ensures NoneStranded() && (old(FullyNested()) ==> FullyNested())
      ensures Does(StepOp(interruptFlag), old(Now()), o, Now())
      ensures no == if o.Interrupt? then o.no else -1
      ensures interruptFlag && Requesting(Registers(old(master), true)) ==>
                o.Interrupt? && 0 <= o.line < 8 && Deliverable(Registers(old(master), true), o.line)
    {
      hide Deliverable, Requesting, Updated;
      no, o := -1, Quiet;
      if interruptFlag && intr {
        intr := false;
        ghost var line, sub;
        no, line, sub := ReadIrq();
        o := Interrupt(no, line, sub);
      }
    }

    /** Takes the best line of a chip out of service; no update follows if there is none. */
    method EndOfInterrupt(s: PicState, rotate: bool) returns (s': PicState, update: bool)
      ensures Effect(Eoi(rotate), s, s') && (!update ==> s' == s) && (update <==> s.isr != {})
    {
      var priority := GetPriority(s.add, s.isr);
      s', update := s, priority != 8;
      if update {
        RankOfLine(s.add, 0, priority);
        var irq := LineOf(s.add, priority);
        assert BestInService(s, irq);
        s' := Retired(s, irq, rotate);
      } else {
        assert forall l :: l in s.isr ==> 8 <= Rank(s.add, l);
        assert s.isr == {};
      }
    }

    /**
     A write to the command port of one chip, which leaves it as `after`; `aborted` when
     level-triggered mode is asked for. Only a mode command to the master can strand a request, and `Strands` says when.
     */
    method WriteCommand(toSlave: bool, val: bv8) returns (aborted: bool, ghost after: PicState)
      requires NoneStranded()
      modifies this
      ensures Commanded(old(Now()), toSlave, Decode(val), after, Now())
      ensures var cmd := Decode(val);
              && (aborted <==> cmd.Init? && cmd.level)
              && (NoneStranded() <==> !Strands(CommandOp(toSlave, val), old(Now())))
              && masterStack == (if toSlave then old(masterStack) else Popped(cmd, old(masterStack)))
              && slaveStack == (if toSlave then Popped(cmd, old(slaveStack)) else old(slaveStack))
              && (old(FullyNested()) && !Reorders(cmd) && !(cmd.Mode? && cmd.setMask && cmd.specialMask) ==> FullyNested())
    {
      hide Decode, Requesting, Deliverable, Lines, Nested, Elements, Rank, Without, Updated, Updates, AnyOutranks, Strands;
      ghost var p := Now();
      var cmd := Decode(val);
      var s := if toSlave then slave else master;
      ghost var before, stack := s, if toSlave then slaveStack else masterStack;
      var update;
      s, update := Execute(s, cmd);
      aborted := cmd.Init? && cmd.level;
      after := s;
      if FullyNested() && !Reorders(cmd) { CommandKeepsOrder(cmd, stack, before, s); }
      if toSlave {
        slave, slaveStack := s, Popped(cmd, stack);
      } else {
        master, masterStack := s, Popped(cmd, stack);
      }
      if update { UpdateIrq(); }
      assert Commanded(p, toSlave, cmd, after, Now());
      StrandsExactly(CommandOp(toSlave, val), p, Quiet, Now());
    }

    method SetMode(m: Modes, cmd: Command) returns (m': Modes)
      requires cmd.Mode?
      ensures m' == m.(poll := m.poll || cmd.poll, readIsr := if cmd.select then cmd.readIsr else m.readIsr,
                       specialMask := if cmd.setMask then cmd.specialMask else m.specialMask)
    {
      m' := m;
      if cmd.poll { m' := m'.(poll := true); }
      if cmd.select { m' := m'.(readIsr := cmd.readIsr); }
      if cmd.setMask { m' := m'.(specialMask := cmd.specialMask); }
    }

    /** What a command does to the chip, and whether the requests are looked at again. */
    method Execute(s: PicState, cmd: Command) returns (s': PicState, update: bool)
      ensures Effect(cmd, s, s') && update == Updates(cmd, s)
      ensures !update && !cmd.Mode? ==> Registers(s', true) == Registers(s, true) || !Requesting(Registers(s', true))
      ensures cmd.Mode? ==> !update
      ensures !s.mode.specialMask && !(cmd.Mode? && cmd.setMask && cmd.specialMask) ==> !s'.mode.specialMask
      ensures !s.mode.fullyNestedSpecial ==> !s'.mode.fullyNestedSpecial
    {
      hide Deliverable, Requesting, Rank, BestInService, Lines, Without, Nested, Elements;
      s', update := s, false;
      match cmd {
        case Init(init4, single, _) =>
          s' := RESET.(icw := Icw(1, init4, single, 0));
          NoRequests(s', true);
        case Mode(poll, select, readIsr, setMask, specialMask) =>
          var mode := SetMode(s.mode, cmd);
          s' := s.(mode := mode);
        case AutoRotate(on) => s' := s.(mode := s.mode.(rotateOnAutoEoi := on));
        case Eoi(rotate) => s', update := EndOfInterrupt(s, rotate);
        case SpecificEoi(irq, rotate) => s', update := Retired(s, irq, rotate), true;
        case SetPriority(lowest) => s', update := s.(add := Next(lowest)), true;
        case NoOperation =>
      }
    }

    /**
     A write to the data port of one chip, which leaves it as `after`. Only the last
     initialisation byte of the master can strand a request, and `Strands` says when.
     */
    method WriteData(toSlave: bool, val: bv8) returns (ghost after: PicState)
      requires NoneStranded()
      modifies this`master, this`slave, this`intr
      ensures after == DataWritten(if toSlave then old(slave) else old(master), val)
      ensures Does(DataOp(toSlave, val), old(Now()), Quiet, Now())
      ensures NoneStranded() <==> !Strands(DataOp(toSlave, val), old(Now()))
      ensures old(FullyNested()) && !SetsSpecialNesting(old(master), toSlave, val) ==> FullyNested()
    {
      hide Requesting, Deliverable, DataWritten, Updated, InOrder, Registers, Strands;
      ghost var p := Now();
      DataWrittenKeeps(master, val, masterStack);
      DataWrittenKeeps(slave, val, slaveStack);
      var s := DataWritten(if toSlave then slave else master, val);
      var update := (if toSlave then slave else master).icw.state == 0;
      after := s;
      if toSlave { slave := s; } else { master := s; }
      if update { UpdateIrq(); }
      StrandsExactly(DataOp(toSlave, val), p, Quiet, Now());
    }

    /** `pic_poll_read`. */
    method Poll(fromSlave: bool) returns (ret: nat)
      requires NoneStranded()
      modifies this
      ensures NoneStranded() && PollTakes(old(Now()), fromSlave, ret, Now())
      ensures old(FullyNested()) ==> FullyNested()
    {
      hide Requesting, Deliverable, Updated, Taken, InOrder;
      PollKeepsModes(master, slave);
      var irq := GetIrq(if fromSlave then slave else master, !fromSlave);
      if irq >= 0 {
        ret := irq;
        if fromSlave {
          TakenKeepsOrder(masterStack, master, 2);
          TakenKeepsOrder(slaveStack, slave, ret);
          master, masterStack := Taken(master, 2), Without(masterStack, 2);
          slave, slaveStack := Taken(slave, ret), Without(slaveStack, ret);
        } else {
          assert Requesting(Registers(master, true)) && intr;
          TakenKeepsOrder(masterStack, master, ret);
          master, masterStack := Taken(master, ret), Without(masterStack, ret);
        }
        if fromSlave || ret != 2 { UpdateIrq(); }
      } else {
        ret := 7;
        UpdateIrq();
      }
    }

    /** A read of either port of one chip. */
    method ReadPort(fromSlave: bool, data: bool) returns (ret: PortValue)
      requires NoneStranded()
      modifies this
      ensures NoneStranded() && Does(ReadOp(fromSlave, data), old(Now()), Port(ret), Now())
      ensures old(FullyNested()) ==> FullyNested()
    {
      hide Requesting, Deliverable, PollTakes, InOrder;
      var s := if fromSlave then slave else master;
      if s.mode.poll {
        var irq := Poll(fromSlave);
        ret := Polled(irq);
        ghost var q := Now();
        if fromSlave {
          PollCleared(slaveStack, slave);
          slave := slave.(mode := slave.mode.(poll := false));
        } else {
          PollCleared(masterStack, master);
          master := master.(mode := master.mode.(poll := false));
        }
        assert Now() == PollOff(q, fromSlave);
      } else {
        ret := Register(if data then s.imr else if s.mode.readIsr then s.isr else s.irr);
      }
    }

    /** One event that strands no request. */
    method Do(op: Op) returns (ghost o: Out)
      requires NoneStranded() && !Strands(op, Now())
      modifies this
      ensures NoneStranded() && Does(op, old(Now()), o, Now())
      ensures old(FullyNested()) && StaysNested(op, old(Now())) ==> FullyNested()
    {
      hide NoneStranded, FullyNested, Does, Decode, Strands, Reorders, SetsSpecialNesting, Deliverable, Requesting;
      match op {
        case SetIrqOp(irq, level) =>
          SetIrq(irq, level);
          o := Quiet;
        case CommandOp(toSlave, val) =>
          DoCommand(toSlave, val);
          o := Quiet;
        case DataOp(toSlave, val) =>
          var _ := WriteData(toSlave, val);
          o := Quiet;
        case ReadOp(fromSlave, data) =>
          var ret := ReadPort(fromSlave, data);
          o := Port(ret);
        case StepOp(interruptFlag) =>
          var no;
          o, no := Step(interruptFlag);
      }
    }

    method DoCommand(toSlave: bool, val: bv8)
      requires NoneStranded() && !Strands(CommandOp(toSlave, val), Now())
      modifies this
      ensures NoneStranded() && Does(CommandOp(toSlave, val), old(Now()), Quiet, Now())
      ensures old(FullyNested()) && StaysNested(CommandOp(toSlave, val), old(Now())) ==> FullyNested()
    {
      hide Decode, Requesting, Reorders, InOrder, Updated, Updates, Strands, Popped;
      ghost var p := Now();
      ghost var after;
      var aborted;
      aborted, after := WriteCommand(toSlave, val);
      assert Commanded(p, toSlave, Decode(val), after, Now());
    }

    /**
     Any run, up to the first event that strands a request: every event does what it should and no request is
     ever stranded. At every point up to which no event has reordered the lines in service, they are nested, in the
     order of `stacks`, and the slave's requests are pending on the master as long as no event has unhooked them.
     */
    method Run(ops: seq<Op>) returns (done: nat, ghost trace: seq<Pair>, ghost outs: seq<Out>, ghost stacks: seq<(seq<Line>, seq<Line>)>)
      requires NoneStranded()
      modifies this
      ensures NoneStranded()
      ensures done <= |ops| && (done < |ops| ==> Strands(ops[done], Now()))
      ensures |trace| == done + 1 && |outs| == done && trace[0] == old(Now()) && trace[done] == Now()
      ensures forall k :: 0 <= k < done ==> Does(ops[k], trace[k], outs[k], trace[k + 1])
      ensures forall k :: 0 <= k <= done ==> !Stranded(trace[k].master, trace[k].intr)
      ensures |stacks| == done + 1 && stacks[0] == old((masterStack, slaveStack)) && stacks[done] == (masterStack, slaveStack)
      ensures old(FullyNested()) ==> forall k :: 0 <= k <= done && AllStayNested(ops, trace, k) ==> Ordered(stacks[k], trace[k])
      ensures Cascaded(trace[0]) ==> forall k :: 0 <= k <= done && NoneUnhooks(ops, trace, k) ==> Cascaded(trace[k])
    {
      hide FullyNested, Ordered, Does, Strands, Stranded, Cascaded, Unhooks, StaysNested, AllStayNested, NoneUnhooks;
      done, trace, outs, stacks := 0, [Now()], [], [(masterStack, slaveStack)];
      NestedNow();
      while done < |ops| && !Strands(ops[done], Pair(master, slave, intr))
        invariant done <= |ops| && NoneStranded()
        invariant |trace| == done + 1 && |outs| == done && trace[0] == old(Now()) && trace[done] == Now()
        invariant forall k :: 0 <= k < done ==> Does(ops[k], trace[k], outs[k], trace[k + 1])
        invariant forall k :: 0 <= k <= done ==> !Stranded(trace[k].master, trace[k].intr)
        invariant |stacks| == done + 1 && stacks[0] == old((masterStack, slaveStack)) && stacks[done] == (masterStack, slaveStack)
        invariant old(FullyNested()) ==> forall k :: 0 <= k <= done && AllStayNested(ops, trace, k) ==> Ordered(stacks[k], trace[k])
        invariant Cascaded(trace[0]) ==> forall k :: 0 <= k <= done && NoneUnhooks(ops, trace, k) ==> Cascaded(trace[k])
      {
        ghost var before := Now();
        NestedNow();
        ghost var o := Do(ops[done]);
        if Cascaded(before) { StaysCascaded(ops[done], before, o, Now()); }
        NestedNow();
        LongerTrace(ops, trace, Now(), done);
        trace, outs, stacks := trace + [Now()], outs + [o], stacks + [(masterStack, slaveStack)];
        done := done + 1;
      }
    }
  }

  /** Line 1 waits behind line 0; special mask mode frees it, and the CPU is not told. */
  lemma SpecialMaskStrandsExample(m: PicState)
    requires m == RESET.(irr := {1}, isr := {0}, imr := {0})
    ensures !Stranded(m, false) && Decode(0x68) == Mode(false, false, false, true, true)
    ensures Stranded(m.(mode := m.mode.(specialMask := true)), false)
  {
    assert Blocking(Registers(m, true)) == {0};
    assert !Requesting(Registers(m, true));
    var r := Registers(m.(mode := m.mode.(specialMask := true)), true);
    assert Deliverable(r, 1);
  }

  /** Line 5 waits behind the cascade line; special fully nested mode frees it. */
  lemma SpecialNestingStrandsExample(m: PicState)
    requires m == RESET.(irr := {5}, isr := {2}, icw := Icw(3, true, false, 0))
    ensures !Stranded(m, false) && Stranded(DataWritten(m, 0x10), false)
  {
    assert Blocking(Registers(m, true)) == {2};
    assert !Requesting(Registers(m, true));
    assert Deliverable(Registers(DataWritten(m, 0x10), true), 5);
  }
}
