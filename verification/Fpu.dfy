/**
 The register file of the floating-point unit. A register that FRSTOR loads is kept as its 80-bit
 pattern and decoded when it is first read; one that is written is encoded when FNSAVE stores it.
 A program tells this from a register file that converts nothing behind its back exactly if it
 reads back, after FNSAVE, a pattern that does not survive the conversion.
 */
module Fpu {
  import opened FloatBits

  type Control = x: int | 0 <= x < 0x1_0000 witness 0

  // ---------- the register file without a cache ----------

  datatype Register = Raw(bits: F80) | Written(value: F64)

  type Index = x: int | 0 <= x < 8 witness 0

  /** `sw` with the top of the stack in bits 11 to 13. */
  datatype Plain = Plain(cw: Control, sw: Control, top: Index, regs: seq<Register>)

  predicate Valid80(f: F80) { f.high < 0x1_0000 && f.mant < TWO64 }

  /** What FNSAVE stores, without the environment that the core leaves empty. */
  datatype Image = Image(cw: Control, sw: Control, regs: seq<F80>)

  predicate ValidImage(i: Image) { |i.regs| == 8 && forall j :: 0 <= j < 8 ==> Valid80(i.regs[j]) }

  predicate ValidPlain(p: Plain) {
    |p.regs| == 8 && forall j :: 0 <= j < 8 ==> p.regs[j].Raw? ==> Valid80(p.regs[j].bits)
  }

  function ValueOf(r: Register): nat {
    match r
    case Raw(f) => FromF80(f)
    case Written(v) => v
  }

  function BitsOf(r: Register): F80 {
    match r
    case Raw(f) => f
    case Written(v) => ToF80(v)
  }

  function Physical(top: Index, i: nat): Index { (top + i) % 8 }

  /** `(sw & 0xc7ff) | top << 11`. */
  function StatusWord(sw: Control, top: Index): Control {
    sw - sw / 0x800 % 8 * 0x800 + top * 0x800
  }

  datatype Op =
    | Get(i: nat) | Set(i: nat, v: F64) | Push(v: F64) | Pop
    | Save | Restore(image: Image)

  datatype Out = Value(v: nat) | Saved(image: Image)

  /** Images are of the right shape. */
  predicate Legal(op: Op) { op.Restore? ==> ValidImage(op.image) }

  function Step(p: Plain, op: Op): (seq<Out>, Plain)
    requires ValidPlain(p) && Legal(op)
  {
    match op
    case Get(i) => ([Value(ValueOf(p.regs[Physical(p.top, i)]))], p)
    case Set(i, v) => ([], p.(regs := p.regs[Physical(p.top, i) := Written(v)]))
    case Push(v) => var top := Physical(p.top, 7); ([], p.(top := top, regs := p.regs[top := Written(v)]))
    case Pop => ([], p.(top := Physical(p.top, 1)))
    case Save =>
      ([Saved(ImageOf(p))], Plain(0x37f, 0, 0, p.regs))
    case Restore(image) =>
      ([], Plain(image.cw, image.sw, image.sw / 0x800 % 8, seq(8, j requires 0 <= j < 8 => Raw(image.regs[j]))))
  }

  function ImageOf(p: Plain): Image
    requires ValidPlain(p)
  {
    Image(p.cw, StatusWord(p.sw, p.top), seq(8, j requires 0 <= j < 8 => BitsOf(p.regs[j])))
  }

  /** A value that is pushed becomes ST(0), what was ST(i) becomes ST(i + 1), and a pop brings the old numbering back. */
  lemma PushRenumbers(p: Plain, v: F64, i: nat)
    requires ValidPlain(p) && i < 7
    ensures var q := Step(p, Push(v)).1;
            && ValidPlain(q) && Step(q, Get(0)).0 == [Value(v)] && Step(q, Get(i + 1)).0 == Step(p, Get(i)).0
            && Step(q, Pop).1.top == p.top
  {
    StepValid(p, Push(v));
  }

  /** ST(i) of a restored image is the register that lies `i` above the top that the status word names in bits 11 to 13. */
  lemma RestoredRegister(p: Plain, image: Image, i: nat)
    requires ValidPlain(p) && ValidImage(image)
    ensures var q := Step(p, Restore(image)).1;
            ValidPlain(q) && Step(q, Get(i)).0 == [Value(FromF80(image.regs[(image.sw / 0x800 % 8 + i) % 8]))]
  {
    hide FromF80, ToF80;
    StepValid(p, Restore(image));
    var top := image.sw / 0x800 % 8;
    assert Step(p, Restore(image)).1.regs[(top + i) % 8] == Raw(image.regs[(top + i) % 8]);
  }

  lemma StepValid(p: Plain, op: Op)
    requires ValidPlain(p) && Legal(op)
    ensures ValidPlain(Step(p, op).1)
  {
  }

  predicate AllLegal(ops: seq<Op>) { forall i :: 0 <= i < |ops| ==> Legal(ops[i]) }

  function RunPlain(p: Plain, ops: seq<Op>): (seq<Out>, Plain)
    requires ValidPlain(p) && AllLegal(ops)
    decreases |ops|
  {
    if ops == [] then ([], p) else
    StepValid(p, ops[0]);
    var (o, p1) := Step(p, ops[0]);
    var (os, p2) := RunPlain(p1, ops[1..]);
    (o + os, p2)
  }

  lemma TopComesBack(sw: Control, top: Index)
    ensures StatusWord(sw, top) / 0x800 % 8 == top && StatusWord(StatusWord(sw, top), top) == StatusWord(sw, top)
  {
    var low, high := sw % 0x800, sw / 0x4000;
    assert sw == 0x4000 * high + 0x800 * (sw / 0x800 % 8) + low by {
      assert sw / 0x800 / 8 == sw / 0x4000;
    }
    var w: int := StatusWord(sw, top);
    assert w == 0x800 * (8 * high + top) + low;
    assert w / 0x800 == 8 * high + top;
  }

  lemma BitsFit(p: Plain, j: int)
    requires ValidPlain(p) && 0 <= j < 8
    ensures Valid80(BitsOf(p.regs[j]))
  {
    hide ToF80;
    if p.regs[j].Written? { ToF80Fits(p.regs[j].value); }
  }

  /**
   Saving and then restoring gives back the control word, the status word with top, the pattern of every
   register that was not written, and exactly those written values that survive the conversion.
   */
  lemma SaveThenRestore(p: Plain)
    requires ValidPlain(p)
    ensures var image := Step(p, Save).0[0].image;
            && ValidImage(image)
            && (forall j :: 0 <= j < 8 ==> p.regs[j].Raw? ==> image.regs[j] == p.regs[j].bits)
            && var p2 := Step(Step(p, Save).1, Restore(image)).1;
               && p2.cw == p.cw && p2.top == p.top && StatusWord(p2.sw, p2.top) == StatusWord(p.sw, p.top)
               && forall j :: 0 <= j < 8 ==>
                    (ValueOf(p2.regs[j]) == ValueOf(p.regs[j]) <==> (p.regs[j].Written? ==> Exact(p.regs[j].value)))
  {
    hide FromF80, ToF80, Exact, StatusWord, Valid80;
    TopComesBack(p.sw, p.top);
    forall j | 0 <= j < 8
      ensures Valid80(BitsOf(p.regs[j]))
      ensures FromF80(BitsOf(p.regs[j])) == ValueOf(p.regs[j]) <==> (p.regs[j].Written? ==> Exact(p.regs[j].value))
    {
      BitsFit(p, j);
      if p.regs[j].Written? { RoundTrip(p.regs[j].value); }
    }
  }

  // ---------- the register file with its cache ----------

  /** `seen`: the pattern has been decoded since it was loaded; `saved`: the value is not newer than the pattern. */
  datatype Cell = Cell(reg: Register, seen: bool, saved: bool)

  datatype Cached = Cached(cw: Control, sw: Control, top: Index, cells: seq<Cell>)

  ghost predicate ValidCached(c: Cached) {
    |c.cells| == 8 && forall j :: 0 <= j < 8 ==> c.cells[j].reg.Raw? ==> c.cells[j].saved && Valid80(c.cells[j].reg.bits)
  }

  /** The value was written, has been encoded, and reads back as another one. */
  predicate Stale(c: Cell) { c.reg.Written? && c.saved && !c.seen && !Exact(c.reg.value) }

  predicate ReadsStaleNow(c: Cached, op: Op)
    requires |c.cells| == 8
  {
    op.Get? && Stale(c.cells[Physical(c.top, op.i)])
  }

  function ReadCell(c: Cell): (nat, Cell) {
    if Stale(c) then (FromF80(ToF80(c.reg.value)), Cell(Raw(ToF80(c.reg.value)), true, true))
    else (ValueOf(c.reg), if c.saved then c.(seen := true) else c)
  }

  function WriteCell(c: Cell, v: F64): Cell { Cell(Written(v), c.seen, false) }

  /** The registers without their history. */
  ghost function Erased(c: Cached): (p: Plain)
    requires ValidCached(c)
    ensures ValidPlain(p)
  {
    Plain(c.cw, c.sw, c.top, seq(8, j requires 0 <= j < 8 => c.cells[j].reg))
  }

  ghost function StepCached(c: Cached, op: Op): (r: (seq<Out>, Cached))
    requires ValidCached(c) && Legal(op)
    ensures ValidCached(r.1)
  {
    hide FromF80, ToF80, Exact;
    match op
    case Get(i) =>
      var k := Physical(c.top, i);
      var (v, cell) := ReadCell(c.cells[k]);
      ReadCellFits(c.cells[k]);
      ([Value(v)], c.(cells := c.cells[k := cell]))
    case Set(i, v) =>
      var k := Physical(c.top, i);
      ([], c.(cells := c.cells[k := WriteCell(c.cells[k], v)]))
    case Push(v) =>
      var top := Physical(c.top, 7);
      ([], c.(top := top, cells := c.cells[top := WriteCell(c.cells[top], v)]))
    case Pop => ([], c.(top := Physical(c.top, 1)))
    case Save =>
      ([Saved(ImageOf(Erased(c)))], Cached(0x37f, 0, 0, seq(8, j requires 0 <= j < 8 => c.cells[j].(saved := true))))
    case Restore(image) =>
      ([], Cached(image.cw, image.sw, image.sw / 0x800 % 8, seq(8, j requires 0 <= j < 8 => Cell(Raw(image.regs[j]), false, true))))
  }

  lemma ReadCellFits(c: Cell)
    requires c.reg.Raw? ==> c.saved && Valid80(c.reg.bits)
    ensures var r := ReadCell(c).1.reg; r.Raw? ==> ReadCell(c).1.saved && Valid80(r.bits)
  {
    hide FromF80, ToF80, Exact;
    if c.reg.Written? { ToF80Fits(c.reg.value); }
  }

  ghost function RunCached(c: Cached, ops: seq<Op>): (seq<Out>, Cached)
    requires ValidCached(c) && AllLegal(ops)
    decreases |ops|
  {
    if ops == [] then ([], c) else
    var (o, c1) := StepCached(c, ops[0]);
    var (os, c2) := RunCached(c1, ops[1..]);
    (o + os, c2)
  }

  /** Somewhere in the run a stale register is read. */
  ghost predicate ReadsStale(c: Cached, ops: seq<Op>)
    requires ValidCached(c) && AllLegal(ops)
    decreases |ops|
  {
    ops != [] && (ReadsStaleNow(c, ops[0]) || ReadsStale(StepCached(c, ops[0]).1, ops[1..]))
  }

  /** One step gives what the plain register file gives, unless it reads a stale register; then it gives another value. */
  lemma StepAgrees(c: Cached, op: Op)
    requires ValidCached(c) && Legal(op)
    ensures |StepCached(c, op).0| == |Step(Erased(c), op).0|
    ensures StepCached(c, op).0 == Step(Erased(c), op).0 <==> !ReadsStaleNow(c, op)
    ensures !ReadsStaleNow(c, op) ==> Erased(StepCached(c, op).1) == Step(Erased(c), op).1
  {
    hide FromF80, ToF80, Exact, StatusWord, Valid80;
    if op.Get? {
      var cell := c.cells[Physical(c.top, op.i)];
      if cell.reg.Written? { RoundTrip(cell.reg.value); }
    }
    assert !ReadsStaleNow(c, op) ==> Erased(StepCached(c, op).1).regs == Step(Erased(c), op).1.regs;
  }

  /** A whole run can be told from the plain register file exactly if it reads a stale register. */
  lemma {:induction false} Agrees(c: Cached, ops: seq<Op>)
    requires ValidCached(c) && AllLegal(ops)
    ensures RunCached(c, ops).0 == RunPlain(Erased(c), ops).0 <==> !ReadsStale(c, ops)
    decreases |ops|
  {
    hide Step, StepCached, Erased, ReadsStaleNow, Legal;
    if ops != [] {
      StepAgrees(c, ops[0]);
      StepValid(Erased(c), ops[0]);
      var (o, c1) := StepCached(c, ops[0]);
      var (u, p1) := Step(Erased(c), ops[0]);
      var os, us := RunCached(c1, ops[1..]).0, RunPlain(p1, ops[1..]).0;
      assert RunPlain(Erased(c), ops).0 == u + us;
      if o == u {
        Agrees(c1, ops[1..]);
        assert o + os == u + us ==> os == us by { SameTails(o, os, us); }
      } else {
        assert (o + os)[..|o|] == o && (u + us)[..|o|] == u;
      }
    }
  }

  lemma SameTails(o: seq<Out>, a: seq<Out>, b: seq<Out>)
    ensures o + a == o + b ==> a == b
  {
    assert (o + a)[|o|..] == a && (o + b)[|o|..] == b;
  }

  predicate Writes(op: Op, v: F64) { (op.Set? && op.v == v) || (op.Push? && op.v == v) }

  /** No register is ever stale while the written patterns survive the conversion. */
  lemma {:induction false} ExactIsNeverStale(c: Cached, ops: seq<Op>)
    requires ValidCached(c) && AllLegal(ops)
    requires forall j :: 0 <= j < 8 ==> c.cells[j].reg.Written? ==> Exact(c.cells[j].reg.value)
    requires forall i, v :: 0 <= i < |ops| && Writes(ops[i], v) ==> Exact(v)
    ensures !ReadsStale(c, ops)
    decreases |ops|
  {
    hide FromF80, ToF80, Exact, Valid80, ImageOf;
    if ops != [] {
      var c1 := StepCached(c, ops[0]).1;
      assert ops[0].Set? ==> Writes(ops[0], ops[0].v);
      assert ops[0].Push? ==> Writes(ops[0], ops[0].v);
      forall i, v | 0 <= i < |ops[1..]| && Writes(ops[1..][i], v) ensures Exact(v) {
        assert Writes(ops[i + 1], v);
      }
      ExactIsNeverStale(c1, ops[1..]);
    }
  }

  /** `rawtagr` and `rawtagw` are `read` and `written`: the decoded value is good, or newer than the raw one. */
  predicate Holds(st: nat, raw: F80, read: bool, written: bool, c: Cell) {
    && read == c.seen && written == !c.saved
    && match c.reg
       case Raw(f) => raw == f && (read ==> st == FromF80(f))
       case Written(v) => if written then st == v else raw == ToF80(v) && (read ==> st == v)
  }

  /** Of the first `n` registers the patterns are up to date. */
  function SavedUpTo(cells: seq<Cell>, n: nat): (r: seq<Cell>)
    ensures |r| == |cells| && forall j :: 0 <= j < |cells| ==> r[j] == if j < n then cells[j].(saved := true) else cells[j]
  {
    seq(|cells|, j requires 0 <= j < |cells| => if j < n then cells[j].(saved := true) else cells[j])
  }

  class FpuState {
    var cw: Control
    var sw: Control
    var top: Index
    var st: seq<nat>
    var rawst: seq<F80>
    var tagr: seq<bool>
    var tagw: seq<bool>

    constructor ()
      ensures Matches(Cached(0x40, 0, 0, seq(8, _ => Cell(Raw(F80(0, 0)), false, true))))
    {
      cw, sw, top := 0x40, 0, 0;
      st := seq(8, _ => 0);
      rawst := seq(8, _ => F80(0, 0));
      tagr := seq(8, _ => false);
      tagw := seq(8, _ => false);
    }

    ghost predicate Matches(p: Cached)
      reads this
      ensures Matches(p) ==> ValidCached(p) && |st| == |rawst| == |tagr| == |tagw| == 8 && top == p.top
    {
      && |st| == |rawst| == |tagr| == |tagw| == 8 && ValidCached(p) && cw == p.cw && sw == p.sw && top == p.top
      && forall j :: 0 <= j < 8 ==> Holds(st[j], rawst[j], tagr[j], tagw[j], p.cells[j])
    }

    /** `fpget`. */
    method Get(i: nat, ghost p: Cached) returns (v: nat)
      requires Matches(p)
      modifies `st, `tagr
      ensures Matches(StepCached(p, Op.Get(i)).1) && [Value(v)] == StepCached(p, Op.Get(i)).0
    {
      hide FromF80, ToF80, Exact;
      var k := Physical(top, i);
      assert Holds(st[k], rawst[k], tagr[k], tagw[k], p.cells[k]);
      if !tagr[k] && !tagw[k] {
        if p.cells[k].reg.Written? { RoundTrip(p.cells[k].reg.value); }
        st := st[k := FromF80(rawst[k])];
        tagr := tagr[k := true];
      }
      v := st[k];
    }

    /** `fpset`. */
    method Set(i: nat, v: F64, ghost p: Cached)
      requires Matches(p)
      modifies `st, `tagw
      ensures Matches(StepCached(p, Op.Set(i, v)).1)
    {
      hide FromF80, ToF80, Exact;
      var k := Physical(top, i);
      st := st[k := v];
      tagw := tagw[k := true];
    }

    /** `fppush`. */
    method Push(v: F64, ghost p: Cached)
      requires Matches(p)
      modifies `st, `tagw, `top
      ensures Matches(StepCached(p, Op.Push(v)).1)
    {
      hide FromF80, ToF80, Exact;
      top := Physical(top, 7);
      Set(0, v, p.(top := Physical(p.top, 7)));
    }

    /** `fppop`. */
    method Pop(ghost p: Cached)
      requires Matches(p)
      modifies `top
      ensures Matches(StepCached(p, Op.Pop).1)
    {
      hide FromF80, ToF80, Exact;
      top := Physical(top, 1);
    }

    /** FNSAVE: registers that are newer than their raw pattern are encoded on the way. */
    method Save(ghost p: Cached) returns (image: Image)
      requires Matches(p)
      modifies this
      ensures Matches(StepCached(p, Op.Save).1) && [Saved(image)] == StepCached(p, Op.Save).0
    {
      hide FromF80, ToF80, Exact, StatusWord;
      var regs: seq<F80> := [];
      for j := 0 to 8
        invariant Matches(p.(cells := SavedUpTo(p.cells, j)))
        invariant |regs| == j && forall k :: 0 <= k < j ==> regs[k] == BitsOf(p.cells[k].reg)
      {
        assert Holds(st[j], rawst[j], tagr[j], tagw[j], SavedUpTo(p.cells, j)[j]);
        if tagw[j] {
          rawst := rawst[j := ToF80(st[j])];
          tagw := tagw[j := false];
        }
        regs := regs + [rawst[j]];
      }
      image := Image(cw, StatusWord(sw, top), regs);
      assert regs == ImageOf(Erased(p)).regs;
      sw, top, cw := 0, 0, 0x37f;
    }

    /** FRSTOR. */
    method Restore(image: Image, ghost p: Cached)
      requires Matches(p) && ValidImage(image)
      modifies this
      ensures Matches(StepCached(p, Op.Restore(image)).1)
    {
      hide FromF80, ToF80, Exact;
      cw, sw, top := image.cw, image.sw, image.sw / 0x800 % 8;
      for j := 0 to 8
        invariant |st| == |rawst| == |tagr| == |tagw| == 8
        invariant cw == image.cw && sw == image.sw && top == image.sw / 0x800 % 8
        invariant forall k :: 0 <= k < j ==> rawst[k] == image.regs[k] && !tagr[k] && !tagw[k]
      {
        rawst := rawst[j := image.regs[j]];
        tagr, tagw := tagr[j := false], tagw[j := false];
      }
    }

    /** One instruction. */
    method Exec(op: Op, ghost p: Cached) returns (o: seq<Out>)
      requires Matches(p) && Legal(op)
      modifies this
      ensures Matches(StepCached(p, op).1) && o == StepCached(p, op).0
    {
      hide FromF80, ToF80, Exact, Matches;
      o := [];
      match op {
        case Get(i) =>
          var v := Get(i, p);
          o := [Value(v)];
        case Set(i, v) => Set(i, v, p);
        case Push(v) => Push(v, p);
        case Pop => Pop(p);
        case Save =>
          var image := Save(p);
          o := [Saved(image)];
        case Restore(image) => Restore(image, p);
      }
    }

    /** Any run: what is read and what is saved is what `RunCached` says. */
    method Run(ops: seq<Op>, ghost p: Cached) returns (outs: seq<Out>)
      requires Matches(p) && AllLegal(ops)
      modifies this
      ensures outs == RunCached(p, ops).0 && Matches(RunCached(p, ops).1)
    {
      hide Matches, StepCached, Legal;
      outs := [];
      ghost var q := p;
      assert ops[0..] == ops && [] + RunCached(p, ops).0 == RunCached(p, ops).0;
      for n := 0 to |ops|
        invariant ValidCached(q) && AllLegal(ops[n..]) && Matches(q)
        invariant RunCached(p, ops) == (outs + RunCached(q, ops[n..]).0, RunCached(q, ops[n..]).1)
      {
        assert ops[n..][0] == ops[n] && ops[n..][1..] == ops[n + 1..];
        ghost var before := outs;
        var o := Exec(ops[n], q);
        q := StepCached(q, ops[n]).1;
        outs := outs + o;
        assert before + (o + RunCached(q, ops[n + 1..]).0) == outs + RunCached(q, ops[n + 1..]).0;
      }
      assert outs + [] == outs;
    }
  }
}
