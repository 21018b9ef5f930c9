/**
 The start of an interrupt handler, told bit by bit and from the bytes of the descriptor tables.
 */
module Handlers {
  import opened EntryBits
  import opened SplitAccess
  import opened Words
  import opened Segments

  /** `r` has CF, PF, AF, ZF, SF and OF, bits 0, 2, 4, 6, 7 and 11, from `a` and every other bit from `w`. */
  predicate Picks(w: Eflags, a: Eflags, r: Eflags) {
    r & 0x8d5 == a & 0x8d5 && r & 0xffff_f72a == w & 0xffff_f72a
  }

  /** EFLAGS, with the arithmetic flags from the record where they are pending there. */
  predicate InForce(f: Flags, w: Eflags) {
    Picks(f.word, if f.pending then f.arith else f.word, w)
  }

  lemma EffectiveInForce(f: Flags)
    ensures InForce(f, Effective(f))
  {
    hide Picks, Merge;
    MergePicks(f.word, f.arith);
    PicksSelf(f.word);
  }

  lemma MergePicks(w: Eflags, a: Eflags)
    ensures Picks(w, a, Merge(w, a, ARITHMETIC))
  {
  }

  lemma PicksSelf(w: Eflags)
    ensures Picks(w, w, w)
  {
  }

  /**
   The flags with which a handler starts where `w` were in force: TF, NT, RF and VM, bits 8, 14, 16 and 17, are off;
   IF, bit 9, is off behind an interrupt gate and as it was behind a trap gate; every other bit is as it was.
   */
  predicate HandlerBits(w: Eflags, interruptGate: bool, now: Eflags) {
    && now & 0x100 == 0 && now & 0x4000 == 0 && now & 0x1_0000 == 0 && now & 0x2_0000 == 0
    && now & 0x200 == (if interruptGate then 0 else w & 0x200)
    && now & 0xfffc_bcff == w & 0xfffc_bcff
  }

  lemma TrapBits(w: Eflags)
    requires !Has(w, VM)
    ensures HandlerBits(w, false, Off(w, TF | RF | NT))
  {
  }

  lemma InterruptBits(w: Eflags)
    requires !Has(w, VM)
    ensures HandlerBits(w, true, Off(Off(w, TF | RF | NT), IF))
  {
  }

  lemma VmOffBits(w: Eflags, interruptGate: bool, now: Eflags)
    requires HandlerBits(Off(w, VM), interruptGate, now)
    ensures HandlerBits(w, interruptGate, now)
  {
  }

  /** `w` is the dword at linear address `a`, modulo 2^32. */
  predicate DwordAt(m: seq<Byte>, a: int, w: Word) {
    var p := a % 0x1_0000_0000; p + 4 <= |m| && w == Dword(m, p)
  }

  /** The TSS names `esp` and `ss` as the stack of privilege `pl`. */
  ghost predicate TssHas(e: Env, m: seq<Byte>, pl: nat, esp: Word, ss: Selector) {
    DwordAt(m, e.tr.base + 4 + 8 * pl, esp) && exists w: Word :: DwordAt(m, e.tr.base + 8 + 8 * pl, w) && ss == w % 0x1_0000
  }

  /** The gate, read as the dwords `w1` and `w2`, is present and of type 14 or 15. */
  predicate GateIs(e: Env, m: seq<Byte>, no: nat, w1: Word, w2: Word) {
    && DwordAt(m, e.idtBase + 8 * no, w1) && DwordAt(m, e.idtBase + 8 * no + 4, w2)
    && (w2 / 0x100 % 16 == 14 || w2 / 0x100 % 16 == 15) && w2 / 0x8000 % 2 == 1
  }

  /** The descriptor that `sel` selects, with the higher dword `s`, is present code of privilege `cpl` or a more inner one. */
  predicate CodeIs(e: Env, m: seq<Byte>, sel: nat, cpl: nat, s: Word) {
    && DwordAt(m, (if sel / 4 % 2 == 1 then e.ldt.base else e.gdtBase) + 8 * (sel / 8) + 4, s)
    && s / 0x1000 % 2 == 1 && s / 0x800 % 2 == 1 && s / 0x8000 % 2 == 1 && s / 0x2000 % 4 <= cpl
  }

  /** A handler of virtual-8086 code starts with null selectors in the data registers, any other with those of the code. */
  predicate DataSegs(c: Core, c': Core) {
    if c.flags.word & 0x2_0000 != 0 then c'.segs.ds.sel == c'.segs.es.sel == c'.segs.fs.sel == c'.segs.gs.sel == 0
    else c'.segs.ds == c.segs.ds && c'.segs.es == c.segs.es && c'.segs.fs == c.segs.fs && c'.segs.gs == c.segs.gs
  }

  /**
   `c'` starts the handler of vector `no`: EIP, CS and the flags are those that the dwords of the gate tell, and the
   privilege is that of the code segment, or the old one where that segment is conforming.
   */
  ghost predicate Begins(e: Env, c: Core, no: nat, c': Core) {
    exists w1: Word, w2: Word, s: Word, w: Eflags ::
      && GateIs(e, c.m, no, w1, w2) && CodeIs(e, c.m, w1 / 0x1_0000, c.cpl, s)
      && InForce(c.flags, w) && HandlerBits(w, w2 / 0x100 % 16 == 14, c'.flags.word) && !c'.flags.pending
      && c'.ip == c'.nextIp == w1 % 0x1_0000 + 0x1_0000 * (w2 / 0x1_0000)
      && c'.cpl == (if s / 0x400 % 2 == 1 then c.cpl else s / 0x2000 % 4)
      && c'.segs.cs.sel == 4 * (w1 / 0x1_0000 / 4) + c'.cpl && DataSegs(c, c')
  }

  /** How the handler starts does not depend on the address at which the code is interrupted. */
  lemma BeginsAnywhere(e: Env, c: Core, no: nat, c': Core, ip: Word, nextIp: Word)
    requires Begins(e, c, no, c')
    ensures Begins(e, c.(ip := ip, nextIp := nextIp), no, c')
  {
    hide GateIs, CodeIs, InForce, HandlerBits;
  }
}
