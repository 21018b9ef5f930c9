/**
 The translation cache of the 32-bit core: a direct-mapped table of 512 pages whose entries
 hold the XOR of the physical and the linear page. It behaves as if every access walked
 the page tables afresh.
 */
module Tlb {
  import opened Words
  import opened EntryBits
  import opened Paging

  // ---------- the machine without a cache ----------

  datatype Cr0 = Cr0(pg: bool, wp: bool, pe: bool)

  datatype Machine = Machine(m: seq<Byte>, cr0: Cr0, cr3: Word)

  /** The memory after a walk has set the accessed bits it sets. */
  function Marked(m: seq<Byte>, w: Walk): seq<Byte>
    requires w.NoPage? || w.Mapped? ==> w.pde < |m|
    requires w.Mapped? ==> w.pte < |m|
  {
    match w
    case NoTable => m
    case NoPage(pde) => m[pde := SetAccessed(m[pde])]
    case Mapped(_, _, _, pde, pte) => var m1 := m[pde := SetAccessed(m[pde])]; m1[pte := SetAccessed(m1[pte])]
  }

  /** One access by a fresh walk: the outcome, and the memory with its bits set. */
  function WalkAccess(s: Machine, la: Word, user: bool, write: bool): (Outcome, seq<Byte>)
    requires TablesInRam(s.m, s.cr3)
  {
    WalkInRam(s.m, s.cr3, la / PAGE);
    var w := WalkOf(s.m, s.cr3, la / PAGE);
    var o := Fresh(s.m, s.cr3, s.cr0.wp, la, user, write);
    var m := Marked(s.m, w);
    (o, if o.Physical? && write then m[w.pte := SetDirty(m[w.pte])] else m)
  }

  /**
   The bits that an access sets: the accessed bit, bit 5, of the present entries that the walk reads, and, when the
   access writes, the dirty bit, bit 6, of the page's entry.
   */
  ghost predicate Marks(m: seq<Byte>, m': seq<Byte>, w: Walk, wrote: bool) {
    match w
    case NoTable => m' == m
    case NoPage(pde) => BitsSet(m, m', [pde], [])
    case Mapped(_, _, _, pde, pte) => BitsSet(m, m', [pde, pte], if wrote then [pte] else [])
  }

  lemma AccessMarks(s: Machine, la: Word, user: bool, write: bool)
    requires TablesInRam(s.m, s.cr3)
    ensures var (o, m') := WalkAccess(s, la, user, write);
            Marks(s.m, m', WalkOf(s.m, s.cr3, la / PAGE), o.Physical? && write)
  {
    hide TablesInRam, WalkOf, SetAccessed, SetDirty, BitsSet, Permits, ErrorCode;
    WalkInRam(s.m, s.cr3, la / PAGE);
    NothingSet(s.m);
    match WalkOf(s.m, s.cr3, la / PAGE)
    case NoTable =>
    case NoPage(pde) =>
      assert [] + [pde] == [pde];
      AccessedSet(s.m, s.m, [], pde);
    case Mapped(_, _, _, pde, pte) =>
      assert [] + [pde] == [pde] && [pde] + [pte] == [pde, pte];
      AccessedSet(s.m, s.m, [], pde);
      var m1 := s.m[pde := SetAccessed(s.m[pde])];
      AccessedSet(s.m, m1, [pde], pte);
      DirtySet(s.m, m1[pte := SetAccessed(m1[pte])], [pde, pte], pte);
  }

  /** While paging is on, the page tables in use lie in memory. */
  ghost predicate Sane(s: Machine) {
    s.cr0.pg ==> TablesInRam(s.m, s.cr3)
  }

  /** Where an access of several bytes lies: `la` is the address that faulted. */
  datatype Span = One(addr: Word) | Two(addr1: Word, addr2: Word) | Fault(la: Word, code: nat)

  /** An access of `size` bytes that does not run past the end of the address space. */
  ghost function WalkSpan(s: Machine, la: Word, size: nat, user: bool, write: bool): (Span, Machine)
    requires Sane(s) && 1 <= size <= 8 && la + size <= 0x1_0000_0000
  {
    if !s.cr0.pg then (One(la), s) else
    var (o1, m1) := WalkAccess(s, la, user, write);
    if o1.PageFault? then (Fault(la, o1.code), s.(m := m1))
    else if la % PAGE <= PAGE - size then (One(o1.addr), s.(m := m1))
    else
      SecondPage(la, size);
      WalkAccessKeepsTables(s, la, user, write);
      var la2 := (la / PAGE + 1) * PAGE;
      var (o2, m2) := WalkAccess(s.(m := m1), la2, user, write);
      (if o2.PageFault? then Fault(la2, o2.code) else Two(o1.addr, o2.addr), s.(m := m2))
  }

  lemma SecondPage(la: Word, size: nat)
    requires la % PAGE > PAGE - size && la + size <= 0x1_0000_0000
    ensures (la / PAGE + 1) * PAGE < 0x1_0000_0000
  {
  }

  /** `p` is in no page that holds entries. */
  ghost predicate OutsideTables(m: seq<Byte>, cr3: Word, p: nat)
    requires TablesInRam(m, cr3)
  {
    && !(PageBase(cr3) <= p < PageBase(cr3) + PAGE)
    && forall i {:trigger EntryAddr(cr3, i)} :: 0 <= i < 1024 ==>
         (EntryInPage(cr3, i); var pde := Dword(m, EntryAddr(cr3, i)); Present(pde) ==> !(PageBase(pde) <= p < PageBase(pde) + PAGE))
  }

  datatype Op =
    | Access(rwm: nat, la: Word, size: nat, cpl: nat)
    | StoreByte(p: nat, v: Byte)
    | MovCr0(new0: Cr0)
    | MovCr3(new3: Word)
    | Flush

  /** While paging is on, stores miss the page tables in use; tables put to use lie in memory. */
  ghost predicate LegalOp(s: Machine, op: Op)
    requires Sane(s)
  {
    match op
    case Access(rwm, la, size, _) => 1 <= rwm <= 3 && 1 <= size <= 8 && la + size <= 0x1_0000_0000
    case StoreByte(p, _) => p < |s.m| && (s.cr0.pg ==> OutsideTables(s.m, s.cr3, p))
    case MovCr0(new0) => Sane(s.(cr0 := new0))
    case MovCr3(new3) => Sane(s.(cr3 := new3))
    case Flush => true
  }

  ghost function StepUncached(s: Machine, op: Op): (r: (seq<Span>, Machine))
    requires Sane(s) && LegalOp(s, op)
    ensures Sane(r.1)
  {
    match op
    case Access(rwm, la, size, cpl) =>
      WalkSpanKeepsTables(s, la, size, cpl > 0, rwm > 1);
      var (o, s') := WalkSpan(s, la, size, cpl > 0, rwm > 1); ([o], s')
    case StoreByte(p, v) =>
      assert s.cr0.pg ==> TablesInRam(s.m[p := v], s.cr3) by { if s.cr0.pg { StoreKeepsDirectory(s.m, s.cr3, p, v); } }
      ([], s.(m := s.m[p := v]))
    case MovCr0(new0) => ([], s.(cr0 := new0))
    case MovCr3(new3) => ([], s.(cr3 := new3))
    case Flush => ([], s)
  }

  ghost predicate Legal(s: Machine, ops: seq<Op>)
    requires Sane(s)
    decreases |ops|
  {
    ops != [] ==> LegalOp(s, ops[0]) && Legal(StepUncached(s, ops[0]).1, ops[1..])
  }

  ghost function RunUncached(s: Machine, ops: seq<Op>): (seq<Span>, Machine)
    requires Sane(s) && Legal(s, ops)
    decreases |ops|
  {
    if ops == [] then ([], s) else
    var (o, s1) := StepUncached(s, ops[0]);
    var (os, s2) := RunUncached(s1, ops[1..]);
    (o + os, s2)
  }

  lemma RunStep(s: Machine, ops: seq<Op>)
    requires Sane(s) && Legal(s, ops) && ops != []
    ensures LegalOp(s, ops[0]) && Legal(StepUncached(s, ops[0]).1, ops[1..])
    ensures var (o, s1) := StepUncached(s, ops[0]);
            var (os, s2) := RunUncached(s1, ops[1..]);
            RunUncached(s, ops) == (o + os, s2)
  {
    hide StepUncached, LegalOp, Sane;
  }

  lemma RunNothing(s: Machine)
    requires Sane(s)
    ensures Legal(s, []) && RunUncached(s, []) == ([], s)
  {
  }

  lemma WalkInRam(m: seq<Byte>, cr3: Word, l: nat)
    requires TablesInRam(m, cr3) && l < PAGES
    ensures var w := WalkOf(m, cr3, l);
            && (w.NoPage? || w.Mapped? ==> w.pde < |m| && w.pde % 4 == 0)
            && (w.Mapped? ==> w.pte < |m| && w.pte % 4 == 0 && w.frame % PAGE == 0)
  {
    hide Dword, TablesInRam;
    TableRange(m, cr3, l);
  }

  // ---------- the XOR of pages ----------

  lemma ShlTwenty(x: nat)
    ensures Shl(x, 20) == PAGES * x
  {
    hide Shl;
    ShlTwelve(x);
    ShlShl(x, 12, 8);
    ShlEight(PAGE * x);
  }

  lemma XorPages(f: nat, l: nat, o: nat)
    requires f < PAGES && l < PAGES && o < PAGE
    ensures Xor(PAGE * f, PAGE * l) < 0x1_0000_0000
    ensures Xor(Xor(PAGE * f, PAGE * l), PAGE * l + o) == PAGE * f + o
  {
    hide Xor, Shl;
    ShlTwelve(1);
    ShlTwelve(f);
    ShlTwelve(l);
    XorMovesOffset(f, l, o, 12);
    XorZero(0);
    XorSplit(f, 0, l, 0, 12);
    ShlTwelve(Xor(f, l));
    ShlTwenty(1);
    ShlZeroTwenty();
    XorSplit(0, f, 0, l, 20);
  }

  lemma ShlZeroTwenty()
    ensures Shl(0, 20) == 0
  {
    ShlTwenty(0);
  }

  // ---------- the cache ----------

  const SLOTS := 512
  const INVALID: Word := 0xffff_ffff

  /** `rights` selects the row of `pte_lookup`; `ppte` is the index of the entry's low byte. */
  datatype Entry = Entry(lpgno: Word, xaddr: nat, wp: bool, us: bool, rw: bool, ppte: nat)

  /** A valid entry repeats what the walk for its page finds, and the walk's marks are set. */
  ghost predicate EntryOk(m: seq<Byte>, cr3: Word, wp: bool, e: Entry)
    requires TablesInRam(m, cr3)
  {
    e.lpgno < PAGES ==>
      var w := WalkOf(m, cr3, e.lpgno);
      && w.Mapped? && e.us == w.us && e.rw == w.rw && e.wp == wp && e.ppte == w.pte
      && e.xaddr == Xor(w.frame, PAGE * e.lpgno)
      && Accessed(m, w.pde) && Accessed(m, w.pte)
  }

  lemma GrowsKeepsEntries(m: seq<Byte>, m': seq<Byte>, cr3: Word, wp: bool, tab: seq<Entry>)
    requires BitsGrow(m, m', false) && TablesInRam(m, cr3)
    ensures TablesInRam(m', cr3)
    ensures forall l :: 0 <= l < PAGES ==> WalkOf(m', cr3, l) == WalkOf(m, cr3, l)
    ensures forall e :: e in tab && EntryOk(m, cr3, wp, e) ==> EntryOk(m', cr3, wp, e)
  {
    SameWalks(m, m', cr3);
    forall e | e in tab && EntryOk(m, cr3, wp, e)
      ensures EntryOk(m', cr3, wp, e)
    {
      hide Xor, TablesInRam, Accessed;
      if e.lpgno < PAGES {
        hide WalkOf;
        var w := WalkOf(m, cr3, e.lpgno);
        MarksKept(m, m', w.pde, false);
        MarksKept(m, m', w.pte, false);
      }
    }
  }

  /** The state of the walks after a miss: entry `w` is sound in the marked memory. */
  lemma RefilledEntry(m: seq<Byte>, cr3: Word, wp: bool, l: nat, e: Entry)
    requires TablesInRam(m, cr3) && l < PAGES
    requires var w := WalkOf(m, cr3, l);
             w.Mapped? && e == Entry(l, Xor(w.frame, PAGE * l), wp, w.us, w.rw, w.pte)
    ensures (WalkInRam(m, cr3, l); var m' := Marked(m, WalkOf(m, cr3, l));
             BitsGrow(m, m', false) && TablesInRam(m', cr3) && EntryOk(m', cr3, wp, e))
  {
    hide TablesInRam, Xor, SetAccessed, BitsGrow, Accessed;
    WalkInRam(m, cr3, l);
    var w := WalkOf(m, cr3, l);
    var m1 := m[w.pde := SetAccessed(m[w.pde])];
    var m2 := m1[w.pte := SetAccessed(m1[w.pte])];
    SettingGrows(m, w.pde, false);
    SettingGrows(m1, w.pte, false);
    GrowsTransitive(m, m1, m2, false);
    MarksKept(m1, m2, w.pde, false);
    GrowsKeepsEntries(m, m2, cr3, wp, []);
    hide WalkOf;
  }

  /** Where the marks are already set, walking again sets nothing. */
  lemma MarkedTwice(m: seq<Byte>, w: Walk)
    requires w.Mapped? && w.pde < |m| && w.pte < |m| && Accessed(m, w.pde) && Accessed(m, w.pte)
    ensures Marked(m, w) == m
  {
  }

  /** What the two loads of a walk, the second after the first mark, say about the walk. */
  lemma WalkLoads(m: seq<Byte>, cr3: Word, l: nat)
    requires TablesInRam(m, cr3) && l < PAGES
    ensures var pdeAddr := EntryAddr(cr3, l / 1024);
            && pdeAddr + 4 <= |m| && pdeAddr % 4 == 0
            && (var pde := Dword(m, pdeAddr);
                if !Present(pde) then WalkOf(m, cr3, l) == NoTable else
                var m1, pteAddr := m[pdeAddr := SetAccessed(m[pdeAddr])], EntryAddr(pde, l % 1024);
                && pteAddr + 4 <= |m| && pteAddr % 4 == 0 && BitsGrow(m, m1, false)
                && (var pte := Dword(m1, pteAddr);
                    if !Present(pte) then WalkOf(m, cr3, l) == NoPage(pdeAddr)
                    else WalkOf(m, cr3, l) == Mapped(PageBase(pte), pde / 4 % 2 == 1 && pte / 4 % 2 == 1,
                                                     pde / 2 % 2 == 1 && pte / 2 % 2 == 1, pdeAddr, pteAddr)))
  {
    hide Dword, TablesInRam, SetAccessed, BitsGrow, PageBase, Present, EntryAddr;
    TableRange(m, cr3, l);
    var pdeAddr := EntryAddr(cr3, l / 1024);
    var pde := Dword(m, pdeAddr);
    if Present(pde) {
      var m1 := m[pdeAddr := SetAccessed(m[pdeAddr])];
      SettingGrows(m, pdeAddr, false);
      SameFields(m, m1, EntryAddr(pde, l % 1024));
    }
  }

  class Mmu {
    const mem: array<Byte>
    const tab: array<Entry>
    var cr0: Cr0
    var cr3: Word
    var cr2: Word
    var excerr: nat

    ghost predicate Valid()
      reads this, mem, tab
    {
      tab.Length == SLOTS && Sane(State())
    }

    /** Every valid entry agrees with the walk; without paging there is none. */
    ghost predicate Coherent()
      reads this, mem, tab
      ensures Coherent() ==> Sane(State())
    {
      && Valid()
      && forall e :: e in tab[..] ==> if cr0.pg then EntryOk(mem[..], cr3, cr0.wp, e) else e.lpgno == INVALID
    }

    ghost function State(): Machine
      reads this, mem
    {
      Machine(mem[..], cr0, cr3)
    }

    method Clear()
      requires Valid()
      modifies tab
      ensures Coherent() && forall e :: e in tab[..] ==> e.lpgno == INVALID
    {
      for k := 0 to SLOTS
        invariant forall i :: 0 <= i < k ==> tab[i].lpgno == INVALID
      {
        tab[k] := tab[k].(lpgno := INVALID);
      }
    }

    /** `pload32`. */
    method Load32(a: nat) returns (v: Word)
      requires a + 4 <= mem.Length
      ensures v == Dword(mem[..], a)
    {
      var b0: int, b1: int, b2: int, b3: int := mem[a], mem[a + 1], mem[a + 2], mem[a + 3];
      v := b0 + 0x100 * b1 + 0x1_0000 * b2 + 0x100_0000 * b3;
    }

    /** Walks the two levels for page `l` and fills slot `k`, unless an entry is absent. */
    method Refill(k: nat, l: nat) returns (ok: bool)
      requires Coherent() && cr0.pg && k < SLOTS && l < PAGES
      modifies mem, tab
      ensures Coherent()
      ensures (WalkInRam(old(mem[..]), cr3, l); mem[..] == Marked(old(mem[..]), WalkOf(old(mem[..]), cr3, l)))
      ensures BitsGrow(old(mem[..]), mem[..], false)
      ensures ok <==> WalkOf(old(mem[..]), cr3, l).Mapped?
      ensures ok ==> tab[k].lpgno == l
      ensures !ok ==> tab[..] == old(tab[..])
    {
      hide Dword, TablesInRam, Xor, SetAccessed, BitsGrow, Accessed, WalkOf, PageBase, Present, EntryAddr, EntryOk;
      ghost var m := mem[..];
      WalkInRam(m, cr3, l);
      WalkLoads(m, cr3, l);
      GrowsSelf(m, false);
      var pdeAddr := EntryAddr(cr3, l / 1024);
      var pde := Load32(pdeAddr);
      if !Present(pde) { return false; }
      mem[pdeAddr] := SetAccessed(mem[pdeAddr]);
      ghost var m1 := mem[..];
      assert m1 == m[pdeAddr := SetAccessed(m[pdeAddr])];
      GrowsKeepsEntries(m, m1, cr3, cr0.wp, tab[..]);
      var pteAddr := EntryAddr(pde, l % 1024);
      var pte := Load32(pteAddr);
      if !Present(pte) { return false; }
      mem[pteAddr] := SetAccessed(mem[pteAddr]);
      ghost var m2 := mem[..];
      assert m2 == m1[pteAddr := SetAccessed(m1[pteAddr])];
      SettingGrows(m1, pteAddr, false);
      GrowsTransitive(m, m1, m2, false);
      GrowsKeepsEntries(m, m2, cr3, cr0.wp, tab[..]);
      ghost var before := tab[..];
      tab[k] := Entry(l, Xor(PageBase(pte), PAGE * l), cr0.wp, pde / 4 % 2 == 1 && pte / 4 % 2 == 1,
                      pde / 2 % 2 == 1 && pte / 2 % 2 == 1, pteAddr);
      RefilledEntry(m, cr3, cr0.wp, l, tab[k]);
      assert tab[..] == before[k := tab[k]];
      ok := true;
    }

    /** The rights and the address, once entry `k` is the page's: a fault drops it. */
    method Hit(k: nat, rwm: nat, la: Word, cpl: nat) returns (o: Outcome)
      requires Coherent() && cr0.pg && 1 <= rwm <= 3 && k < SLOTS && tab[k].lpgno == la / PAGE
      modifies mem, tab, this`cr2, this`excerr
      ensures Coherent()
      ensures (o, mem[..]) == WalkAccess(old(State()), la, cpl > 0, rwm > 1)
      ensures o.PageFault? ==> cr2 == la && excerr == o.code && tab[k].lpgno == INVALID
      ensures o.Physical? ==> cr2 == old(cr2) && excerr == old(excerr)
    {
      hide Dword, TablesInRam, Xor, SetAccessed, SetDirty, BitsGrow, Accessed, WalkOf, EntryOk, Lookup, Permits, Marked;
      hide Fresh, WalkAccess;
      var user, write := cpl > 0, rwm > 1;
      ghost var m := mem[..];
      assert tab[k] in tab[..];
      EntryDecides(State(), tab[k], la, user, write);
      if Lookup(tab[k].wp, tab[k].us, tab[k].rw, user, write) {
        cr2 := la;
        excerr := 1 + (if rwm / 2 % 2 == 1 then 2 else 0) + (if cpl != 0 then 4 else 0);
        ghost var before := tab[..];
        tab[k] := tab[k].(lpgno := INVALID);
        InvalidOk(m, cr3, cr0.wp, tab[k]);
        assert tab[..] == before[k := tab[k]];
        return PageFault(excerr);
      }
      o := Physical(Xor(tab[k].xaddr, la));
      if rwm / 2 % 2 == 1 {
        var p := tab[k].ppte;
        mem[p] := SetDirty(mem[p]);
        assert mem[..] == m[p := SetDirty(m[p])];
        SettingGrows(m, p, false);
        GrowsKeepsEntries(m, mem[..], cr3, cr0.wp, tab[..]);
      }
    }

    /**
     `translate_lpgno`: the translation of one linear address. Through the cache it comes to
     the outcome, and leaves the memory, of a fresh walk. A fault leaves no entry behind.
     */
    method Translate(rwm: nat, la: Word, cpl: nat) returns (o: Outcome)
      requires Coherent() && cr0.pg && 1 <= rwm <= 3
      modifies mem, tab, this`cr2, this`excerr
      ensures Coherent()
      ensures (o, mem[..]) == WalkAccess(old(State()), la, cpl > 0, rwm > 1)
      ensures Marks(old(mem[..]), mem[..], WalkOf(old(mem[..]), cr3, la / PAGE), o.Physical? && rwm > 1)
      ensures o.PageFault? ==> cr2 == la && excerr == o.code && tab[la / PAGE % SLOTS].lpgno != la / PAGE
      ensures o.Physical? ==> cr2 == old(cr2) && excerr == old(excerr)
    {
      hide Dword, TablesInRam, Xor, SetAccessed, SetDirty, BitsGrow, Accessed, WalkOf, EntryOk, Lookup, Permits, Marked;
      hide Fresh, WalkAccess, Marks;
      var lpgno := la / PAGE;
      var k := lpgno % SLOTS;
      var user, write := cpl > 0, rwm > 1;
      ghost var s := State();
      AccessMarks(s, la, user, write);
      WalkInRam(s.m, s.cr3, lpgno);
      GrowsSelf(s.m, false);
      if tab[k].lpgno != lpgno {
        MarkingDecidesNothing(s, la, user, write);
        var ok := Refill(k, lpgno);
        if !ok {
          MissFaults(s, la, user, write);
          cr2 := la;
          excerr := (if rwm / 2 % 2 == 1 then 2 else 0) + (if cpl != 0 then 4 else 0);
          return PageFault(excerr);
        }
      }
      o := Hit(k, rwm, la, cpl);
    }

    /** `translate_laddr`: an access of `size` bytes, which may straddle two pages. */
    method TranslateSpan(rwm: nat, la: Word, size: nat, cpl: nat) returns (o: Span)
      requires Coherent() && 1 <= rwm <= 3 && 1 <= size <= 8 && la + size <= 0x1_0000_0000
      modifies mem, tab, this`cr2, this`excerr
      ensures Coherent()
      ensures (o, State()) == WalkSpan(old(State()), la, size, cpl > 0, rwm > 1)
      ensures o.Fault? ==> cr2 == o.la && excerr == o.code
    {
      hide TablesInRam, WalkAccess;
      if !cr0.pg { return One(la); }
      var o1 := Translate(rwm, la, cpl);
      if o1.PageFault? { return Fault(la, o1.code); }
      o := One(o1.addr);
      if la % PAGE > PAGE - size {
        SecondPage(la, size);
        var la2 := (la / PAGE + 1) * PAGE;
        var o2 := Translate(rwm, la2, cpl);
        if o2.PageFault? { return Fault(la2, o2.code); }
        o := Two(o1.addr, o2.addr);
      }
    }

    /** A store of the guest to physical memory, outside the page tables in use. */
    method Store(p: nat, v: Byte)
      requires Coherent() && p < mem.Length && (cr0.pg ==> OutsideTables(mem[..], cr3, p))
      modifies mem
      ensures Coherent() && mem[..] == old(mem[..])[p := v]
    {
      hide TablesInRam, OutsideTables, EntryOk;
      ghost var m := mem[..];
      mem[p] := v;
      assert mem[..] == m[p := v];
      if cr0.pg { StoreKeepsEntries(m, cr3, cr0.wp, p, v, tab[..]); }
    }

    /** MOV to CR0: the cache survives only if paging and protection stay as they were. */
    method SetCr0(new0: Cr0)
      requires Coherent() && Sane(State().(cr0 := new0))
      modifies tab, this`cr0
      ensures Coherent() && State() == old(State()).(cr0 := new0)
    {
      if new0 != cr0 { Clear(); }
      cr0 := new0;
    }

    method SetCr3(new3: Word)
      requires Coherent() && Sane(State().(cr3 := new3))
      modifies tab, this`cr3
      ensures Coherent() && State() == old(State()).(cr3 := new3)
    {
      Clear();
      cr3 := new3;
    }

    method Step(op: Op) returns (o: seq<Span>)
      requires Coherent() && LegalOp(State(), op)
      modifies mem, tab, this`cr0, this`cr3, this`cr2, this`excerr
      ensures Coherent()
      ensures (o, State()) == StepUncached(old(State()), op)
    {
      hide TablesInRam, WalkSpan, OutsideTables, Coherent, Sane;
      o := [];
      match op {
        case Access(rwm, la, size, cpl) =>
          var span := TranslateSpan(rwm, la, size, cpl);
          o := [span];
        case StoreByte(p, v) => Store(p, v);
        case MovCr0(new0) => SetCr0(new0);
        case MovCr3(new3) => SetCr3(new3);
        case Flush => Flushed();
      }
    }

    method Flushed()
      requires Coherent()
      modifies tab
      ensures Coherent() && State() == old(State())
    {
      Clear();
    }

    /**
     Any run in which the guest leaves the page tables alone: the outcomes and the memory are
     those of the machine that walks the tables on every access.
     */
    method Run(ops: seq<Op>) returns (outcomes: seq<Span>)
      requires Coherent() && Legal(State(), ops)
      modifies mem, tab, this`cr0, this`cr3, this`cr2, this`excerr
      ensures Coherent()
      ensures (outcomes, State()) == RunUncached(old(State()), ops)
    {
      hide Coherent, Sane, LegalOp, StepUncached, Legal, RunUncached;
      outcomes := [];
      ghost var s0 := State();
      assert ops[0..] == ops && [] + RunUncached(s0, ops).0 == RunUncached(s0, ops).0;
      for n := 0 to |ops|
        invariant Coherent() && Sane(State()) && Legal(State(), ops[n..])
        invariant var (os, s) := RunUncached(State(), ops[n..]); RunUncached(s0, ops) == (outcomes + os, s)
      {
        assert ops[n..][0] == ops[n] && ops[n..][1..] == ops[n + 1..];
        RunStep(State(), ops[n..]);
        ghost var before := outcomes;
        var o := Step(ops[n]);
        outcomes := outcomes + o;
        ghost var rest := RunUncached(State(), ops[n + 1..]).0;
        assert before + (o + rest) == outcomes + rest;
      }
      assert ops[|ops|..] == [] && outcomes + [] == outcomes;
      RunNothing(State());
    }
  }

  /** An entry that is sound decides an access as a fresh walk does. */
  lemma EntryDecides(s: Machine, e: Entry, la: Word, user: bool, write: bool)
    requires TablesInRam(s.m, s.cr3) && e.lpgno == la / PAGE && EntryOk(s.m, s.cr3, s.cr0.wp, e)
    ensures e.ppte < |s.m| && e.ppte % 4 == 0
    ensures if Lookup(e.wp, e.us, e.rw, user, write) then
              WalkAccess(s, la, user, write) == (PageFault(ErrorCode(true, write, user)), s.m)
            else
              && Xor(e.xaddr, la) < 0x1_0000_0000
              && WalkAccess(s, la, user, write)
                 == (Physical(Xor(e.xaddr, la)), if write then s.m[e.ppte := SetDirty(s.m[e.ppte])] else s.m)
  {
    hide TablesInRam, Xor, SetAccessed, SetDirty, Accessed, Lookup, Permits;
    WalkInRam(s.m, s.cr3, la / PAGE);
    LookupIsPermits(e.wp, e.us, e.rw, user, write);
    var w := WalkOf(s.m, s.cr3, la / PAGE);
    hide WalkOf;
    MarkedTwice(s.m, w);
    FrameXor(w.frame, la);
  }

  lemma MissFaults(s: Machine, la: Word, user: bool, write: bool)
    requires TablesInRam(s.m, s.cr3) && !WalkOf(s.m, s.cr3, la / PAGE).Mapped?
    ensures (WalkInRam(s.m, s.cr3, la / PAGE);
             WalkAccess(s, la, user, write)
             == (PageFault(ErrorCode(false, write, user)), Marked(s.m, WalkOf(s.m, s.cr3, la / PAGE))))
  {
    hide WalkOf, TablesInRam, Marked;
  }

  lemma FrameXor(frame: Word, la: Word)
    requires frame % PAGE == 0
    ensures Xor(Xor(frame, PAGE * (la / PAGE)), la) == frame + la % PAGE < 0x1_0000_0000
  {
    hide Xor;
    XorPages(frame / PAGE, la / PAGE, la % PAGE);
  }

  /** After the marks of the walk, a fresh walk decides as before and sets the same bits. */
  lemma MarkingDecidesNothing(s: Machine, la: Word, user: bool, write: bool)
    requires TablesInRam(s.m, s.cr3)
    ensures (WalkInRam(s.m, s.cr3, la / PAGE);
             var m1 := Marked(s.m, WalkOf(s.m, s.cr3, la / PAGE));
             && TablesInRam(m1, s.cr3) && WalkOf(m1, s.cr3, la / PAGE) == WalkOf(s.m, s.cr3, la / PAGE)
             && WalkAccess(s.(m := m1), la, user, write) == WalkAccess(s, la, user, write))
  {
    hide TablesInRam, SetAccessed, SetDirty, BitsGrow, Accessed, Permits, ErrorCode, Dword, PageBase, Present, EntryOk, WalkOf;
    WalkInRam(s.m, s.cr3, la / PAGE);
    var w := WalkOf(s.m, s.cr3, la / PAGE);
    var m1 := Marked(s.m, w);
    MarkedGrows(s.m, w);
    GrowsKeepsEntries(s.m, m1, s.cr3, s.cr0.wp, []);
  }

  /** Marking grows the bits, and marking once more changes nothing. */
  lemma MarkedGrows(m: seq<Byte>, w: Walk)
    requires w.NoPage? || w.Mapped? ==> w.pde < |m| && w.pde % 4 == 0
    requires w.Mapped? ==> w.pte < |m| && w.pte % 4 == 0
    ensures BitsGrow(m, Marked(m, w), false) && Marked(Marked(m, w), w) == Marked(m, w)
  {
    hide BitsGrow, SetAccessed;
    match w
    case NoTable => GrowsSelf(m, false);
    case NoPage(pde) =>
      SettingGrows(m, pde, false);
      SettingGrows(Marked(m, w), pde, false);
    case Mapped(_, _, _, pde, pte) =>
      var m1 := m[pde := SetAccessed(m[pde])];
      var m2 := m1[pte := SetAccessed(m1[pte])];
      SettingGrows(m, pde, false);
      SettingGrows(m1, pte, false);
      GrowsTransitive(m, m1, m2, false);
      hide Accessed;
      MarksKept(m1, m2, pde, false);
      SettingGrows(m2, pde, false);
      SettingGrows(m2, pte, false);
  }

  lemma InvalidOk(m: seq<Byte>, cr3: Word, wp: bool, e: Entry)
    requires TablesInRam(m, cr3) && e.lpgno == INVALID
    ensures EntryOk(m, cr3, wp, e)
  {
  }

  lemma WalkAccessKeepsTables(s: Machine, la: Word, user: bool, write: bool)
    requires TablesInRam(s.m, s.cr3)
    ensures var (o, m') := WalkAccess(s, la, user, write); TablesInRam(m', s.cr3) && BitsGrow(s.m, m', false)
  {
    hide TablesInRam, SetAccessed, SetDirty, BitsGrow, Accessed, Permits;
    WalkInRam(s.m, s.cr3, la / PAGE);
    var w := WalkOf(s.m, s.cr3, la / PAGE);
    var m1 := Marked(s.m, w);
    MarkedGrows(s.m, w);
    var (o, m') := WalkAccess(s, la, user, write);
    if o.Physical? && write {
      SettingGrows(m1, w.pte, false);
      GrowsTransitive(s.m, m1, m', false);
    }
    GrowsKeepsEntries(s.m, m', s.cr3, s.cr0.wp, []);
  }

  lemma WalkSpanKeepsTables(s: Machine, la: Word, size: nat, user: bool, write: bool)
    requires Sane(s) && 1 <= size <= 8 && la + size <= 0x1_0000_0000
    ensures var (o, s') := WalkSpan(s, la, size, user, write);
            Sane(s') && s' == s.(m := s'.m) && BitsGrow(s.m, s'.m, false)
  {
    hide TablesInRam, WalkAccess, BitsGrow;
    GrowsSelf(s.m, false);
    if s.cr0.pg {
      WalkAccessKeepsTables(s, la, user, write);
      var (o1, m1) := WalkAccess(s, la, user, write);
      if o1.Physical? && la % PAGE > PAGE - size {
        SecondPage(la, size);
        var la2 := (la / PAGE + 1) * PAGE;
        WalkAccessKeepsTables(s.(m := m1), la2, user, write);
        GrowsTransitive(s.m, m1, WalkAccess(s.(m := m1), la2, user, write).1, false);
      }
    }
  }

  lemma StoreKeepsDword(m: seq<Byte>, p: nat, v: Byte, a: nat)
    requires p < |m| && a + 4 <= |m| && !(a <= p < a + 4)
    ensures Dword(m[p := v], a) == Dword(m, a)
  {
  }

  lemma StoreKeepsDirectory(m: seq<Byte>, cr3: Word, p: nat, v: Byte)
    requires TablesInRam(m, cr3) && p < |m| && OutsideTables(m, cr3, p)
    ensures TablesInRam(m[p := v], cr3)
    ensures forall i {:trigger EntryAddr(cr3, i)} :: 0 <= i < 1024 ==>
              (EntryInPage(cr3, i); Dword(m[p := v], EntryAddr(cr3, i)) == Dword(m, EntryAddr(cr3, i)))
  {
    hide Dword;
    forall i {:trigger EntryAddr(cr3, i)} | 0 <= i < 1024
      ensures EntryAddr(cr3, i) + 4 <= |m| && Dword(m[p := v], EntryAddr(cr3, i)) == Dword(m, EntryAddr(cr3, i))
    {
      EntryInPage(cr3, i);
      StoreKeepsDword(m, p, v, EntryAddr(cr3, i));
    }
  }

  lemma StoreKeepsWalk(m: seq<Byte>, cr3: Word, p: nat, v: Byte, l: nat)
    requires TablesInRam(m, cr3) && p < |m| && OutsideTables(m, cr3, p) && l < PAGES
    ensures TablesInRam(m[p := v], cr3) && WalkOf(m[p := v], cr3, l) == WalkOf(m, cr3, l)
    ensures var w := WalkOf(m, cr3, l);
            (w.NoPage? || w.Mapped? ==> w.pde != p) && (w.Mapped? ==> w.pte != p)
  {
    hide Dword;
    StoreKeepsDirectory(m, cr3, p, v);
    TableRange(m, cr3, l);
    var i := l / 1024;
    assert 0 <= i < 1024;
    EntryInPage(cr3, i);
    var pde := Dword(m, EntryAddr(cr3, i));
    if Present(pde) {
      EntryInPage(pde, l % 1024);
      StoreKeepsDword(m, p, v, EntryAddr(pde, l % 1024));
    }
  }

  lemma StoreKeepsEntries(m: seq<Byte>, cr3: Word, wp: bool, p: nat, v: Byte, tab: seq<Entry>)
    requires TablesInRam(m, cr3) && p < |m| && OutsideTables(m, cr3, p)
    ensures TablesInRam(m[p := v], cr3)
    ensures forall e :: e in tab && EntryOk(m, cr3, wp, e) ==> EntryOk(m[p := v], cr3, wp, e)
  {
    StoreKeepsDirectory(m, cr3, p, v);
    forall e | e in tab && EntryOk(m, cr3, wp, e)
      ensures EntryOk(m[p := v], cr3, wp, e)
    {
      hide TablesInRam, OutsideTables, WalkOf, Xor;
      if e.lpgno < PAGES { StoreKeepsWalk(m, cr3, p, v, e.lpgno); }
    }
  }
}
