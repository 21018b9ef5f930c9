/**
 The translation cache of the 64-bit core. Its slots hold 4-KiB pieces of pages of any size,
 and it behaves as if every access walked the four levels afresh.
 */
module Tlb64 {
  import opened Words
  import opened EntryBits
  import opened Paging64
  import P = Paging

  /** `root` is the page number in CR3, which is not used before it has been loaded once. */
  datatype Machine = Machine(m: seq<Byte>, loaded: bool, root: nat)

  ghost predicate Sane(s: Machine) {
    s.loaded ==> TablesInRam(s.m, s.root)
  }

  /** The entries on a path lie in memory. */
  predicate Places(m: seq<Byte>, path: seq<nat>) {
    forall i :: 0 <= i < |path| ==> path[i] < |m| && path[i] % 8 == 0
  }

  predicate AllAccessed(m: seq<Byte>, path: seq<nat>) {
    forall i :: 0 <= i < |path| ==> Accessed(m, path[i])
  }

  /** Sets the accessed bits of the entries on a path. */
  function MarkPath(m: seq<Byte>, path: seq<nat>): seq<Byte>
    requires Places(m, path)
    decreases |path|
  {
    if path == [] then m else MarkPath(m[path[0] := SetAccessed(m[path[0]])], path[1..])
  }

  /** A walk as seen from `path` levels higher up, with the rights met there. */
  function Above(path: seq<nat>, us: bool, rw: bool, w: Walk): Walk {
    match w
    case Missing(p) => Missing(path + p)
    case Mapped(frame, us', rw', p) => Mapped(frame, us && us', rw && rw', path + p)
  }

  lemma {:induction false} PathPlaces(m: seq<Byte>, table: nat, l: nat, level: nat)
    requires 1 <= level <= 4 && PathInRam(m, table, l, level)
    ensures var w := WalkFrom(m, table, l, level);
            && Places(m, w.path)
            && (w.Mapped? ==> w.path != [])
    decreases level
  {
    hide Qword64, Present, Large, User, Writable, PageNumber, FrameOf, EntryAddr, PathInRam, WalkFrom, IsLeaf;
    WalkStep(m, table, l, level);
    var e := Qword64(m, EntryAddr(table, l, level));
    if Present(e) && !IsLeaf(e, level) { PathPlaces(m, PageNumber(e), l, level - 1); }
  }

  lemma {:induction false} MarkGrows(m: seq<Byte>, path: seq<nat>)
    requires Places(m, path)
    ensures BitsGrow(m, MarkPath(m, path), true) && AllAccessed(MarkPath(m, path), path)
    decreases |path|
  {
    hide BitsGrow, Accessed, SetAccessed;
    if path == [] {
      GrowsSelf(m, true);
    } else {
      var m1 := m[path[0] := SetAccessed(m[path[0]])];
      SettingGrows(m, path[0], true);
      MarkGrows(m1, path[1..]);
      GrowsTransitive(m, m1, MarkPath(m1, path[1..]), true);
      MarksKept(m1, MarkPath(m1, path[1..]), path[0], true);
      forall i | 0 <= i < |path|
        ensures Accessed(MarkPath(m, path), path[i])
      {
        if i > 0 { assert path[1..][i - 1] == path[i]; }
      }
    }
  }

  lemma {:induction false} MarkAppend(m: seq<Byte>, path: seq<nat>, a: nat)
    requires a < |m| && a % 8 == 0 && Places(m, path)
    ensures Places(m, path + [a]) && |MarkPath(m, path)| == |m|
    ensures MarkPath(m, path + [a]) == MarkPath(m, path)[a := SetAccessed(MarkPath(m, path)[a])]
    decreases |path|
  {
    if path == [] {
      assert [] + [a] == [a];
    } else {
      assert (path + [a])[0] == path[0] && (path + [a])[1..] == path[1..] + [a];
      MarkAppend(m[path[0] := SetAccessed(m[path[0]])], path[1..], a);
    }
  }

  lemma {:induction false} MarkedAlready(m: seq<Byte>, path: seq<nat>)
    requires Places(m, path) && AllAccessed(m, path)
    ensures MarkPath(m, path) == m
    decreases |path|
  {
    if path != [] {
      assert Accessed(m, path[0]);
      assert m[path[0] := SetAccessed(m[path[0]])] == m;
      MarkedAlready(m, path[1..]);
    }
  }

  /** What an access to linear page `l` at offset `o` must come to, by a fresh walk. */
  function Fresh(w: Walk, o: nat, user: bool, write: bool): Outcome {
    match w
    case Missing(_) => PageFault(P.ErrorCode(false, write, user))
    case Mapped(frame, us, rw, _) =>
      if P.Permits(true, us, rw, user, write) then Physical(PAGE * frame + o) else PageFault(P.ErrorCode(true, write, user))
  }

  datatype Outcome = Physical(addr: nat) | PageFault(code: nat)

  /** One access by a fresh walk: the outcome, and the memory with its bits set. */
  ghost function WalkAccess(s: Machine, la: Qword, user: bool, write: bool): (Outcome, seq<Byte>)
    requires Sane(s)
  {
    if !s.loaded then (Physical(la), s.m) else
    var l := la / PAGE;
    assert PathInRam(s.m, s.root, l, 4);
    PathPlaces(s.m, s.root, l, 4);
    var w := WalkFrom(s.m, s.root, l, 4);
    var o := Fresh(w, la % PAGE, user, write);
    var m := MarkPath(s.m, w.path);
    MarkGrows(s.m, w.path);
    (o, if o.Physical? && write then var a := w.path[|w.path| - 1]; m[a := SetDirty(m[a])] else m)
  }

  lemma {:induction false} PathMarks(m: seq<Byte>, path: seq<nat>)
    requires Places(m, path)
    ensures BitsSet(m, MarkPath(m, path), path, [])
    decreases |path|
  {
    hide Bit, SetAccessed;
    if path != [] {
      var m1 := m[path[0] := SetAccessed(m[path[0]])];
      PathMarks(m1, path[1..]);
      forall n: nat ensures Bit(SetAccessed(m[path[0]]), n) == if n == 5 then 1 else Bit(m[path[0]], n) { SetsOneBit(m[path[0]], n); }
      assert path == [path[0]] + path[1..];
    }
  }

  /**
   The bits that an access sets: the accessed bit, bit 5, of the present entries that the walk reads, and, when the
   access writes, the dirty bit, bit 6, of the last of them.
   */
  ghost predicate Marks(s: Machine, m': seq<Byte>, l: nat, wrote: bool)
    requires Sane(s)
  {
    if !s.loaded then m' == s.m else
    assert PathInRam(s.m, s.root, l, 4);
    var path := WalkFrom(s.m, s.root, l, 4).path;
    BitsSet(s.m, m', path, if wrote && path != [] then [path[|path| - 1]] else [])
  }

  lemma AccessMarks(s: Machine, la: Qword, user: bool, write: bool)
    requires Sane(s)
    ensures var (o, m') := WalkAccess(s, la, user, write); Marks(s, m', la / PAGE, o.Physical? && write)
  {
    hide PathInRam, WalkFrom, BitsSet, SetDirty, MarkPath, P.Permits, P.ErrorCode;
    if s.loaded {
      assert PathInRam(s.m, s.root, la / PAGE, 4);
      PathPlaces(s.m, s.root, la / PAGE, 4);
      var path := WalkFrom(s.m, s.root, la / PAGE, 4).path;
      PathMarks(s.m, path);
      if path != [] {
        MarkGrows(s.m, path);
        GrowsLength(s.m, MarkPath(s.m, path));
        DirtySet(s.m, MarkPath(s.m, path), path, path[|path| - 1]);
      }
    }
  }

  const SLOTS := 512
  const INVALID := 0xffff_ffff_ffff_ffff

  /** `dirty` is the index of the leaf entry's low byte; -1 stands for the spare byte. */
  datatype Entry = Entry(lpgno: nat, xaddr: nat, us: bool, rw: bool, dirty: int)

  /** A valid entry repeats what the walk for its page finds, and the walk's marks are set. */
  ghost predicate EntryOk(s: Machine, e: Entry)
    requires Sane(s)
  {
    e.lpgno != INVALID ==>
      if !s.loaded then e == Entry(e.lpgno, 0, true, true, -1)
      else
        var w := WalkFrom(s.m, s.root, e.lpgno, 4);
        && w.Mapped? && w.path != [] && e.us == w.us && e.rw == w.rw && e.dirty == w.path[|w.path| - 1]
        && e.xaddr == Xor(PAGE * w.frame, PAGE * e.lpgno)
        && AllAccessed(s.m, w.path)
  }

  /** Setting accessed and dirty bits changes no walk and spoils no entry. */
  lemma GrowsKeepsEntries(s: Machine, m': seq<Byte>, tab: seq<Entry>)
    requires Sane(s) && s.loaded && BitsGrow(s.m, m', true)
    ensures Sane(s.(m := m'))
    ensures forall l: nat :: PathInRam(s.m, s.root, l, 4) && WalkFrom(m', s.root, l, 4) == WalkFrom(s.m, s.root, l, 4)
    ensures forall e :: e in tab && EntryOk(s, e) ==> EntryOk(s.(m := m'), e)
  {
    hide BitsGrow, WalkFrom, Accessed, PathInRam;
    forall l: nat
      ensures PathInRam(s.m, s.root, l, 4) && PathInRam(m', s.root, l, 4) && WalkFrom(m', s.root, l, 4) == WalkFrom(s.m, s.root, l, 4)
    {
      assert TablesInRam(s.m, s.root);
      SameWalk(s.m, m', s.root, l, 4);
    }
    forall e | e in tab && EntryOk(s, e)
      ensures EntryOk(s.(m := m'), e)
    {
      if e.lpgno != INVALID {
        var path := WalkFrom(s.m, s.root, e.lpgno, 4).path;
        forall i | 0 <= i < |path|
          ensures Accessed(m', path[i])
        {
          MarksKept(s.m, m', path[i], true);
        }
      }
    }
  }

  lemma FrameXor(frame: nat, la: Qword)
    ensures Xor(Xor(PAGE * frame, PAGE * (la / PAGE)), la) == PAGE * frame + la % PAGE
  {
    hide Xor, Shl;
    ShlTwelve(frame);
    ShlTwelve(la / PAGE);
    ShlTwelve(1);
    XorMovesOffset(frame, la / PAGE, la % PAGE, 12);
  }

  /** A sound entry decides an access as a fresh walk does, and no new bit but the dirty one is set. */
  lemma EntryDecides(s: Machine, e: Entry, la: Qword, user: bool, write: bool)
    requires Sane(s) && e.lpgno == la / PAGE && EntryOk(s, e)
    ensures s.loaded ==> 0 <= e.dirty < |s.m| && e.dirty % 8 == 0
    ensures !s.loaded ==> e.dirty == -1
    ensures if P.Lookup(true, e.us, e.rw, user, write) then
              WalkAccess(s, la, user, write) == (PageFault(P.ErrorCode(true, write, user)), s.m)
            else
              WalkAccess(s, la, user, write)
              == (Physical(Xor(e.xaddr, la)), if write && s.loaded then s.m[e.dirty := SetDirty(s.m[e.dirty])] else s.m)
  {
    hide Xor, SetDirty, Accessed, P.Lookup, P.Permits, WalkFrom, PathInRam;
    P.LookupIsPermits(true, e.us, e.rw, user, write);
    if s.loaded {
      assert PathInRam(s.m, s.root, la / PAGE, 4);
      PathPlaces(s.m, s.root, la / PAGE, 4);
      var w := WalkFrom(s.m, s.root, la / PAGE, 4);
      MarkedAlready(s.m, w.path);
      FrameXor(w.frame, la);
    } else {
      XorZero(la);
      AllRights(user, write);
    }
  }

  lemma AllRights(user: bool, write: bool)
    ensures !P.Lookup(true, true, true, user, write)
  {
  }

  // ---------- the walk, level by level ----------

  /** From the root, `path` has been walked and marked, and `table` is to be read next. */
  ghost predicate Reached(m0: seq<Byte>, root: nat, l: nat, path: seq<nat>, us: bool, rw: bool,
                          m: seq<Byte>, table: nat, level: nat)
  {
    && 1 <= level <= 4 && PathInRam(m0, root, l, 4)
    && Places(m0, path) && m == MarkPath(m0, path)
    && PathInRam(m, table, l, level)
    && WalkFrom(m0, root, l, 4) == Above(path, us, rw, WalkFrom(m, table, l, level))
  }

  lemma Start(s: Machine, l: nat)
    requires Sane(s) && s.loaded
    ensures Reached(s.m, s.root, l, [], true, true, s.m, s.root, 4) && PathInRam(s.m, s.root, l, 4)
  {
    assert PathInRam(s.m, s.root, l, 4);
    var w := WalkFrom(s.m, s.root, l, 4);
    assert [] + w.path == w.path;
  }

  lemma Descend(m0: seq<Byte>, root: nat, l: nat, path: seq<nat>, us: bool, rw: bool, m: seq<Byte>, table: nat, level: nat)
    requires Reached(m0, root, l, path, us, rw, m, table, level)
    ensures EntryAddr(table, l, level) + 8 <= |m|
    ensures var a := EntryAddr(table, l, level);
            var e, m' := Qword64(m, a), m[a := SetAccessed(m[a])];
            if !Present(e) then WalkFrom(m0, root, l, 4) == Missing(path) && BitsGrow(m0, m, true)
            else
              && Places(m0, path + [a]) && m' == MarkPath(m0, path + [a])
              && BitsGrow(m0, m', true) && AllAccessed(m', path + [a])
              && if IsLeaf(e, level) then
                   WalkFrom(m0, root, l, 4) == Mapped(FrameOf(e, l, level), us && User(e), rw && Writable(e), path + [a])
                 else
                   Reached(m0, root, l, path + [a], us && User(e), rw && Writable(e), m', PageNumber(e), level - 1)
  {
    hide Qword64, Present, Large, User, Writable, PageNumber, FrameOf, EntryAddr, PathInRam, WalkFrom, IsLeaf;
    hide BitsGrow, SetAccessed, Accessed, MarkPath;
    WalkStep(m, table, l, level);
    MarkGrows(m0, path);
    var a := EntryAddr(table, l, level);
    var e := Qword64(m, a);
    assert path + [] == path;
    if Present(e) {
      assert |m| == |m0| by { GrowsLength(m0, m); }
      MarkAppend(m0, path, a);
      MarkGrows(m0, path + [a]);
      var m' := MarkPath(m0, path + [a]);
      if !IsLeaf(e, level) {
        SettingGrows(m, a, true);
        SameWalk(m, m', PageNumber(e), l, level - 1);
        var w := WalkFrom(m, PageNumber(e), l, level - 1);
        assert path + ([a] + w.path) == path + [a] + w.path;
      }
    }
  }

  lemma GrowsLength(m: seq<Byte>, m': seq<Byte>)
    requires BitsGrow(m, m', true)
    ensures |m'| == |m|
  {
  }

  // ---------- what a fill leaves behind ----------

  /** The machine after a walk for page `l` has set its accessed bits. */
  ghost function Marked(s: Machine, l: nat): Machine
    requires Sane(s)
  {
    if !s.loaded then s else
    assert PathInRam(s.m, s.root, l, 4);
    PathPlaces(s.m, s.root, l, 4);
    s.(m := MarkPath(s.m, WalkFrom(s.m, s.root, l, 4).path))
  }

  ghost predicate AllOk(s: Machine, tab: seq<Entry>)
    requires Sane(s)
  {
    forall e :: e in tab ==> EntryOk(s, e)
  }

  lemma NotFilled(s: Machine, m': seq<Byte>, tab: seq<Entry>)
    requires Sane(s) && s.loaded && BitsGrow(s.m, m', true) && AllOk(s, tab)
    ensures Sane(s.(m := m')) && AllOk(s.(m := m'), tab)
  {
    hide TablesInRam, EntryOk, BitsGrow;
    GrowsKeepsEntries(s, m', tab);
  }

  lemma Filled(s: Machine, m': seq<Byte>, tab: seq<Entry>, k: nat, e: Entry)
    requires Sane(s) && s.loaded && BitsGrow(s.m, m', true) && AllOk(s, tab) && k < |tab| && e.lpgno < INVALID
    requires PathInRam(s.m, s.root, e.lpgno, 4)
    requires var w := WalkFrom(s.m, s.root, e.lpgno, 4);
             && w.Mapped? && w.path != [] && AllAccessed(m', w.path)
             && e == Entry(e.lpgno, Xor(PAGE * w.frame, PAGE * e.lpgno), w.us, w.rw, w.path[|w.path| - 1])
    ensures Sane(s.(m := m')) && AllOk(s.(m := m'), tab[k := e])
  {
    hide TablesInRam, BitsGrow, PathInRam, WalkFrom, Xor, AllAccessed;
    GrowsKeepsEntries(s, m', tab);
    assert EntryOk(s.(m := m'), e);
    hide EntryOk;
  }

  lemma UntranslatedOk(s: Machine, tab: seq<Entry>, k: nat, l: nat)
    requires Sane(s) && !s.loaded && AllOk(s, tab) && k < |tab|
    ensures AllOk(s, tab[k := Entry(l, 0, true, true, -1)])
  {
  }

  lemma UntranslatedKept(s: Machine, m': seq<Byte>, tab: seq<Entry>)
    requires Sane(s) && !s.loaded && AllOk(s, tab)
    ensures AllOk(s.(m := m'), tab)
  {
    assert forall e :: EntryOk(s, e) ==> EntryOk(s.(m := m'), e);
  }

  lemma InvalidOk(s: Machine, e: Entry)
    requires Sane(s) && e.lpgno == INVALID
    ensures EntryOk(s, e)
  {
  }

  /** After the marks of the walk, a fresh walk decides as before and sets the same bits. */
  lemma MarkingDecidesNothing(s: Machine, la: Qword, user: bool, write: bool)
    requires Sane(s)
    ensures Sane(Marked(s, la / PAGE)) && WalkAccess(Marked(s, la / PAGE), la, user, write) == WalkAccess(s, la, user, write)
    ensures s.loaded && (assert PathInRam(s.m, s.root, la / PAGE, 4); WalkFrom(s.m, s.root, la / PAGE, 4).Missing?) ==>
              WalkAccess(s, la, user, write) == (PageFault(P.ErrorCode(false, write, user)), Marked(s, la / PAGE).m)
  {
    hide PathInRam, WalkFrom, BitsGrow, Accessed, MarkPath, TablesInRam, SetDirty, AllAccessed, P.Permits, P.ErrorCode;
    if s.loaded {
      var l := la / PAGE;
      assert PathInRam(s.m, s.root, l, 4) by { Start(s, l); }
      PathPlaces(s.m, s.root, l, 4);
      var path := WalkFrom(s.m, s.root, l, 4).path;
      MarkGrows(s.m, path);
      var t := Marked(s, l);
      GrowsKeepsEntries(s, t.m, []);
      assert Places(t.m, path) by { GrowsLength(s.m, t.m); }
      MarkedAlready(t.m, path);
    }
  }

  // ---------- stores of the guest ----------

  /** The walk from `table` reads no byte at `p`. */
  ghost predicate Avoids(m: seq<Byte>, table: nat, l: nat, level: nat, p: nat)
    requires 1 <= level <= 4 && PathInRam(m, table, l, level)
    decreases level
  {
    var a := EntryAddr(table, l, level);
    var e := Qword64(m, a);
    && !(a <= p < a + 8)
    && (Present(e) && !IsLeaf(e, level) ==> Avoids(m, PageNumber(e), l, level - 1, p))
  }

  ghost predicate OutsideTables(m: seq<Byte>, root: nat, p: nat) {
    forall l: nat :: PathInRam(m, root, l, 4) ==> Avoids(m, root, l, 4, p)
  }

  lemma AvoidsStep(m: seq<Byte>, table: nat, l: nat, level: nat, p: nat)
    requires 1 <= level <= 4 && PathInRam(m, table, l, level) && Avoids(m, table, l, level, p)
    ensures var a := EntryAddr(table, l, level);
            var e := Qword64(m, a);
            !(a <= p < a + 8)
            && (Present(e) && !IsLeaf(e, level) ==>
                  level > 1 && PathInRam(m, PageNumber(e), l, level - 1) && Avoids(m, PageNumber(e), l, level - 1, p))
  {
  }

  lemma StoreKeepsQword(m: seq<Byte>, p: nat, v: Byte, a: nat)
    requires p < |m| && a + 8 <= |m| && !(a <= p < a + 8)
    ensures Qword64(m[p := v], a) == Qword64(m, a)
  {
  }

  lemma {:induction false} StoreKeepsWalk(m: seq<Byte>, table: nat, l: nat, level: nat, p: nat, v: Byte)
    requires 1 <= level <= 4 && PathInRam(m, table, l, level) && p < |m| && Avoids(m, table, l, level, p)
    ensures PathInRam(m[p := v], table, l, level)
    ensures var w := WalkFrom(m, table, l, level);
            WalkFrom(m[p := v], table, l, level) == w && p !in w.path
    decreases level
  {
    assert |m[p := v]| == |m| && PAGE * (table + 1) <= |m|;
    hide Qword64, Present, Large, User, Writable, PageNumber, FrameOf, EntryAddr, PathInRam, WalkFrom, IsLeaf, Avoids;
    AvoidsStep(m, table, l, level, p);
    var a := EntryAddr(table, l, level);
    StoreKeepsQword(m, p, v, a);
    WalkStep(m, table, l, level);
    var e := Qword64(m, a);
    if Present(e) && !IsLeaf(e, level) {
      StoreKeepsWalk(m, PageNumber(e), l, level - 1, p, v);
    }
    PathStep(m[p := v], table, l, level);
    WalkStep(m[p := v], table, l, level);
  }

  lemma StoreKeepsEntries(s: Machine, p: nat, v: Byte, tab: seq<Entry>)
    requires Sane(s) && s.loaded && p < |s.m| && OutsideTables(s.m, s.root, p) && AllOk(s, tab)
    ensures Sane(s.(m := s.m[p := v])) && AllOk(s.(m := s.m[p := v]), tab)
  {
    hide PathInRam, WalkFrom, Avoids;
    var s' := s.(m := s.m[p := v]);
    forall l: nat
      ensures PathInRam(s.m, s.root, l, 4) && PathInRam(s'.m, s.root, l, 4)
      ensures var w := WalkFrom(s.m, s.root, l, 4);
              WalkFrom(s'.m, s.root, l, 4) == w && p !in w.path
    {
      assert TablesInRam(s.m, s.root);
      StoreKeepsWalk(s.m, s.root, l, 4, p, v);
    }
    forall e | e in tab
      ensures EntryOk(s', e)
    {
      assert EntryOk(s, e);
    }
  }

  // ---------- runs ----------

  datatype Op =
    | Access(rwm: nat, la: Qword, cpl: nat)
    | StoreByte(p: nat, v: Byte)
    | MovCr3(newRoot: nat)
    | Flush

  /** Stores miss the page tables in use; tables put to use lie in memory. */
  ghost predicate LegalOp(s: Machine, op: Op) {
    match op
    case Access(rwm, _, _) => 1 <= rwm <= 3
    case StoreByte(p, _) => p < |s.m| && (s.loaded ==> OutsideTables(s.m, s.root, p))
    case MovCr3(newRoot) => TablesInRam(s.m, newRoot)
    case Flush => true
  }

  ghost function StepUncached(s: Machine, op: Op): (r: (seq<Outcome>, Machine))
    requires Sane(s) && LegalOp(s, op)
    ensures Sane(r.1)
  {
    match op
    case Access(rwm, la, cpl) =>
      WalkAccessKeepsTables(s, la, cpl > 0, rwm > 1);
      var (o, m) := WalkAccess(s, la, cpl > 0, rwm > 1); ([o], s.(m := m))
    case StoreByte(p, v) =>
      assert s.loaded ==> TablesInRam(s.m[p := v], s.root) by { if s.loaded { StoreKeepsEntries(s, p, v, []); } }
      ([], s.(m := s.m[p := v]))
    case MovCr3(newRoot) => ([], s.(loaded := true, root := newRoot))
    case Flush => ([], s)
  }

  ghost predicate Legal(s: Machine, ops: seq<Op>)
    requires Sane(s)
    decreases |ops|
  {
    ops != [] ==> LegalOp(s, ops[0]) && Legal(StepUncached(s, ops[0]).1, ops[1..])
  }

  ghost function RunUncached(s: Machine, ops: seq<Op>): (seq<Outcome>, Machine)
    requires Sane(s) && Legal(s, ops)
    decreases |ops|
  {
    if ops == [] then ([], s) else
    var (o, s1) := StepUncached(s, ops[0]);
    var (os, s2) := RunUncached(s1, ops[1..]);
    (o + os, s2)
  }

  lemma RunStep(s: Machine, ops: seq<Op>)
    requires Sane(s) && Legal(s, ops) && ops != []
    ensures LegalOp(s, ops[0]) && Legal(StepUncached(s, ops[0]).1, ops[1..])
    ensures var (o, s1) := StepUncached(s, ops[0]);
            var (os, s2) := RunUncached(s1, ops[1..]);
            RunUncached(s, ops) == (o + os, s2)
  {
    hide StepUncached, LegalOp, Sane;
  }

  lemma RunNothing(s: Machine)
    requires Sane(s)
    ensures Legal(s, []) && RunUncached(s, []) == ([], s)
  {
  }

  // ---------- runs over clean tables ----------

  /** What an operation should come to: an access, by a walk with aligned frames. */
  ghost function Meant(s: Machine, op: Op): seq<Outcome>
    requires Sane(s)
  {
    match op
    case Access(rwm, la, cpl) =>
      if !s.loaded then [Physical(la)] else
      assert PathInRam(s.m, s.root, la / PAGE, 4);
      [Fresh(AlignedWalk(s.m, s.root, la / PAGE, 4), la % PAGE, cpl > 0, rwm > 1)]
    case _ => []
  }

  ghost function RunMeant(s: Machine, ops: seq<Op>): seq<Outcome>
    requires Sane(s) && Legal(s, ops)
    decreases |ops|
  {
    if ops == [] then [] else Meant(s, ops[0]) + RunMeant(StepUncached(s, ops[0]).1, ops[1..])
  }

  /** No access of the run is translated by a large-page entry with bits set below its frame. */
  ghost predicate CleanRun(s: Machine, ops: seq<Op>)
    requires Sane(s) && Legal(s, ops)
    decreases |ops|
  {
    ops == [] ||
    (&& (ops[0].Access? && s.loaded ==>
           assert PathInRam(s.m, s.root, ops[0].la / PAGE, 4); CleanPath(s.m, s.root, ops[0].la / PAGE, 4))
     && CleanRun(StepUncached(s, ops[0]).1, ops[1..]))
  }

  /** In a run over clean entries every outcome is the one that the architecture means. */
  lemma {:induction false} CleanRunIsMeant(s: Machine, ops: seq<Op>)
    requires Sane(s) && Legal(s, ops) && CleanRun(s, ops)
    ensures RunUncached(s, ops).0 == RunMeant(s, ops)
    decreases |ops|
  {
    if ops != [] {
      hide MarkPath, Fresh, LegalOp, TablesInRam, PathInRam, WalkFrom, AlignedWalk, CleanPath;
      CleanStep(s, ops[0]);
      CleanRunIsMeant(StepUncached(s, ops[0]).1, ops[1..]);
    }
  }

  lemma CleanStep(s: Machine, op: Op)
    requires Sane(s) && LegalOp(s, op)
    requires op.Access? && s.loaded ==> PathInRam(s.m, s.root, op.la / PAGE, 4) && CleanPath(s.m, s.root, op.la / PAGE, 4)
    ensures StepUncached(s, op).0 == Meant(s, op)
  {
    hide MarkPath, Fresh, TablesInRam, PathInRam, WalkFrom, AlignedWalk, CleanPath;
    if op.Access? && s.loaded { CleanWalk(s.m, s.root, op.la / PAGE, 4); }
  }

  lemma WalkAccessKeepsTables(s: Machine, la: Qword, user: bool, write: bool)
    requires Sane(s)
    ensures Sane(s.(m := WalkAccess(s, la, user, write).1))
  {
    hide PathInRam, WalkFrom, BitsGrow, Accessed, MarkPath, TablesInRam, SetDirty, AllAccessed, P.Permits, P.ErrorCode;
    if s.loaded {
      var l := la / PAGE;
      assert PathInRam(s.m, s.root, l, 4) by { Start(s, l); }
      PathPlaces(s.m, s.root, l, 4);
      var path := WalkFrom(s.m, s.root, l, 4).path;
      MarkGrows(s.m, path);
      var (o, m') := WalkAccess(s, la, user, write);
      var m1 := MarkPath(s.m, path);
      GrowsLength(s.m, m1);
      if o.Physical? && write {
        SettingGrows(m1, path[|path| - 1], true);
        GrowsTransitive(s.m, m1, m', true);
      }
      GrowsKeepsEntries(s, m', []);
    }
  }

  lemma MissCode(rwm: nat, cpl: nat)
    requires 1 <= rwm <= 3
    ensures P.ErrorCode(false, rwm > 1, cpl > 0) == (if rwm / 2 % 2 == 1 then 2 else 0) + (if cpl != 0 then 4 else 0)
  {
  }

  class Mmu64 {
    const mem: array<Byte>
    const tab: array<Entry>
    var loaded: bool
    var root: nat
    var cr2: Qword
    var excerr: nat

    ghost function State(): Machine
      reads this, mem
    {
      Machine(mem[..], loaded, root)
    }

    ghost predicate Coherent()
      reads this, mem, tab
      ensures Coherent() ==> Sane(State())
    {
      tab.Length == SLOTS && Sane(State()) && AllOk(State(), tab[..])
    }

    method Clear()
      requires tab.Length == SLOTS && Sane(State())
      modifies tab
      ensures Coherent() && forall e :: e in tab[..] ==> e.lpgno == INVALID
    {
      for k := 0 to SLOTS
        invariant forall i :: 0 <= i < k ==> tab[i].lpgno == INVALID
      {
        tab[k] := tab[k].(lpgno := INVALID);
      }
    }

    /** Reads an entry and, when it is present, sets its accessed bit. */
    method ReadEntry(a: nat) returns (e: Qword)
      requires a + 8 <= mem.Length
      modifies mem
      ensures e == Qword64(old(mem[..]), a)
      ensures mem[..] == if Present(e) then old(mem[..])[a := SetAccessed(old(mem[a]))] else old(mem[..])
    {
      hide SetAccessed, Present;
      var b0: int, b1: int, b2: int, b3: int, b4: int := mem[a], mem[a + 1], mem[a + 2], mem[a + 3], mem[a + 4];
      var b5: int, b6: int, b7: int := mem[a + 5], mem[a + 6], mem[a + 7];
      e := b0 + 0x100 * (b1 + 0x100 * b2 + 0x1_0000 * b3 + 0x100_0000 * b4 + 0x1_0000_0000 * b5
                         + 0x100_0000_0000 * b6 + 0x1_0000_0000_0000 * b7);
      if Present(e) { mem[a] := SetAccessed(mem[a]); }
    }

    /** Puts the end of a walk into slot `k`. */
    method Fill(k: nat, l: nat, frame: nat, us: bool, rw: bool, dirty: int)
      requires tab.Length == SLOTS && k < SLOTS
      modifies tab
      ensures tab[..] == old(tab[..])[k := Entry(l, Xor(PAGE * frame, PAGE * l), us, rw, dirty)]
    {
      tab[k] := Entry(l, Xor(PAGE * frame, PAGE * l), us, rw, dirty);
    }

    /**
     One level of the walk: `path`, `us` and `rw` are what the levels above found, and the
     results are those up to and with this level.
     */
    method Visit(ghost m0: seq<Byte>, ghost path: seq<nat>, us: bool, rw: bool, table: nat, l: nat, level: nat)
      returns (e: Qword, us': bool, rw': bool, ghost path': seq<nat>)
      requires Reached(m0, root, l, path, us, rw, mem[..], table, level)
      modifies mem
      ensures BitsGrow(m0, mem[..], true) && Places(m0, path') && mem[..] == MarkPath(m0, path')
      ensures if !Present(e) then WalkFrom(m0, root, l, 4) == Missing(path') else
              && AllAccessed(mem[..], path') && path' != [] && path'[|path'| - 1] == EntryAddr(table, l, level)
              && if IsLeaf(e, level) then WalkFrom(m0, root, l, 4) == Mapped(FrameOf(e, l, level), us', rw', path')
                 else Reached(m0, root, l, path', us', rw', mem[..], PageNumber(e), level - 1)
    {
      hide Qword64, Present, Large, User, Writable, PageNumber, FrameOf, EntryAddr, PathInRam, WalkFrom, IsLeaf;
      hide BitsGrow, SetAccessed, Accessed, MarkPath, Places, AllAccessed;
      Descend(m0, root, l, path, us, rw, mem[..], table, level);
      var a := EntryAddr(table, l, level);
      e := ReadEntry(a);
      us', rw', path' := us && User(e), rw && Writable(e), path;
      if Present(e) { path' := path + [a]; }
    }

    /** Walks up to four levels for page `l` and fills slot `k`, unless an entry is absent. */
    method Refill(k: nat, l: nat) returns (ok: bool, ghost w: Walk)
      requires Coherent() && k < SLOTS && l < INVALID
      modifies mem, tab
      ensures Coherent()
      ensures State() == Marked(old(State()), l)
      ensures ok <==> loaded ==> WalkFrom(old(mem[..]), root, l, 4).Mapped?
      ensures loaded ==> SpelledByFields(old(mem[..]), root, l, w) && (ok <==> w.Mapped?)
      ensures loaded ==> BitsSet(old(mem[..]), mem[..], w.path, [])
      ensures if ok then tab[k].lpgno == l else tab[..] == old(tab[..])
    {
      hide Qword64, Present, Large, User, Writable, PageNumber, FrameOf, EntryAddr, PathInRam, WalkFrom;
      hide BitsGrow, Accessed, MarkPath, Xor, Places, AllAccessed, TablesInRam, AllOk, Reached, BitsSet, SpelledByFields;
      ghost var s, before := State(), tab[..];
      w := Missing([]);
      if !loaded {
        tab[k] := Entry(l, 0, true, true, -1);
        UntranslatedOk(s, before, k, l);
        assert tab[..] == before[k := tab[k]];
        ok := true;
        return;
      }
      Start(s, l);
      w := WalkFrom(s.m, s.root, l, 4);
      PathPlaces(s.m, s.root, l, 4);
      PathMarks(s.m, w.path);
      WalkSpelledByFields(s.m, s.root, l);
      ok := false;
      ghost var path: seq<nat>;
      var e4, us, rw;
      e4, us, rw, path := Visit(s.m, [], true, true, root, l, 4);
      NotFilled(s, mem[..], before);
      if !Present(e4) { return; }
      var e3;
      e3, us, rw, path := Visit(s.m, path, us, rw, PageNumber(e4), l, 3);
      NotFilled(s, mem[..], before);
      if !Present(e3) { return; }
      if Large(e3) {
        Fill(k, l, FrameOf(e3, l, 3), us, rw, EntryAddr(PageNumber(e4), l, 3));
        Filled(s, mem[..], before, k, tab[k]);
        ok := true;
        return;
      }
      var e2;
      e2, us, rw, path := Visit(s.m, path, us, rw, PageNumber(e3), l, 2);
      NotFilled(s, mem[..], before);
      if !Present(e2) { return; }
      if Large(e2) {
        Fill(k, l, FrameOf(e2, l, 2), us, rw, EntryAddr(PageNumber(e3), l, 2));
        Filled(s, mem[..], before, k, tab[k]);
        ok := true;
        return;
      }
      var e1;
      e1, us, rw, path := Visit(s.m, path, us, rw, PageNumber(e2), l, 1);
      NotFilled(s, mem[..], before);
      if !Present(e1) { return; }
      Fill(k, l, FrameOf(e1, l, 1), us, rw, EntryAddr(PageNumber(e2), l, 1));
      Filled(s, mem[..], before, k, tab[k]);
      ok := true;
    }

    /** The rights and the address, once slot `k` is the page's: a fault drops it. */
    method Hit(k: nat, rwm: nat, la: Qword, cpl: nat) returns (o: Outcome)
      requires Coherent() && 1 <= rwm <= 3 && k < SLOTS && tab[k].lpgno == la / PAGE
      modifies mem, tab, this`cr2, this`excerr
      ensures Coherent() && loaded == old(loaded) && root == old(root)
      ensures (o, mem[..]) == WalkAccess(old(State()), la, cpl > 0, rwm > 1)
      ensures o.PageFault? ==> cr2 == la && excerr == o.code && tab[k].lpgno == INVALID
      ensures o.Physical? ==> cr2 == old(cr2) && excerr == old(excerr)
    {
      hide PathInRam, WalkFrom, BitsGrow, Accessed, MarkPath, Xor, Places, AllAccessed, TablesInRam, EntryOk;
      hide WalkAccess, P.Lookup, SetDirty;
      var user, write := cpl > 0, rwm > 1;
      ghost var t, before := State(), tab[..];
      assert tab[k] in tab[..];
      EntryDecides(t, tab[k], la, user, write);
      if P.Lookup(true, tab[k].us, tab[k].rw, user, write) {
        cr2 := la;
        excerr := 1 + (if rwm / 2 % 2 == 1 then 2 else 0) + (if cpl != 0 then 4 else 0);
        tab[k] := tab[k].(lpgno := INVALID);
        InvalidOk(t, tab[k]);
        assert tab[..] == before[k := tab[k]];
        return PageFault(excerr);
      }
      o := Physical(Xor(tab[k].xaddr, la));
      if rwm / 2 % 2 == 1 && tab[k].dirty >= 0 {
        var p := tab[k].dirty;
        mem[p] := SetDirty(mem[p]);
        assert mem[..] == t.m[p := SetDirty(t.m[p])];
        SettingGrows(t.m, p, true);
        GrowsKeepsEntries(t, mem[..], tab[..]);
      }
    }

    /**
     `translate_lpgno`: the translation of one linear address. Through the cache it comes to
     the outcome, and leaves the memory, of a fresh walk. A fault leaves no entry behind.
     */
    method Translate(rwm: nat, la: Qword, cpl: nat) returns (o: Outcome)
      requires Coherent() && 1 <= rwm <= 3
      modifies mem, tab, this`cr2, this`excerr
      ensures Coherent() && loaded == old(loaded) && root == old(root)
      ensures (o, mem[..]) == WalkAccess(old(State()), la, cpl > 0, rwm > 1)
      ensures Marks(old(State()), mem[..], la / PAGE, o.Physical? && rwm > 1)
      ensures o.PageFault? ==> cr2 == la && excerr == o.code && tab[la / PAGE % SLOTS].lpgno != la / PAGE
      ensures o.Physical? ==> cr2 == old(cr2) && excerr == old(excerr)
    {
      hide PathInRam, WalkFrom, TablesInRam, WalkAccess, Marks, BitsSet, SpelledByFields, EntryOk, P.ErrorCode;
      var lpgno := la / PAGE;
      var k := lpgno % SLOTS;
      var user, write := cpl > 0, rwm > 1;
      ghost var s := State();
      AccessMarks(s, la, user, write);
      if tab[k].lpgno != lpgno {
        MarkingDecidesNothing(s, la, user, write);
        var ok, w := Refill(k, lpgno);
        if !ok {
          cr2 := la;
          excerr := (if rwm / 2 % 2 == 1 then 2 else 0) + (if cpl != 0 then 4 else 0);
          MissCode(rwm, cpl);
          return PageFault(excerr);
        }
      }
      o := Hit(k, rwm, la, cpl);
    }

    /** A store of the guest to physical memory that no walk reads. */
    method Store(p: nat, v: Byte)
      requires Coherent() && p < mem.Length && (loaded ==> OutsideTables(mem[..], root, p))
      modifies mem
      ensures Coherent() && State() == old(State()).(m := old(mem[..])[p := v])
    {
      hide TablesInRam, OutsideTables, EntryOk;
      ghost var s := State();
      mem[p] := v;
      assert mem[..] == s.m[p := v];
      if loaded { StoreKeepsEntries(s, p, v, tab[..]); } else { UntranslatedKept(s, mem[..], tab[..]); }
    }

    /** MOV to CR3, the first of which puts the tables to use. */
    method SetCr3(newRoot: nat)
      requires Coherent() && TablesInRam(mem[..], newRoot)
      modifies tab, this`loaded, this`root
      ensures Coherent() && State() == old(State()).(loaded := true, root := newRoot)
    {
      root, loaded := newRoot, true;
      Clear();
    }

    method Step(op: Op) returns (o: seq<Outcome>)
      requires Coherent() && LegalOp(State(), op)
      modifies mem, tab, this`loaded, this`root, this`cr2, this`excerr
      ensures Coherent()
      ensures (o, State()) == StepUncached(old(State()), op)
    {
      hide TablesInRam, WalkAccess, OutsideTables, Coherent, Sane;
      o := [];
      match op {
        case Access(rwm, la, cpl) =>
          var one := Translate(rwm, la, cpl);
          o := [one];
        case StoreByte(p, v) => Store(p, v);
        case MovCr3(newRoot) => SetCr3(newRoot);
        case Flush => Flushed();
      }
    }

    method Flushed()
      requires Coherent()
      modifies tab
      ensures Coherent() && State() == old(State())
    {
      Clear();
    }

    /**
     Any run in which the guest leaves the page tables alone: the outcomes and the memory are
     those of the machine that walks the four levels on every access.
     */
    method Run(ops: seq<Op>) returns (outcomes: seq<Outcome>)
      requires Coherent() && Legal(State(), ops)
      modifies mem, tab, this`loaded, this`root, this`cr2, this`excerr
      ensures Coherent()
      ensures (outcomes, State()) == RunUncached(old(State()), ops)
    {
      hide Coherent, Sane, LegalOp, StepUncached, TablesInRam, OutsideTables, WalkAccess, AllOk, Legal, RunUncached;
      outcomes := [];
      ghost var s0 := State();
      assert ops[0..] == ops && [] + RunUncached(s0, ops).0 == RunUncached(s0, ops).0;
      assert Sane(s0);
      for n := 0 to |ops|
        invariant Coherent() && Sane(State()) && Legal(State(), ops[n..])
        invariant var (os, s) := RunUncached(State(), ops[n..]); RunUncached(s0, ops) == (outcomes + os, s)
      {
        assert ops[n..][0] == ops[n] && ops[n..][1..] == ops[n + 1..];
        RunStep(State(), ops[n..]);
        ghost var before := outcomes;
        var o := Step(ops[n]);
        outcomes := outcomes + o;
        ghost var rest := RunUncached(State(), ops[n + 1..]).0;
        assert before + (o + rest) == outcomes + rest;
      }
      assert ops[|ops|..] == [] && outcomes + [] == outcomes;
      RunNothing(State());
    }
  }
}
