/**
 Two-level paging: the page walk on the bytes of physical memory, the access rights, and
 why the accessed and dirty bits that a walk sets change no translation.
 */
module Paging {
  import opened Words
  import opened EntryBits

  const PAGE := 0x1000
  const PAGES := 0x10_0000

  /** The little-endian dword at `a`. */
  function Dword(m: seq<Byte>, a: nat): Word
    requires a + 4 <= |m|
  {
    var b0: int, b1: int, b2: int, b3: int := m[a], m[a + 1], m[a + 2], m[a + 3];
    b0 + 0x100 * b1 + 0x1_0000 * b2 + 0x100_0000 * b3
  }

  /** `x & ~0xfff`. */
  function PageBase(x: Word): (r: Word)
    ensures r % 4 == 0 && r <= x && r + PAGE <= 0x1_0000_0000
  {
    x - x % PAGE
  }

  predicate Present(entry: Word) {
    entry % 2 == 1
  }

  /** Entry `i` of a table that occupies one page. */
  function EntryAddr(base: Word, i: nat): nat {
    PageBase(base) + 4 * i
  }

  /** The page directory and every page table that it names lie in memory. */
  predicate TablesInRam(m: seq<Byte>, cr3: Word) {
    && PageBase(cr3) + PAGE <= |m|
    && forall i {:trigger EntryAddr(cr3, i)} :: 0 <= i < 1024 ==>
         var pde := Dword(m, EntryAddr(cr3, i)); Present(pde) ==> PageBase(pde) + PAGE <= |m|
  }

  datatype Walk =
    | NoTable
    | NoPage(pde: nat)
    | Mapped(frame: Word, us: bool, rw: bool, pde: nat, pte: nat)

  /** The walk for linear page `l`: the entries used, the frame, and the rights of both levels. */
  function WalkOf(m: seq<Byte>, cr3: Word, l: nat): (w: Walk)
    requires TablesInRam(m, cr3) && l < PAGES
    ensures w.Mapped? ==> w.frame + PAGE <= 0x1_0000_0000
  {
    var pdeAddr := EntryAddr(cr3, l / 1024);
    var pde := Dword(m, pdeAddr);
    if !Present(pde) then NoTable else
    var pteAddr := EntryAddr(pde, l % 1024);
    var pte := Dword(m, pteAddr);
    if !Present(pte) then NoPage(pdeAddr) else
    Mapped(PageBase(pte), pde / 4 % 2 == 1 && pte / 4 % 2 == 1, pde / 2 % 2 == 1 && pte / 2 % 2 == 1, pdeAddr, pteAddr)
  }

  /**
   The walk written out: the entries lie at four times the upper and the lower ten bits of the page number, in the
   pages that CR3 and the directory's entry name, and every right must be granted at both levels.
   */
  lemma WalkFields(m: seq<Byte>, cr3: Word, i: nat, j: nat)
    requires TablesInRam(m, cr3) && i < 1024 && j < 1024
    ensures var w, a := WalkOf(m, cr3, 1024 * i + j), cr3 - cr3 % 0x1000 + 4 * i;
            && a + 4 <= |m|
            && var pde := Dword(m, a);
               if pde % 2 == 0 then w == NoTable else
               var b := pde - pde % 0x1000 + 4 * j;
               && b + 4 <= |m|
               && var pte := Dword(m, b);
                  if pte % 2 == 0 then w == NoPage(a) else
                  w == Mapped(pte - pte % 0x1000, pde / 4 % 2 == pte / 4 % 2 == 1, pde / 2 % 2 == pte / 2 % 2 == 1, a, b)
  {
    hide Dword;
    var l := 1024 * i + j;
    assert l / 1024 == i && l % 1024 == j;
    TableRange(m, cr3, l);
  }

  /** Whether an access is allowed to a page with user bit `us` and writable bit `rw`. */
  predicate Permits(wp: bool, us: bool, rw: bool, user: bool, write: bool) {
    if user then us && (write ==> rw) else write && wp ==> rw
  }

  /** The table `pte_lookup`: true where the access faults. */
  predicate Lookup(wp: bool, us: bool, rw: bool, user: bool, write: bool) {
    match (wp, us, rw)
    case (false, false, false) => user
    case (false, false, true) => user
    case (false, true, false) => user && write
    case (false, true, true) => false
    case (true, false, false) => user || write
    case (true, false, true) => user
    case (true, true, false) => write
    case (true, true, true) => false
  }

  lemma LookupIsPermits(wp: bool, us: bool, rw: bool, user: bool, write: bool)
    ensures Lookup(wp, us, rw, user, write) <==> !Permits(wp, us, rw, user, write)
  {
  }

  datatype Outcome = Physical(addr: Word) | PageFault(code: nat)

  /** P, W/R and U/S of the error code. */
  function ErrorCode(present: bool, write: bool, user: bool): nat {
    (if present then 1 else 0) + (if write then 2 else 0) + (if user then 4 else 0)
  }

  /** What an access to the linear address `la` must come to, by a fresh walk. */
  function Fresh(m: seq<Byte>, cr3: Word, wp: bool, la: Word, user: bool, write: bool): Outcome
    requires TablesInRam(m, cr3)
  {
    match WalkOf(m, cr3, la / PAGE)
    case Mapped(frame, us, rw, _, _) =>
      if Permits(wp, us, rw, user, write) then Physical(frame + la % PAGE) else PageFault(ErrorCode(true, write, user))
    case _ => PageFault(ErrorCode(false, write, user))
  }

  // ---------- accessed and dirty bits ----------

  lemma SameFields(m: seq<Byte>, m': seq<Byte>, a: nat)
    requires BitsGrow(m, m', false) && a + 4 <= |m| && a % 4 == 0
    ensures var e, e' := Dword(m, a), Dword(m', a);
            && Present(e) == Present(e') && PageBase(e) == PageBase(e')
            && e / 2 % 2 == e' / 2 % 2 && e / 4 % 2 == e' / 4 % 2
  {
    assert m'[a + 1] == m[a + 1] && m'[a + 2] == m[a + 2] && m'[a + 3] == m[a + 3];
    var b1: int, b2: int, b3: int := m[a + 1], m[a + 2], m[a + 3];
    var k := b1 + 0x100 * b2 + 0x1_0000 * b3;
    assert Dword(m, a) == m[a] + 0x100 * k && Dword(m', a) == m'[a] + 0x100 * k;
    assert m'[a] % 8 == m[a] % 8;
    hide Dword, PageBase, Present, BitsGrow;
    EntryFields(m[a], m'[a], k);
  }

  lemma EntryFields(b: Byte, b': Byte, k: nat)
    requires b % 8 == b' % 8 && k < 0x100_0000
    ensures var e: Word, e': Word := b + 0x100 * k, b' + 0x100 * k;
            && Present(e) == Present(e') && PageBase(e) == PageBase(e')
            && e / 2 % 2 == e' / 2 % 2 && e / 4 % 2 == e' / 4 % 2
  {
    hide PageBase, Present;
    LowFields(b, k);
    LowFields(b', k);
    LowFields(b, 0);
  }

  lemma LowFields(b: Byte, k: nat)
    requires k < 0x100_0000
    ensures var e: Word := b + 0x100 * k;
            && (Present(e) <==> b % 8 % 2 == 1)
            && e / 2 % 2 == b % 8 / 2 % 2 && e / 4 % 2 == b % 8 / 4
            && PageBase(e) == 0x100 * (k - k % 16)
  {
    var e: Word := b + 0x100 * k;
    assert e % 8 == b % 8;
    assert e % 2 == e % 8 % 2 && e / 2 % 2 == e % 8 / 2 % 2 && e / 4 % 2 == e % 8 / 4 by { LowThree(e); }
    assert e % 0x1000 == b + 0x100 * (k % 16) by { LowTwelve(b, k); }
  }

  lemma LowTwelve(b: Byte, k: nat)
    ensures (b + 0x100 * k) % 0x1000 == b + 0x100 * (k % 16)
  {
  }

  /** A walk reads nothing that the accessed and dirty bits change. */
  lemma SameWalks(m: seq<Byte>, m': seq<Byte>, cr3: Word)
    requires TablesInRam(m, cr3) && BitsGrow(m, m', false)
    ensures TablesInRam(m', cr3)
    ensures forall l :: 0 <= l < PAGES ==> WalkOf(m', cr3, l) == WalkOf(m, cr3, l)
  {
    hide Dword, BitsGrow, PageBase;
    SameLength(m, m');
    forall i | 0 <= i < 1024
      ensures var pde, pde' := Dword(m, EntryAddr(cr3, i)), Dword(m', EntryAddr(cr3, i));
              Present(pde) == Present(pde') && PageBase(pde) == PageBase(pde')
    {
      SameFields(m, m', EntryAddr(cr3, i));
    }
    forall l | 0 <= l < PAGES
      ensures WalkOf(m', cr3, l) == WalkOf(m, cr3, l)
    {
      SameWalk(m, m', cr3, l);
    }
  }

  lemma SameLength(m: seq<Byte>, m': seq<Byte>)
    requires BitsGrow(m, m', false)
    ensures |m| == |m'|
  {
  }

  lemma SameWalk(m: seq<Byte>, m': seq<Byte>, cr3: Word, l: nat)
    requires TablesInRam(m, cr3) && TablesInRam(m', cr3) && BitsGrow(m, m', false) && l < PAGES
    ensures WalkOf(m', cr3, l) == WalkOf(m, cr3, l)
  {
    hide Dword, BitsGrow, TablesInRam, PageBase, Present;
    TableRange(m, cr3, l);
    var pdeAddr := EntryAddr(cr3, l / 1024);
    SameFields(m, m', pdeAddr);
    var pde := Dword(m, pdeAddr);
    if Present(pde) { SameFields(m, m', EntryAddr(pde, l % 1024)); }
  }

  lemma TableRange(m: seq<Byte>, cr3: Word, l: nat)
    requires TablesInRam(m, cr3) && l < PAGES
    ensures EntryAddr(cr3, l / 1024) + 4 <= |m| && EntryAddr(cr3, l / 1024) % 4 == 0
    ensures var pde := Dword(m, EntryAddr(cr3, l / 1024));
            Present(pde) ==> EntryAddr(pde, l % 1024) + 4 <= |m| && EntryAddr(pde, l % 1024) % 4 == 0
  {
    hide Dword, PageBase, Present;
    var i, j := l / 1024, l % 1024;
    assert 0 <= i < 1024 && 0 <= j < 1024;
    EntryInPage(cr3, i);
    EntryInPage(Dword(m, EntryAddr(cr3, i)), j);
  }

  lemma EntryInPage(base: Word, i: nat)
    requires i < 1024
    ensures EntryAddr(base, i) + 4 <= PageBase(base) + PAGE && EntryAddr(base, i) % 4 == 0
  {
    hide PageBase;
    var q := PageBase(base) / 4;
    assert EntryAddr(base, i) == 4 * (q + i);
  }
}
