/**
 REP MOVS and REP STOS. The core moves a page-sized chunk for each translation; one element at
 a time, with a translation for every element, comes to the same.
 */
module RepString {
  import opened EntryBits
  import opened SplitAccess

  // ---------- one element at a time ----------

  /** What a page translates to for one kind of access; `Elsewhere` is not RAM. */
  datatype Page = Faults | Elsewhere | At(frame: nat)

  datatype Kind = Movs(source: nat) | Stos(ax: nat)

  /** `source` and `dest` are segment bases; `wide` is 32-bit address size; `back` is the direction flag. */
  datatype Env = Env(pages: (nat, bool) -> Page, ram: nat, kind: Kind, dest: nat, size: nat, wide: bool, back: bool)

  const LIMIT := 0x1_0000_0000

  ghost predicate ValidEnv(e: Env) {
    && (e.size == 1 || e.size == 2 || e.size == 4)
    && e.dest < LIMIT && (e.kind.Movs? ==> e.kind.source < LIMIT)
    && forall p: nat, write: bool :: e.pages(p, write).At? ==> PAGE * (e.pages(p, write).frame + 1) <= e.ram
  }

  function IndexLimit(e: Env): nat {
    if e.wide then LIMIT else 0x1_0000
  }

  /** `marks` are the pages whose accessed (or dirty) bits a translation has set. */
  datatype State = State(m: seq<Byte>, marks: set<(nat, bool)>, si: nat, di: nat, cx: nat)

  predicate Fits(e: Env, s: State) {
    |s.m| == e.ram && s.si < IndexLimit(e) && s.di < IndexLimit(e) && s.cx < IndexLimit(e)
  }

  /** Why a run ended; `Outside` means that the next access is to a page that is not RAM. */
  datatype End = Done | Fault(la: nat, write: bool) | Outside

  /** `base + index`, modulo 2^32. */
  function Linear(base: nat, x: nat): nat {
    if base + x >= LIMIT then base + x - LIMIT else base + x
  }

  /** A register of the address size, after adding `d`. */
  function Moved(e: Env, x: nat, d: int): (r: nat)
    requires x < IndexLimit(e) && -PAGE <= d <= PAGE
    ensures r < IndexLimit(e)
  {
    if x + d < 0 then x + d + IndexLimit(e) else if x + d >= IndexLimit(e) then x + d - IndexLimit(e) else x + d
  }

  function Dir(e: Env): int {
    var size: int := e.size;
    if e.back then -size else size
  }

  datatype Located = Found(span: Span) | Stuck(end: End)

  /** `translate`, and the marks that it leaves. */
  function Locate(e: Env, la: nat, write: bool): (Located, set<(nat, bool)>) {
    var p := la / PAGE;
    match e.pages(p, write)
    case Faults => (Stuck(Fault(la, write)), {})
    case Elsewhere => (Stuck(Outside), {})
    case At(f1) =>
      if la % PAGE > PAGE - e.size then
        match e.pages(p + 1, write)
        case Faults => (Stuck(Fault(if (p + 1) * PAGE >= LIMIT then 0 else (p + 1) * PAGE, write)), {(p, write)})
        case Elsewhere => (Stuck(Outside), {(p, write)})
        case At(f2) => (Found(Place(la, e.size, f1, f2)), {(p, write), (p + 1, write)})
      else (Found(Place(la, e.size, f1, f1)), {(p, write)})
  }

  lemma LocatedInRam(e: Env, la: nat, write: bool)
    requires ValidEnv(e)
    ensures var l := Locate(e, la, write).0; l.Found? ==> InRam(l.span, e.size, e.ram)
  {
    var p := la / PAGE;
    if e.pages(p, write).At? {
      var f1 := e.pages(p, write).frame;
      if la % PAGE > PAGE - e.size {
        if e.pages(p + 1, write).At? { PlacesInRam(la, e.size, f1, e.pages(p + 1, write).frame, e.ram); }
      } else {
        PlacesInRam(la, e.size, f1, f1, e.ram);
      }
    }
  }

  /** The page of the byte `j` bytes from `la` on. */
  function BytePage(la: nat, j: nat): nat {
    (la + j) / PAGE
  }

  /** Byte `j` of an access to `span` lies where the translation of its own page puts it. */
  predicate InItsFrame(e: Env, la: nat, write: bool, span: Span, j: nat) {
    var page := e.pages(BytePage(la, j), write);
    page.At? && Where(span, j) == PAGE * page.frame + (la + j) % PAGE
  }

  ghost function PagesOfBytes(la: nat, write: bool, n: nat): set<(nat, bool)> {
    set j: nat | j < n :: (BytePage(la, j), write)
  }

  /**
   `translate` byte by byte: found, each byte lies where the translation of its own page puts it; stuck, the first `n`
   bytes translate and the next one faults, at its own address modulo 2^32, or is not in RAM. The pages of the bytes that
   translate are marked, and no others.
   */
  lemma LocateByBytes(e: Env, la: nat, write: bool) returns (n: nat)
    requires ValidEnv(e) && la < LIMIT
    ensures n <= e.size && forall j: nat :: j < n ==> e.pages(BytePage(la, j), write).At?
    ensures Locate(e, la, write).1 == PagesOfBytes(la, write, n)
    ensures match Locate(e, la, write).0
            case Found(span) => n == e.size && forall j: nat :: j < n ==> InItsFrame(e, la, write, span, j)
            case Stuck(end) =>
              && n < e.size
              && match end
                 case Fault(a, w) => w == write && a == (la + n) % 0x1_0000_0000 && e.pages(BytePage(la, n), write).Faults?
                 case Outside => e.pages(BytePage(la, n), write).Elsewhere?
                 case Done => false
  {
    hide BytePage, PagesOfBytes, InItsFrame;
    var p, o := la / PAGE, la % PAGE;
    var first := PAGE - o;
    forall j: nat | j <= e.size ensures BytePage(la, j) == if j < first then p else p + 1 { PageOfByte(la, j); }
    if !e.pages(p, write).At? {
      n := 0;
    } else if first < e.size && !e.pages(p + 1, write).At? {
      n := first;
      NextPage(p, o);
    } else {
      n := e.size;
      var f1 := e.pages(p, write).frame;
      var f2 := if first < e.size then e.pages(p + 1, write).frame else f1;
      forall j: nat | j < n ensures InItsFrame(e, la, write, Place(la, n, f1, f2), j) { FoundByte(e, la, write, f1, f2, j); }
    }
    MarksOfBytes(la, write, n);
  }

  lemma FoundByte(e: Env, la: nat, write: bool, f1: nat, f2: nat, j: nat)
    requires ValidEnv(e) && j < e.size && e.pages(la / PAGE, write) == At(f1)
    requires PAGE - la % PAGE < e.size ==> e.pages(la / PAGE + 1, write) == At(f2)
    ensures InItsFrame(e, la, write, Place(la, e.size, f1, f2), j)
  {
    hide Place, Where, BytePage;
    PageOfByte(la, j);
    PlaceIsBytewise(la, e.size, f1, f2, j);
    assert (la + j) / PAGE == BytePage(la, j) by { hide *; PageIs(la, j); }
  }

  lemma PageIs(la: nat, j: nat)
    ensures BytePage(la, j) == (la + j) / PAGE
  {
  }

  lemma MarksOfBytes(la: nat, write: bool, n: nat)
    requires n <= 4
    ensures var p, first := la / PAGE, PAGE - la % PAGE;
            PagesOfBytes(la, write, n) == (if n > 0 then {(p, write)} else {}) + (if n > first then {(p + 1, write)} else {})
  {
    hide BytePage;
    var first := PAGE - la % PAGE;
    forall j: nat | j < n ensures BytePage(la, j) == if j < first then la / PAGE else la / PAGE + 1 { PageOfByte(la, j); }
    if n > 0 { assert BytePage(la, 0) == la / PAGE; }
    if n > first { assert BytePage(la, first) == la / PAGE + 1; }
  }

  lemma PageOfByte(la: nat, j: nat)
    requires j < 8
    ensures BytePage(la, j) == if j < PAGE - la % PAGE then la / PAGE else la / PAGE + 1
  {
    var p, o := la / PAGE, la % PAGE;
    if o + j < PAGE { InPage(p, o + j); } else { InPage(p + 1, o + j - PAGE); }
  }

  lemma NextPage(p: nat, o: nat)
    requires o < PAGE && PAGE * p + o < LIMIT
    ensures (PAGE * p + o + (PAGE - o)) % 0x1_0000_0000 == if (p + 1) * PAGE >= LIMIT then 0 else (p + 1) * PAGE
  {
    assert PAGE * p + o + (PAGE - o) == PAGE * (p + 1) <= LIMIT;
  }

  datatype Step = Went(s: State) | Stopped(s: State, end: End)

  /** The value that an element stores: what MOVS loads, or AX. */
  ghost function Fetched(e: Env, s: State): (r: (Located, nat, set<(nat, bool)>))
    requires ValidEnv(e) && Fits(e, s)
  {
    match e.kind
    case Stos(ax) => (Found(One(0)), ax, {})
    case Movs(source) =>
      var (l, marks) := Locate(e, Linear(source, s.si), false);
      LocatedInRam(e, Linear(source, s.si), false);
      (l, if l.Found? then Value(Bytes(s.m, l.span, e.size)) else 0, marks)
  }

  /** One element, as `ldsistdi` and `stdi` do it. */
  ghost function Element(e: Env, s: State): (r: Step)
    requires ValidEnv(e) && Fits(e, s) && s.cx > 0
    ensures r.Went? ==> Fits(e, r.s) && r.s.cx == s.cx - 1
  {
    var (l1, v, marks1) := Fetched(e, s);
    if l1.Stuck? then Stopped(s.(marks := s.marks + marks1), l1.end) else
    var (l2, marks2) := Locate(e, Linear(e.dest, s.di), true);
    var marks := s.marks + marks1 + marks2;
    if l2.Stuck? then Stopped(s.(marks := marks), l2.end) else
    LocatedInRam(e, Linear(e.dest, s.di), true);
    Went(State(Stored(s.m, l2.span, Digits(v, e.size)), marks,
               if e.kind.Movs? then Moved(e, s.si, Dir(e)) else s.si, Moved(e, s.di, Dir(e)), s.cx - 1))
  }

  /** The whole instruction, one element at a time. */
  ghost function Each(e: Env, s: State): (State, End)
    requires ValidEnv(e) && Fits(e, s)
    decreases s.cx
  {
    if s.cx == 0 then (s, Done) else
    match Element(e, s)
    case Stopped(s', end) => (s', end)
    case Went(s') => Each(e, s')
  }

  // ---------- the pointer and the index ----------

  function Times(e: Env, n: nat): nat {
    if e.size == 1 then n else if e.size == 2 then 2 * n else 4 * n
  }

  function Aligned(e: Env, a: nat): bool {
    if e.size == 1 then true else if e.size == 2 then a % 2 == 0 else a % 4 == 0
  }

  /** How many elements, from offset `o` on, lie in the page. */
  function Room(e: Env, o: nat): nat
    requires o < PAGE
  {
    if e.back then 1 + (if e.size == 1 then o else if e.size == 2 then o / 2 else o / 4)
    else (if e.size == 1 then PAGE - o else if e.size == 2 then (PAGE - o) / 2 else (PAGE - o) / 4)
  }

  function Offset(e: Env, i: nat): (d: int)
    ensures Times(e, i) <= PAGE ==> -PAGE <= d <= PAGE
  {
    var n: int := Times(e, i);
    if e.back then -n else n
  }

  /** The index register `x` does not pass its limit within the next step. */
  predicate Straight(e: Env, x: nat) {
    if e.back then x >= e.size else x + e.size < IndexLimit(e)
  }

  /**
   A chunk steps a physical pointer where the instruction steps an index register. While the
   next element lies in the same page, they agree exactly when a 16-bit index does not wrap.
   */
  lemma PointerFollowsIndex(e: Env, base: nat, x: nat)
    requires ValidEnv(e) && base < LIMIT && x < IndexLimit(e)
    requires 0 <= Linear(base, x) % PAGE + Dir(e) <= PAGE - e.size
    ensures Linear(base, Moved(e, x, Dir(e))) == Linear(base, x) + Dir(e) <==> e.wide || Straight(e, x)
  {
    var la := Linear(base, x);
    assert la < LIMIT;
    assert la + Dir(e) < LIMIT && la + Dir(e) >= 0 by {
      assert la == PAGE * (la / PAGE) + la % PAGE;
    }
  }

  /** The index does not pass its limit between the first and the last of `n` elements. */
  predicate NoWrap(e: Env, x: nat, n: nat)
    requires n > 0
  {
    e.wide || if e.back then x >= Times(e, n - 1) else x + Times(e, n - 1) < IndexLimit(e)
  }

  /** No index wraps within the next `n` elements. */
  predicate NoneWraps(e: Env, s: State, n: nat)
    requires n > 0
  {
    NoWrap(e, s.di, n) && (e.kind.Movs? ==> NoWrap(e, s.si, n))
  }

  /** Element `j` of a chunk is accessed where its own index register points. */
  predicate Visits(e: Env, base: nat, x: nat, j: nat)
    requires x < IndexLimit(e)
  {
    Times(e, j) <= PAGE && Linear(base, Moved(e, x, Offset(e, j))) == Linear(base, x) + Offset(e, j)
  }

  /** The addresses that a chunk steps through are those of its elements exactly if the index does not wrap within it. */
  lemma ChunkVisits(e: Env, base: nat, x: nat, n: nat)
    requires ValidEnv(e) && base < LIMIT && x < IndexLimit(e) && n > 0
    requires Aligned(e, Linear(base, x) % PAGE) && n <= Room(e, Linear(base, x) % PAGE)
    ensures (forall j :: 0 <= j < n ==> Visits(e, base, x, j)) <==> NoWrap(e, x, n)
  {
    hide Visits, NoWrap, Times, Room, Aligned, Linear;
    VisitAt(e, base, x, n, n - 1);
    forall j | 0 <= j < n && NoWrap(e, x, n) ensures Visits(e, base, x, j) {
      VisitAt(e, base, x, n, j);
      NoWrapLess(e, x, j + 1, n);
    }
  }

  lemma NoWrapLess(e: Env, x: nat, i: nat, n: nat)
    requires 0 < i <= n && NoWrap(e, x, n)
    ensures NoWrap(e, x, i)
  {
    TimesMonotone(e, i - 1, n - 1);
  }

  lemma VisitAt(e: Env, base: nat, x: nat, n: nat, j: nat)
    requires ValidEnv(e) && base < LIMIT && x < IndexLimit(e) && j < n
    requires Aligned(e, Linear(base, x) % PAGE) && n <= Room(e, Linear(base, x) % PAGE)
    ensures Visits(e, base, x, j) <==> NoWrap(e, x, j + 1)
  {
    hide Room, Aligned;
    var la := Linear(base, x);
    RoomFits(e, la % PAGE, j);
    InsidePage(e, la % PAGE, n, j);
    assert la == PAGE * (la / PAGE) + la % PAGE;
    assert 0 <= la + Offset(e, j) < LIMIT;
  }

  /** Element `j` of those that the page has room for lies in the page. */
  lemma InsidePage(e: Env, o: nat, n: nat, j: nat)
    requires ValidEnv(e) && o < PAGE && Aligned(e, o) && j < n <= Room(e, o)
    ensures 0 <= o + Offset(e, j) && o + Offset(e, j) + e.size <= PAGE
  {
  }

  // ---------- chunks ----------

  lemma EachStep(e: Env, s: State)
    requires ValidEnv(e) && Fits(e, s) && s.cx > 0
    ensures var r := Element(e, s); Each(e, s) == if r.Stopped? then (r.s, r.end) else Each(e, r.s)
  {
  }

  /** An element that cannot be located ends the run where it is. */
  lemma EachStuck(e: Env, s: State)
    requires ValidEnv(e) && Fits(e, s) && s.cx > 0
    ensures var (l1, _, marks1) := Fetched(e, s);
            var (l2, marks2) := Locate(e, Linear(e.dest, s.di), true);
            && (l1.Stuck? ==> Each(e, s) == (s.(marks := s.marks + marks1), l1.end))
            && (l1.Found? && l2.Stuck? ==> Each(e, s) == (s.(marks := s.marks + marks1 + marks2), l2.end))
  {
    hide Each, Locate, Linear, Moved;
    EachStep(e, s);
  }

  lemma EachDone(e: Env, s: State)
    requires ValidEnv(e) && Fits(e, s) && s.cx == 0
    ensures Each(e, s) == (s, Done)
  {
  }

  /** Translating the pages of an element beforehand changes nothing. */
  lemma MarkedBefore(e: Env, s: State)
    requires ValidEnv(e) && Fits(e, s) && s.cx > 0
    ensures var marks := s.marks + Fetched(e, s).2 + (if Fetched(e, s).0.Found? then Locate(e, Linear(e.dest, s.di), true).1 else {});
            Each(e, s.(marks := marks)) == Each(e, s)
  {
    hide Each, Locate;
    var l2 := Locate(e, Linear(e.dest, s.di), true);
    var t := s.(marks := s.marks + Fetched(e, s).2 + (if Fetched(e, s).0.Found? then l2.1 else {}));
    EachStep(e, s);
    EachStep(e, t);
    assert Fetched(e, t) == Fetched(e, s);
    assert t.marks + Fetched(e, t).2 + l2.1 == s.marks + Fetched(e, s).2 + l2.1;
    assert Fetched(e, s).0.Stuck? ==> t.marks + Fetched(e, t).2 == s.marks + Fetched(e, s).2;
  }

  /** A pointer into the page that linear address `la` lies in, whose translation is known and marked. */
  ghost predicate Follows(e: Env, s: State, la: nat, write: bool, a: int)
    ensures Follows(e, s, la, write, a) ==> a >= 0
  {
    && la % PAGE <= PAGE - e.size && (la / PAGE, write) in s.marks
    && e.pages(la / PAGE, write).At? && a == PAGE * e.pages(la / PAGE, write).frame + la % PAGE
  }

  lemma FollowsIsLocate(e: Env, s: State, la: nat, write: bool, a: nat)
    requires ValidEnv(e) && Follows(e, s, la, write, a)
    ensures Locate(e, la, write).0 == Found(One(a)) && s.marks + Locate(e, la, write).1 == s.marks
    ensures InRam(One(a), e.size, e.ram)
  {
    LocatedInRam(e, la, write);
  }

  /** Inside a chunk, an element is a plain load and store through the pointers. */
  lemma ChunkElement(e: Env, s: State, a: nat, b: nat)
    requires ValidEnv(e) && Fits(e, s) && s.cx > 0
    requires e.kind.Movs? ==> Follows(e, s, Linear(e.kind.source, s.si), false, a)
    requires Follows(e, s, Linear(e.dest, s.di), true, b)
    ensures InRam(One(b), e.size, e.ram) && (e.kind.Movs? ==> InRam(One(a), e.size, e.ram))
    ensures Element(e, s) == Went(State(MovedElement(e, s.m, a, b), s.marks,
                                        if e.kind.Movs? then Moved(e, s.si, Dir(e)) else s.si, Moved(e, s.di, Dir(e)), s.cx - 1))
  {
    hide Locate, Follows, Moved, Linear;
    FollowsIsLocate(e, s, Linear(e.dest, s.di), true, b);
    if e.kind.Movs? { FollowsIsLocate(e, s, Linear(e.kind.source, s.si), false, a); }
  }

  lemma RoomForNext(e: Env, la: nat)
    requires ValidEnv(e) && Aligned(e, la) && Room(e, la % PAGE) > 1
    ensures 0 <= la % PAGE + Dir(e) <= PAGE - e.size
    ensures Room(e, la % PAGE + Dir(e)) == Room(e, la % PAGE) - 1 && Aligned(e, la + Dir(e))
  {
    AlignedOffset(e, la / PAGE, la % PAGE);
    AlignedStep(e, la % PAGE, la);
  }

  lemma AlignedStep(e: Env, o: nat, la: nat)
    requires ValidEnv(e) && Aligned(e, o) && Aligned(e, la) && o < PAGE && Room(e, o) > 1 && o <= la
    ensures 0 <= o + Dir(e) <= PAGE - e.size && Room(e, o + Dir(e)) == Room(e, o) - 1 && Aligned(e, la + Dir(e))
  {
  }

  lemma StraightNext(e: Env, x: nat, left: nat)
    requires ValidEnv(e) && x < IndexLimit(e) && left > 1 && NoWrap(e, x, left)
    ensures (e.wide || Straight(e, x)) && NoWrap(e, Moved(e, x, Dir(e)), left - 1)
  {
  }

  /** The pointer one element further on, in a chunk that has room for more. */
  lemma FollowsNext(e: Env, s: State, s': State, base: nat, x: nat, write: bool, a: int, left: nat)
    requires ValidEnv(e) && base < LIMIT && x < IndexLimit(e) && s'.marks == s.marks
    requires Follows(e, s, Linear(base, x), write, a) && Aligned(e, Linear(base, x))
    requires 1 < left && NoWrap(e, x, left)
    requires Room(e, Linear(base, x) % PAGE) > 1
    ensures var x' := Moved(e, x, Dir(e));
            && Follows(e, s', Linear(base, x'), write, a + Dir(e)) && Aligned(e, Linear(base, x'))
            && Room(e, Linear(base, x') % PAGE) == Room(e, Linear(base, x) % PAGE) - 1
            && NoWrap(e, x', left - 1)
  {
    hide Aligned, Room, NoWrap, Straight, Linear, Moved;
    var la := Linear(base, x);
    RoomForNext(e, la);
    StraightNext(e, x, left);
    PointerFollowsIndex(e, base, x);
    var p, o: nat := la / PAGE, la % PAGE + Dir(e);
    assert la + Dir(e) == PAGE * p + o;
    InPage(p, o);
  }

  /** An aligned element lies in one page, and the pointer to it can be stepped. */
  lemma AlignedFollows(e: Env, s: State, la: nat, write: bool)
    requires ValidEnv(e)
    requires var (l, marks) := Locate(e, la, write); l.Found? && Aligned(e, l.span.addr1) && marks <= s.marks
    ensures var a := Locate(e, la, write).0.span.addr1;
            && Locate(e, la, write).0.span.One? && Follows(e, s, la, write, a) && Aligned(e, la)
            && a % PAGE == la % PAGE && Room(e, la % PAGE) >= 1
  {
    hide Aligned, Room;
    var f := e.pages(la / PAGE, write).frame;
    InPage(f, la % PAGE);
    AlignedOffset(e, f, la % PAGE);
    AlignedOffset(e, la / PAGE, la % PAGE);
  }

  lemma AlignedOffset(e: Env, p: nat, o: nat)
    requires ValidEnv(e) && o < PAGE
    ensures Aligned(e, PAGE * p + o) <==> Aligned(e, o)
    ensures Aligned(e, o) ==> o <= PAGE - e.size && Room(e, o) >= 1
  {
    hide Aligned, Room;
    AlignedPage(e, p, o);
    if Aligned(e, o) { AlignedRoom(e, o); }
  }

  lemma PageMultiple(p: nat, o: nat)
    ensures (PAGE * p + o) % 4 == o % 4 && (PAGE * p + o) % 2 == o % 2
  {
    Remainder4(0x400 * p + o / 4, o % 4);
    Remainder2(0x800 * p + o / 2, o % 2);
  }

  lemma Remainder4(q: nat, r: nat)
    requires r < 4
    ensures (4 * q + r) % 4 == r
  {
  }

  lemma Remainder2(q: nat, r: nat)
    requires r < 2
    ensures (2 * q + r) % 2 == r
  {
  }

  lemma AlignedPage(e: Env, p: nat, o: nat)
    ensures Aligned(e, PAGE * p + o) <==> Aligned(e, o)
  {
    PageMultiple(p, o);
  }

  lemma AlignedRoom(e: Env, o: nat)
    requires ValidEnv(e) && o < PAGE && Aligned(e, o)
    ensures o <= PAGE - e.size && Room(e, o) >= 1
  {
  }

  lemma MovedOnce(e: Env, x: nat, i: nat)
    requires ValidEnv(e) && x < IndexLimit(e) && Times(e, i + 1) <= PAGE
    ensures Moved(e, Moved(e, x, Offset(e, i)), Dir(e)) == Moved(e, x, Offset(e, i + 1))
  {
  }

  lemma RoomFits(e: Env, o: nat, i: nat)
    requires ValidEnv(e) && o < PAGE && i <= Room(e, o) && Aligned(e, o)
    ensures Times(e, i) <= PAGE
  {
  }

  /** After `i` elements of a chunk: the registers as they would be. */
  ghost function Virtual(e: Env, s: State, i: nat, m: seq<Byte>): State
    requires ValidEnv(e) && Fits(e, s) && i <= s.cx && Times(e, i) <= PAGE
  {
    State(m, s.marks, if e.kind.Movs? then Moved(e, s.si, Offset(e, i)) else s.si, Moved(e, s.di, Offset(e, i)), s.cx - i)
  }

  /** One side of a chunk: the pointer is where the index points, with room for the rest. */
  ghost predicate SideOk(e: Env, s: State, base: nat, x: nat, write: bool, a: int, left: nat)
    requires ValidEnv(e) && base < LIMIT && x < IndexLimit(e)
  {
    left > 0 ==>
      && NoWrap(e, x, left) && Follows(e, s, Linear(base, x), write, a) && Aligned(e, Linear(base, x))
      && Room(e, Linear(base, x) % PAGE) >= left
  }

  /** `a` is the pointer of the source, which STOS has not. */
  ghost predicate ChunkInv(e: Env, s: State, i: nat, count: nat, m: seq<Byte>, a: int, b: int)
    requires ValidEnv(e) && Fits(e, s)
  {
    && i <= count <= s.cx && |m| == e.ram && Times(e, count) <= PAGE && Times(e, i) <= PAGE
    && (var v := Virtual(e, s, i, m);
        && (e.kind.Movs? ==> SideOk(e, v, e.kind.source, v.si, false, a, count - i))
        && SideOk(e, v, e.dest, v.di, true, b, count - i))
  }

  lemma ChunkStart(e: Env, s: State, count: nat, a: int, b: int)
    requires ValidEnv(e) && Fits(e, s) && 1 <= count <= s.cx
    requires e.kind.Movs? ==> SideOk(e, s, e.kind.source, s.si, false, a, count)
    requires SideOk(e, s, e.dest, s.di, true, b, count)
    ensures Times(e, 0) <= PAGE && ChunkInv(e, s, 0, count, s.m, a, b) && Virtual(e, s, 0, s.m) == s
  {
    var la := Linear(e.dest, s.di);
    AlignedOffset(e, la / PAGE, la % PAGE);
    RoomFits(e, la % PAGE, count);
    assert Moved(e, s.si, Offset(e, 0)) == s.si && Moved(e, s.di, Offset(e, 0)) == s.di;
  }

  lemma SideNext(e: Env, v: State, v': State, base: nat, x: nat, write: bool, a: int, left: nat)
    requires ValidEnv(e) && base < LIMIT && x < IndexLimit(e) && left <= v.cx && v'.marks == v.marks && v'.cx == v.cx - 1
    requires SideOk(e, v, base, x, write, a, left) && left > 0
    ensures SideOk(e, v', base, Moved(e, x, Dir(e)), write, a + Dir(e), left - 1)
  {
    hide Follows, Aligned, Room, NoWrap, Linear, Moved, Dir;
    if left > 1 { FollowsNext(e, v, v', base, x, write, a, left); }
  }

  lemma ChunkNext(e: Env, s: State, i: nat, count: nat, m: seq<Byte>, m': seq<Byte>, a: int, b: int)
    requires ValidEnv(e) && Fits(e, s) && i < count && |m'| == |m| && ChunkInv(e, s, i, count, m, a, b)
    ensures ChunkInv(e, s, i + 1, count, m', if e.kind.Movs? then a + Dir(e) else a, b + Dir(e))
    ensures (TimesMonotone(e, i + 1, count); TimesMonotone(e, i, count);
             var v, v' := Virtual(e, s, i, m), Virtual(e, s, i + 1, m');
             v' == State(m', v.marks, if e.kind.Movs? then Moved(e, v.si, Dir(e)) else v.si, Moved(e, v.di, Dir(e)), v.cx - 1))
  {
    hide SideOk, Moved, Dir, Times, Offset;
    TimesMonotone(e, i, count);
    TimesMonotone(e, i + 1, count);
    MovedOnce(e, s.di, i);
    var v, v' := Virtual(e, s, i, m), Virtual(e, s, i + 1, m');
    SideNext(e, v, v', e.dest, v.di, true, b, count - i);
    if e.kind.Movs? {
      MovedOnce(e, s.si, i);
      SideNext(e, v, v', e.kind.source, v.si, false, a, count - i);
    }
  }

  lemma TimesMonotone(e: Env, i: nat, j: nat)
    requires i <= j
    ensures Times(e, i) <= Times(e, j)
  {
  }

  // ---------- the instruction as the core runs it ----------

  /** `n` elements from pointer `p` on lie in memory. */
  ghost predicate Spans(e: Env, p: nat, n: nat) {
    forall j :: 0 <= j < n ==> 0 <= p + Offset(e, j) && p + Offset(e, j) + e.size <= e.ram
  }

  /** The pointers after a translation: aligned, in pages that are RAM. */
  predicate Ready(e: Env, s: State, a: nat, b: nat) {
    && s.cx > 0 && |s.m| == e.ram && Aligned(e, b) && PAGE * (b / PAGE + 1) <= e.ram
    && (e.kind.Movs? ==> Aligned(e, a) && PAGE * (a / PAGE + 1) <= e.ram)
  }

  /** The elements that both pages have room for. */
  function ChunkSize(e: Env, s: State, a: nat, b: nat): nat {
    var n := if e.kind.Movs? && Room(e, a % PAGE) < s.cx then Room(e, a % PAGE) else s.cx;
    if Room(e, b % PAGE) < n then Room(e, b % PAGE) else n
  }

  lemma RoomSpans(e: Env, p: nat, n: nat)
    requires ValidEnv(e) && Aligned(e, p) && PAGE * (p / PAGE + 1) <= e.ram && n <= Room(e, p % PAGE)
    ensures Spans(e, p, n) && Times(e, n) <= PAGE && Room(e, p % PAGE) >= 1
  {
    hide Room, Aligned, Offset, Times;
    var q, o := p / PAGE, p % PAGE;
    assert p == PAGE * q + o;
    AlignedOffset(e, q, o);
    RoomFits(e, o, n);
    forall j | 0 <= j < n ensures 0 <= p + Offset(e, j) && p + Offset(e, j) + e.size <= e.ram {
      InsidePage(e, o, n, j);
    }
  }

  /** Both pointers can be stepped over `n` elements. */
  ghost predicate Movable(e: Env, a: nat, b: nat, n: nat) {
    Spans(e, b, n) && (e.kind.Movs? ==> Spans(e, a, n)) && Times(e, n) <= PAGE
  }

  lemma MovableLess(e: Env, a: nat, b: nat, i: nat, n: nat)
    requires i <= n && Movable(e, a, b, n)
    ensures Movable(e, a, b, i)
  {
    TimesMonotone(e, i, n);
  }

  lemma ChunkReady(e: Env, s: State, a: nat, b: nat)
    requires ValidEnv(e) && Ready(e, s, a, b)
    ensures var n := ChunkSize(e, s, a, b); 1 <= n <= s.cx && Movable(e, a, b, n)
  {
    hide Room, Aligned, Spans, Times;
    var n := ChunkSize(e, s, a, b);
    RoomSpans(e, b, n);
    if e.kind.Movs? { RoomSpans(e, a, n); }
  }

  /** Memory after `n` elements have been moved through the two pointers. */
  ghost function ChunkMem(e: Env, m: seq<Byte>, a: nat, b: nat, n: nat): (r: seq<Byte>)
    requires ValidEnv(e) && |m| == e.ram && Movable(e, a, b, n)
    ensures |r| == |m|
    decreases n
  {
    if n == 0 then m else
    MovableLess(e, a, b, n - 1, n);
    MovedElement(e, ChunkMem(e, m, a, b, n - 1), a + Offset(e, n - 1), b + Offset(e, n - 1))
  }

  /** Memory after one load and store through the pointers. */
  ghost function MovedElement(e: Env, m: seq<Byte>, a: int, b: nat): (r: seq<Byte>)
    requires ValidEnv(e) && |m| == e.ram && InRam(One(b), e.size, e.ram)
    requires e.kind.Movs? ==> a >= 0 && InRam(One(a), e.size, e.ram)
    ensures |r| == |m|
  {
    var v := if e.kind.Movs? then Value(Bytes(m, One(a), e.size)) else e.kind.ax;
    Stored(m, One(b), Digits(v, e.size))
  }

  lemma ChunkFrom(e: Env, m: seq<Byte>, a: nat, b: nat)
    requires ValidEnv(e) && |m| == e.ram && Movable(e, a, b, 0)
    ensures ChunkMem(e, m, a, b, 0) == m && Offset(e, 0) == 0
  {
  }

  /** The next element of a chunk. */
  lemma ChunkMoves(e: Env, m: seq<Byte>, a: nat, b: nat, i: nat)
    requires ValidEnv(e) && |m| == e.ram && Movable(e, a, b, i) && Movable(e, a, b, i + 1)
    ensures b + Offset(e, i) >= 0 && InRam(One(b + Offset(e, i)), e.size, e.ram)
    ensures e.kind.Movs? ==> a + Offset(e, i) >= 0 && InRam(One(a + Offset(e, i)), e.size, e.ram)
    ensures Offset(e, i) + Dir(e) == Offset(e, i + 1)
    ensures ChunkMem(e, m, a, b, i + 1) == MovedElement(e, ChunkMem(e, m, a, b, i), a + Offset(e, i), b + Offset(e, i))
  {
    hide Times, Offset, Dir, MovedElement, Spans;
    OffsetOnce(e, i);
    SpansAt(e, b, i, i + 1);
    if e.kind.Movs? { SpansAt(e, a, i, i + 1); }
  }

  lemma SpansAt(e: Env, p: nat, i: nat, n: nat)
    requires ValidEnv(e) && Spans(e, p, n) && i < n
    ensures p + Offset(e, i) >= 0 && InRam(One(p + Offset(e, i)), e.size, e.ram)
  {
  }

  /** After `i` elements of a chunk: memory, and the registers as they would be. */
  ghost function Within(e: Env, s: State, a: nat, b: nat, i: nat): (r: State)
    requires ValidEnv(e) && Fits(e, s) && i <= s.cx && Movable(e, a, b, i)
    ensures Fits(e, r) && r.cx == s.cx - i
  {
    Virtual(e, s, i, ChunkMem(e, s.m, a, b, i))
  }

  ghost function AfterChunk(e: Env, s: State, a: nat, b: nat): (r: State)
    requires ValidEnv(e) && Fits(e, s) && Ready(e, s, a, b)
    ensures Fits(e, r) && r.cx < s.cx
  {
    ChunkReady(e, s, a, b);
    Within(e, s, a, b, ChunkSize(e, s, a, b))
  }

  lemma LocatedReady(e: Env, s: State)
    requires ValidEnv(e) && Fits(e, s) && s.cx > 0
    requires var l1, l2 := Fetched(e, s).0, Locate(e, Linear(e.dest, s.di), true).0;
      l1.Found? && l2.Found? && Aligned(e, l1.span.addr1) && Aligned(e, l2.span.addr1)
    ensures Ready(e, s, Fetched(e, s).0.span.addr1, Locate(e, Linear(e.dest, s.di), true).0.span.addr1)
  {
    hide Aligned, Linear, Value, Bytes;
    AlignedRam(e, Linear(e.dest, s.di), true);
    if e.kind.Movs? { AlignedRam(e, Linear(e.kind.source, s.si), false); }
  }

  lemma AlignedRam(e: Env, la: nat, write: bool)
    requires ValidEnv(e) && Locate(e, la, write).0.Found? && Aligned(e, Locate(e, la, write).0.span.addr1)
    ensures var a := Locate(e, la, write).0.span.addr1; PAGE * (a / PAGE + 1) <= e.ram && a % PAGE == la % PAGE
  {
    hide Aligned;
    InPage(e.pages(la / PAGE, write).frame, la % PAGE);
  }

  /** The whole instruction in chunks; a misaligned element is the start of the slow path, which goes one by one. */
  ghost function Chunked(e: Env, s: State): (State, End)
    requires ValidEnv(e) && Fits(e, s)
    decreases s.cx
  {
    if s.cx == 0 then (s, Done) else
    var (l1, _, marks1) := Fetched(e, s);
    if l1.Stuck? then (s.(marks := s.marks + marks1), l1.end) else
    var (l2, marks2) := Locate(e, Linear(e.dest, s.di), true);
    var s1 := s.(marks := s.marks + marks1 + marks2);
    if l2.Stuck? then (s1, l2.end)
    else if !Aligned(e, l1.span.addr1) || !Aligned(e, l2.span.addr1) then Each(e, s1)
    else
      LocatedReady(e, s);
      Chunked(e, AfterChunk(e, s1, l1.span.addr1, l2.span.addr1))
  }

  /** In no chunk of the run does an index wrap; chunks that cannot be located and the slow path do not matter. */
  ghost predicate Unwrapped(e: Env, s: State)
    requires ValidEnv(e) && Fits(e, s)
    decreases s.cx
  {
    s.cx == 0 ||
    var (l1, _, marks1) := Fetched(e, s);
    var (l2, marks2) := Locate(e, Linear(e.dest, s.di), true);
    l1.Stuck? || l2.Stuck? || !Aligned(e, l1.span.addr1) || !Aligned(e, l2.span.addr1) ||
    (LocatedReady(e, s);
     var s1, a, b := s.(marks := s.marks + marks1 + marks2), l1.span.addr1, l2.span.addr1;
     ChunkReady(e, s1, a, b);
     var n := ChunkSize(e, s1, a, b);
     NoneWraps(e, s, n) && Unwrapped(e, AfterChunk(e, s1, a, b)))
  }

  /** The pointer of the source, which STOS has not. */
  function Source(e: Env, a: nat, i: nat): int {
    if e.kind.Movs? then a + Offset(e, i) else a
  }

  lemma OffsetOnce(e: Env, i: nat)
    requires ValidEnv(e)
    ensures Offset(e, i) + Dir(e) == Offset(e, i + 1)
  {
  }

  /** After `i` elements of a chunk of `n`, the pointers are where the indices point. */
  ghost predicate InChunk(e: Env, s: State, a: nat, b: nat, i: nat, n: nat)
    requires ValidEnv(e) && Fits(e, s)
  {
    && i <= n <= s.cx && Movable(e, a, b, n) && Movable(e, a, b, i)
    && ChunkInv(e, s, i, n, ChunkMem(e, s.m, a, b, i), Source(e, a, i), b + Offset(e, i))
  }

  /** Inside a chunk whose indices do not wrap, moving through the pointers is what the elements do. */
  lemma {:induction false} ChunkIsEach(e: Env, s: State, a: nat, b: nat, i: nat, n: nat)
    requires ValidEnv(e) && Fits(e, s) && i <= n && InChunk(e, s, a, b, 0, n)
    ensures InChunk(e, s, a, b, i, n)
    ensures Each(e, Within(e, s, a, b, i)) == Each(e, Within(e, s, a, b, 0))
    decreases i
  {
    hide ChunkInv, ChunkMem, Spans, Each, Element, Source, Offset, Times, Virtual;
    if i > 0 {
      ChunkIsEach(e, s, a, b, i - 1, n);
      ChunkStep(e, s, a, b, i - 1, n);
      EachStep(e, Within(e, s, a, b, i - 1));
    }
  }

  lemma ChunkStep(e: Env, s: State, a: nat, b: nat, i: nat, n: nat)
    requires ValidEnv(e) && Fits(e, s) && i < n && InChunk(e, s, a, b, i, n)
    ensures InChunk(e, s, a, b, i + 1, n)
    ensures Element(e, Within(e, s, a, b, i)) == Went(Within(e, s, a, b, i + 1))
  {
    hide Moved, Linear, Each, Element, Stored, Digits, Value, Bytes, Locate, Follows, Aligned, Room, NoWrap, Times, Dir, Offset, Spans;
    MovableLess(e, a, b, i + 1, n);
    var m, m1 := ChunkMem(e, s.m, a, b, i), ChunkMem(e, s.m, a, b, i + 1);
    var v := Virtual(e, s, i, m);
    OffsetOnce(e, i);
    ChunkElement(e, v, if e.kind.Movs? then Source(e, a, i) else 0, b + Offset(e, i));
    ChunkNext(e, s, i, n, m, m1, Source(e, a, i), b + Offset(e, i));
  }

  lemma ChunkRunsEach(e: Env, s: State, a: nat, b: nat)
    requires ValidEnv(e) && Fits(e, s) && Ready(e, s, a, b)
    requires Follows(e, s, Linear(e.dest, s.di), true, b) && Aligned(e, Linear(e.dest, s.di))
    requires b % PAGE == Linear(e.dest, s.di) % PAGE
    requires e.kind.Movs? ==> Follows(e, s, Linear(e.kind.source, s.si), false, a) && Aligned(e, Linear(e.kind.source, s.si))
                              && a % PAGE == Linear(e.kind.source, s.si) % PAGE
    requires (ChunkReady(e, s, a, b);
              var n := ChunkSize(e, s, a, b); NoneWraps(e, s, n))
    ensures Each(e, AfterChunk(e, s, a, b)) == Each(e, s)
  {
    hide Moved, Linear, Each, Element, Follows, Aligned, Room, NoWrap, Spans, Times, MovedElement;
    ChunkReady(e, s, a, b);
    var n := ChunkSize(e, s, a, b);
    ChunkStart(e, s, n, a, b);
    MovableLess(e, a, b, 0, n);
    ChunkFrom(e, s.m, a, b);
    ChunkIsEach(e, s, a, b, n, n);
  }

  /** Chunks come to what single elements come to, unless an index wraps within one. */
  lemma {:induction false} ChunkedIsEach(e: Env, s: State)
    requires ValidEnv(e) && Fits(e, s) && Unwrapped(e, s)
    ensures Chunked(e, s) == Each(e, s)
    decreases s.cx
  {
    if s.cx == 0 {
      EachDone(e, s);
    } else {
      hide Each, Element, Locate, Linear, Moved, Aligned, Follows, NoWrap, Room, AfterChunk, Value, Bytes;
      EachStuck(e, s);
      MarkedBefore(e, s);
      var (l1, _, marks1) := Fetched(e, s);
      var (l2, marks2) := Locate(e, Linear(e.dest, s.di), true);
      var s1 := s.(marks := s.marks + marks1 + marks2);
      if l1.Found? && l2.Found? && Aligned(e, l1.span.addr1) && Aligned(e, l2.span.addr1) {
        LocatedReady(e, s);
        AlignedFollows(e, s1, Linear(e.dest, s.di), true);
        if e.kind.Movs? { AlignedFollows(e, s1, Linear(e.kind.source, s.si), false); }
        ChunkRunsEach(e, s1, l1.span.addr1, l2.span.addr1);
        ChunkedIsEach(e, AfterChunk(e, s1, l1.span.addr1, l2.span.addr1));
      }
    }
  }

  // ---------- the addresses of a run ----------

  /** The linear addresses of the next element: where it is loaded from, which STOS leaves at 0, and where it is stored. */
  function Asked(e: Env, s: State): (int, int) {
    (if e.kind.Movs? then Linear(e.kind.source, s.si) else 0, Linear(e.dest, s.di))
  }

  /** The addresses that a run asks for one element at a time, up to one that cannot be located. */
  ghost function EachAsks(e: Env, s: State): seq<(int, int)>
    requires ValidEnv(e) && Fits(e, s)
    decreases s.cx
  {
    if s.cx == 0 then [] else
    match Element(e, s)
    case Stopped(_, _) => [Asked(e, s)]
    case Went(s') => [Asked(e, s)] + EachAsks(e, s')
  }

  /** The addresses that the pointers of a chunk of `n` elements pass. */
  function Passed(e: Env, s: State, n: nat): (r: seq<(int, int)>)
    ensures |r| == n
  {
    seq(n, j requires 0 <= j < n => var (a, b) := Asked(e, s); (Source(e, a, j), b + Offset(e, j)))
  }

  /** The addresses that the run in chunks asks for. */
  ghost function ChunkedAsks(e: Env, s: State): seq<(int, int)>
    requires ValidEnv(e) && Fits(e, s)
    decreases s.cx
  {
    if s.cx == 0 then [] else
    var (l1, _, marks1) := Fetched(e, s);
    var (l2, marks2) := Locate(e, Linear(e.dest, s.di), true);
    var s1 := s.(marks := s.marks + marks1 + marks2);
    if l1.Stuck? || l2.Stuck? then [Asked(e, s)]
    else if !Aligned(e, l1.span.addr1) || !Aligned(e, l2.span.addr1) then EachAsks(e, s1)
    else
      LocatedReady(e, s);
      var a, b := l1.span.addr1, l2.span.addr1;
      Passed(e, s, ChunkSize(e, s1, a, b)) + ChunkedAsks(e, AfterChunk(e, s1, a, b))
  }

  /** Both pages have room for `n` aligned elements. */
  predicate SidesFit(e: Env, s: State, n: nat) {
    && Aligned(e, Linear(e.dest, s.di) % PAGE) && n <= Room(e, Linear(e.dest, s.di) % PAGE)
    && (e.kind.Movs? ==> Aligned(e, Linear(e.kind.source, s.si) % PAGE) && n <= Room(e, Linear(e.kind.source, s.si) % PAGE))
  }

  /** The pointers of a chunk pass the addresses of element `j` exactly if no index wraps up to it. */
  lemma PassesElement(e: Env, s: State, a: nat, b: nat, j: nat, n: nat)
    requires ValidEnv(e) && Fits(e, s) && j < n <= s.cx && SidesFit(e, s, n) && Movable(e, a, b, j)
    ensures Asked(e, Within(e, s, a, b, j)) == Passed(e, s, n)[j] <==> NoneWraps(e, s, j + 1)
  {
    hide Aligned, Room, NoWrap, Linear, Moved, ChunkMem, Spans;
    VisitAt(e, e.dest, s.di, n, j);
    if e.kind.Movs? { VisitAt(e, e.kind.source, s.si, n, j); }
  }

  lemma {:induction false} FirstWrap(e: Env, s: State, n: nat) returns (k: nat)
    requires Fits(e, s) && n > 0 && !NoneWraps(e, s, n)
    ensures 0 < k < n && NoneWraps(e, s, k) && !NoneWraps(e, s, k + 1)
  {
    if n > 1 && NoneWraps(e, s, n - 1) {
      k := n - 1;
    } else if n > 1 {
      k := FirstWrap(e, s, n - 1);
    } else {
      assert false;
    }
  }

  lemma AsksStep(e: Env, s: State)
    requires ValidEnv(e) && Fits(e, s) && s.cx > 0
    ensures EachAsks(e, s) == [Asked(e, s)] + (if Element(e, s).Stopped? then [] else EachAsks(e, Element(e, s).s))
  {
  }

  /** Which pages have been marked does not matter to the addresses. */
  lemma {:induction false} MarksAskNothing(e: Env, s: State, marks: set<(nat, bool)>)
    requires ValidEnv(e) && Fits(e, s)
    ensures EachAsks(e, s.(marks := marks)) == EachAsks(e, s)
    decreases s.cx
  {
    if s.cx > 0 {
      hide EachAsks, Element, Asked;
      var t := s.(marks := marks);
      AsksStep(e, s);
      AsksStep(e, t);
      ElementOfMarks(e, s, t);
      var r1, r2 := Element(e, s), Element(e, t);
      if r1.Went? { MarksAskNothing(e, r1.s, r2.s.marks); }
    }
  }

  lemma ElementOfMarks(e: Env, s: State, t: State)
    requires ValidEnv(e) && Fits(e, s) && s.cx > 0 && t == s.(marks := t.marks)
    ensures Asked(e, t) == Asked(e, s) && Element(e, t).Went? == Element(e, s).Went?
    ensures Element(e, s).Went? ==> Element(e, t).s == Element(e, s).s.(marks := Element(e, t).s.marks)
  {
    hide Linear, Moved, Locate, Stored, Digits, Value, Bytes;
    assert Fetched(e, t) == Fetched(e, s);
  }

  /** While the pointers follow the indices, single elements ask for addresses in turn. */
  lemma {:induction false} ChunkAsks(e: Env, s: State, a: nat, b: nat, i: nat, n: nat)
    requires ValidEnv(e) && Fits(e, s) && i <= n && InChunk(e, s, a, b, 0, n)
    ensures InChunk(e, s, a, b, i, n)
    ensures var asks := EachAsks(e, Within(e, s, a, b, 0)); i <= |asks| && asks[i..] == EachAsks(e, Within(e, s, a, b, i))
    decreases i
  {
    hide ChunkInv, ChunkMem, Spans, EachAsks, Element, Source, Offset, Times, Virtual, Asked;
    if i > 0 {
      ChunkAsks(e, s, a, b, i - 1, n);
      ChunkStep(e, s, a, b, i - 1, n);
      AsksStep(e, Within(e, s, a, b, i - 1));
      var asks := EachAsks(e, Within(e, s, a, b, 0));
      assert asks[i..] == asks[i - 1..][1..];
    }
  }

  /** A chunk that starts aligned, with its pages located: the state before, the pointers, and its size. */
  ghost predicate ChunkAt(e: Env, s: State, a: nat, b: nat, n: nat) {
    && ValidEnv(e) && Fits(e, s) && 1 <= n <= s.cx && Movable(e, a, b, n) && SidesFit(e, s, n)
    && Follows(e, s, Linear(e.dest, s.di), true, b) && Aligned(e, Linear(e.dest, s.di))
    && (e.kind.Movs? ==> Follows(e, s, Linear(e.kind.source, s.si), false, a) && Aligned(e, Linear(e.kind.source, s.si)))
  }

  /** The first `k` elements of a chunk, if none of them wraps. */
  lemma ChunkFollows(e: Env, s: State, a: nat, b: nat, k: nat, n: nat)
    requires ChunkAt(e, s, a, b, n) && 1 <= k <= n && NoneWraps(e, s, k)
    ensures InChunk(e, s, a, b, 0, k) && Within(e, s, a, b, 0) == s
  {
    hide Moved, Linear, Follows, Aligned, Room, NoWrap, Spans, Times, MovedElement;
    MovableLess(e, a, b, k, n);
    MovableLess(e, a, b, 0, n);
    ChunkStart(e, s, k, a, b);
    ChunkFrom(e, s.m, a, b);
  }

  /** A chunk passes the addresses that single elements ask for exactly if no index wraps within it. */
  lemma ChunkPasses(e: Env, s: State, a: nat, b: nat, n: nat)
    requires ChunkAt(e, s, a, b, n)
    ensures NoneWraps(e, s, n) ==> EachAsks(e, s) == Passed(e, s, n) + EachAsks(e, Within(e, s, a, b, n))
    ensures !NoneWraps(e, s, n) ==> forall rest :: EachAsks(e, s) != Passed(e, s, n) + rest
  {
    hide EachAsks, NoneWraps, Passed, Asked, Within, InChunk, SidesFit, Follows, Aligned, Linear, Movable;
    if NoneWraps(e, s, n) {
      ChunkFollows(e, s, a, b, n, n);
      ChunkAsks(e, s, a, b, n, n);
      var asks := EachAsks(e, s);
      forall j | 0 <= j < n ensures asks[j] == Passed(e, s, n)[j] {
        ChunkHead(e, s, a, b, j, n);
        NoneWrapsLess(e, s, j + 1, n);
        MovableLess(e, a, b, j, n);
        PassesElement(e, s, a, b, j, n);
      }
      assert asks == asks[..n] + asks[n..];
      assert asks[..n] == Passed(e, s, n);
    } else {
      var k := FirstWrap(e, s, n);
      ChunkFollows(e, s, a, b, k, n);
      ChunkHead(e, s, a, b, k, k);
      MovableLess(e, a, b, k, n);
      PassesElement(e, s, a, b, k, n);
      assert forall rest :: (Passed(e, s, n) + rest)[k] == Passed(e, s, n)[k];
    }
  }

  lemma NoneWrapsLess(e: Env, s: State, i: nat, n: nat)
    requires 0 < i <= n && NoneWraps(e, s, n)
    ensures NoneWraps(e, s, i)
  {
    hide NoWrap;
    NoWrapLess(e, s.di, i, n);
    if e.kind.Movs? { NoWrapLess(e, s.si, i, n); }
  }

  /** What the element after the first `j` asks for. */
  lemma ChunkHead(e: Env, s: State, a: nat, b: nat, j: nat, n: nat)
    requires ValidEnv(e) && Fits(e, s) && j <= n && j < s.cx && InChunk(e, s, a, b, 0, n) && Within(e, s, a, b, 0) == s
    ensures Movable(e, a, b, j) && j < |EachAsks(e, s)| && EachAsks(e, s)[j] == Asked(e, Within(e, s, a, b, j))
  {
    hide EachAsks, Asked, ChunkInv, ChunkMem, Element;
    ChunkAsks(e, s, a, b, j, n);
    AsksStep(e, Within(e, s, a, b, j));
    assert EachAsks(e, s)[j] == EachAsks(e, s)[j..][0];
  }

  /** The run in chunks asks for the addresses of single elements exactly if no index wraps within a chunk. */
  lemma {:induction false} ChunkedAsksEach(e: Env, s: State)
    requires ValidEnv(e) && Fits(e, s)
    ensures ChunkedAsks(e, s) == EachAsks(e, s) <==> Unwrapped(e, s)
    decreases s.cx
  {
    if s.cx > 0 {
      hide EachAsks, Element, Locate, Linear, Aligned, NoWrap, AfterChunk, Value, Bytes, Asked, Passed;
      AsksStep(e, s);
      var (l1, _, marks1) := Fetched(e, s);
      var (l2, marks2) := Locate(e, Linear(e.dest, s.di), true);
      var s1 := s.(marks := s.marks + marks1 + marks2);
      MarksAskNothing(e, s, s1.marks);
      if l1.Stuck? || l2.Stuck? {
        StuckStops(e, s);
      } else if Aligned(e, l1.span.addr1) && Aligned(e, l2.span.addr1) {
        var a, b := l1.span.addr1, l2.span.addr1;
        LocatedReady(e, s);
        ChunkedAsksEach(e, AfterChunk(e, s1, a, b));
        FirstChunkAsks(e, s, s1, a, b);
      }
    }
  }

  /** The first chunk, once the rest is known. */
  lemma FirstChunkAsks(e: Env, s: State, s1: State, a: nat, b: nat)
    requires ValidEnv(e) && Fits(e, s) && s.cx > 0
    requires var (l1, _, marks1) := Fetched(e, s);
             var (l2, marks2) := Locate(e, Linear(e.dest, s.di), true);
             && l1.Found? && l2.Found? && a == l1.span.addr1 && b == l2.span.addr1 && Aligned(e, a) && Aligned(e, b)
             && s1 == s.(marks := s.marks + marks1 + marks2)
    requires Ready(e, s1, a, b)
    requires var s2 := AfterChunk(e, s1, a, b); ChunkedAsks(e, s2) == EachAsks(e, s2) <==> Unwrapped(e, s2)
    ensures ChunkedAsks(e, s) == EachAsks(e, s) <==> Unwrapped(e, s)
  {
    hide ChunkedAsks, Unwrapped, EachAsks, Fetched, Locate, Linear, Aligned, AfterChunk, Passed, NoneWraps, ChunkAt, Ready, ChunkSize, Movable;
    ChunkLocated(e, s, s1, a, b);
    var n := ChunkSize(e, s1, a, b);
    MarksAskNothing(e, s, s1.marks);
    ChunkPasses(e, s1, a, b, n);
    ChunkedAsksStep(e, s, s1, a, b, n);
    var s2 := AfterChunk(e, s1, a, b);
    SamePrefix(Passed(e, s, n), ChunkedAsks(e, s2), EachAsks(e, s2));
  }

  lemma SamePrefix<T>(p: seq<T>, x: seq<T>, y: seq<T>)
    ensures p + x == p + y <==> x == y
  {
    assert (p + x)[|p|..] == x && (p + y)[|p|..] == y;
  }

  lemma ChunkedAsksStep(e: Env, s: State, s1: State, a: nat, b: nat, n: nat)
    requires ValidEnv(e) && Fits(e, s) && s.cx > 0
    requires var (l1, _, marks1) := Fetched(e, s);
             var (l2, marks2) := Locate(e, Linear(e.dest, s.di), true);
             && l1.Found? && l2.Found? && a == l1.span.addr1 && b == l2.span.addr1 && Aligned(e, a) && Aligned(e, b)
             && s1 == s.(marks := s.marks + marks1 + marks2)
    requires Ready(e, s1, a, b) && n == ChunkSize(e, s1, a, b) > 0
    ensures ChunkedAsks(e, s) == Passed(e, s, n) + ChunkedAsks(e, AfterChunk(e, s1, a, b))
    ensures Unwrapped(e, s) <==> NoneWraps(e, s1, n) && Unwrapped(e, AfterChunk(e, s1, a, b))
  {
    hide EachAsks, Locate, Linear, Moved, Aligned, NoWrap, AfterChunk, Value, Bytes, Passed;
  }

  lemma StuckStops(e: Env, s: State)
    requires ValidEnv(e) && Fits(e, s) && s.cx > 0
    requires Fetched(e, s).0.Stuck? || Locate(e, Linear(e.dest, s.di), true).0.Stuck?
    ensures Element(e, s).Stopped?
  {
    hide Locate, Linear, Moved;
  }

  lemma ChunkLocated(e: Env, s: State, s1: State, a: nat, b: nat)
    requires ValidEnv(e) && Fits(e, s) && s.cx > 0
    requires var (l1, _, marks1) := Fetched(e, s);
             var (l2, marks2) := Locate(e, Linear(e.dest, s.di), true);
             && l1.Found? && l2.Found? && a == l1.span.addr1 && b == l2.span.addr1 && Aligned(e, a) && Aligned(e, b)
             && s1 == s.(marks := s.marks + marks1 + marks2)
    ensures Ready(e, s1, a, b)
    ensures var n := ChunkSize(e, s1, a, b); 1 <= n && ChunkAt(e, s1, a, b, n) && Passed(e, s1, n) == Passed(e, s, n)
    ensures var n := ChunkSize(e, s1, a, b);
      n <= s1.cx && Movable(e, a, b, n) && AfterChunk(e, s1, a, b) == Within(e, s1, a, b, n)
  {
    hide Linear, Moved, Aligned, Follows, Room, Value, Bytes, ChunkMem, Spans, Times, Locate;
    LocatedReady(e, s);
    ChunkReady(e, s1, a, b);
    AlignedFollows(e, s1, Linear(e.dest, s.di), true);
    AlignedFollowsOffset(e, Linear(e.dest, s.di), true);
    if e.kind.Movs? {
      AlignedFollows(e, s1, Linear(e.kind.source, s.si), false);
      AlignedFollowsOffset(e, Linear(e.kind.source, s.si), false);
    }
  }

  /** A segment that starts on a page boundary, as every flat segment does, wraps only between pages. */
  lemma {:induction false} PagedSegments(e: Env, s: State)
    requires ValidEnv(e) && Fits(e, s)
    requires e.wide || (e.dest % PAGE == 0 && (e.kind.Movs? ==> e.kind.source % PAGE == 0))
    ensures Unwrapped(e, s)
    decreases s.cx
  {
    hide Locate, Linear, Moved, Aligned, NoWrap, Room, ChunkMem, Value, Bytes;
    if s.cx > 0 {
      var (l1, _, marks1) := Fetched(e, s);
      var (l2, marks2) := Locate(e, Linear(e.dest, s.di), true);
      if l1.Found? && l2.Found? && Aligned(e, l1.span.addr1) && Aligned(e, l2.span.addr1) {
        var s1, a, b := s.(marks := s.marks + marks1 + marks2), l1.span.addr1, l2.span.addr1;
        LocatedReady(e, s);
        ChunkReady(e, s1, a, b);
        var n := ChunkSize(e, s1, a, b);
        PagedSide(e, e.dest, s.di, true, n);
        if e.kind.Movs? { PagedSide(e, e.kind.source, s.si, false, n); }
        PagedSegments(e, AfterChunk(e, s1, a, b));
      }
    }
  }

  lemma PagedSide(e: Env, base: nat, x: nat, write: bool, n: nat)
    requires ValidEnv(e) && base < LIMIT && x < IndexLimit(e) && (e.wide || base % PAGE == 0) && n > 0
    requires var l := Locate(e, Linear(base, x), write).0;
      l.Found? && Aligned(e, l.span.addr1) && n <= Room(e, l.span.addr1 % PAGE)
    ensures NoWrap(e, x, n)
  {
    hide Aligned, Room, Linear;
    AlignedRam(e, Linear(base, x), write);
    AlignedFollowsOffset(e, Linear(base, x), write);
    var o := Linear(base, x) % PAGE;
    if !e.wide {
      SameOffset(base, x);
      InsidePage(e, o, n, n - 1);
      PagedNoWrap(e, x, n);
    }
  }

  lemma AlignedFollowsOffset(e: Env, la: nat, write: bool)
    requires ValidEnv(e)
    requires var l := Locate(e, la, write).0; l.Found? && Aligned(e, l.span.addr1)
    ensures Aligned(e, la % PAGE)
  {
    hide Aligned;
    var f := e.pages(la / PAGE, write).frame;
    AlignedPage(e, f, la % PAGE);
  }

  lemma SameOffset(base: nat, x: nat)
    requires base < LIMIT && x < 0x1_0000 && base % PAGE == 0
    ensures Linear(base, x) % PAGE == x % PAGE
  {
    var q, r, o := base / PAGE, x / PAGE, x % PAGE;
    assert base + x == PAGE * (q + r) + o;
    InPage(q + r, o);
    if base + x >= LIMIT {
      assert base + x - LIMIT == PAGE * (q + r - LIMIT / PAGE) + o;
      InPage(q + r - LIMIT / PAGE, o);
    }
  }

  lemma PagedNoWrap(e: Env, x: nat, n: nat)
    requires ValidEnv(e) && !e.wide && x < 0x1_0000 && n > 0
    requires 0 <= x % PAGE + Offset(e, n - 1) && x % PAGE + Offset(e, n - 1) + e.size <= PAGE
    ensures NoWrap(e, x, n)
  {
    assert x == PAGE * (x / PAGE) + x % PAGE;
  }

  // ---------- a run that wraps within a chunk ----------

  lemma ByteStored(m: seq<Byte>, a: nat, v: nat)
    requires a < |m| && v < 0x100
    ensures Stored(m, One(a), Digits(v, 1)) == m[a := v]
  {
    assert Digits(v, 1) == [v];
  }

  /** 16-bit STOSB with untranslated pages; the segment starts in the middle of a page. */
  function WrapEnv(): Env {
    Env((p: nat, write: bool) => if p < 0x20 then At(p) else Elsewhere, 0x2_0000, Stos(0x55), 0x800, 1, false, false)
  }

  /** REP STOSB of two bytes from DI = 0xFFFF on: the second belongs to DI = 0, and the chunk puts it one above the first. */
  lemma WrapExample(m: seq<Byte>)
    requires |m| == 0x2_0000 && m[0x800] == 0 && m[0x1_0800] == 0
    ensures var e, s := WrapEnv(), State(m, {}, 0, 0xffff, 2);
            && ValidEnv(e) && Fits(e, s) && !Unwrapped(e, s)
            && Each(e, s).0.m == m[0x1_07ff := 0x55][0x800 := 0x55]
            && Chunked(e, s).0.m == m[0x1_07ff := 0x55][0x1_0800 := 0x55]
            && Each(e, s) != Chunked(e, s)
  {
    var e, s := WrapEnv(), State(m, {}, 0, 0xffff, 2);
    assert ValidEnv(e) && Fits(e, s);
    WrapEach(m);
    WrapChunked(m);
    var m1 := m[0x1_07ff := 0x55];
    assert m1[0x800 := 0x55][0x1_0800] == 0 && m1[0x1_0800 := 0x55][0x1_0800] == 0x55;
  }

  lemma WrapEach(m: seq<Byte>)
    requires |m| == 0x2_0000
    ensures var e, s := WrapEnv(), State(m, {}, 0, 0xffff, 2);
            ValidEnv(e) && Fits(e, s) && Each(e, s).0.m == m[0x1_07ff := 0x55][0x800 := 0x55]
  {
    hide Stored, Digits;
    var e, s := WrapEnv(), State(m, {}, 0, 0xffff, 2);
    ByteStored(m, 0x1_07ff, 0x55);
    assert Element(e, s).s == State(m[0x1_07ff := 0x55], {(0x10, true)}, 0, 0, 1);
    EachStep(e, s);
    var s1 := Element(e, s).s;
    ByteStored(s1.m, 0x800, 0x55);
    EachStep(e, s1);
    EachDone(e, Element(e, s1).s);
  }

  lemma WrapChunked(m: seq<Byte>)
    requires |m| == 0x2_0000
    ensures var e, s := WrapEnv(), State(m, {}, 0, 0xffff, 2);
            ValidEnv(e) && Fits(e, s) && !Unwrapped(e, s) && Chunked(e, s).0.m == m[0x1_07ff := 0x55][0x1_0800 := 0x55]
  {
    hide Stored, Digits;
    var e, s := WrapEnv(), State(m, {}, 0, 0xffff, 2);
    assert Locate(e, 0x1_07ff, true) == (Found(One(0x1_07ff)), {(0x10, true)});
    LocatedReady(e, s);
    var s1 := s.(marks := {} + {} + {(0x10, true)});
    ChunkReady(e, s1, 0, 0x1_07ff);
    assert ChunkSize(e, s1, 0, 0x1_07ff) == 2;
    ByteStored(m, 0x1_07ff, 0x55);
    ByteStored(m[0x1_07ff := 0x55], 0x1_0800, 0x55);
    MovableLess(e, 0, 0x1_07ff, 0, 2);
    MovableLess(e, 0, 0x1_07ff, 1, 2);
    ChunkMoves(e, m, 0, 0x1_07ff, 0);
    ChunkMoves(e, m, 0, 0x1_07ff, 1);
    assert AfterChunk(e, s1, 0, 0x1_07ff).m == m[0x1_07ff := 0x55][0x1_0800 := 0x55];
  }

  class StringUnit {
    const ram: Ram
    const env: Env
    var marks: set<(nat, bool)>
    var si: nat
    var di: nat
    var cx: nat

    constructor (ram: Ram, env: Env, si: nat, di: nat, cx: nat)
      requires ValidEnv(env) && ram.mem.Length == env.ram
      requires si < IndexLimit(env) && di < IndexLimit(env) && cx < IndexLimit(env)
      ensures Valid() && Cur() == State(ram.mem[..], {}, si, di, cx)
      ensures this.ram == ram && this.env == env
    {
      this.ram, this.env, this.marks, this.si, this.di, this.cx := ram, env, {}, si, di, cx;
    }

    ghost predicate Valid()
      reads this, ram.mem
      ensures Valid() ==> ValidEnv(env) && Fits(env, Cur())
    {
      ValidEnv(env) && Fits(env, Cur())
    }

    ghost function Cur(): State
      reads this, ram.mem
    {
      State(ram.mem[..], marks, si, di, cx)
    }

    method Translate(la: nat, write: bool) returns (l: Located)
      modifies this`marks
      ensures (l, marks) == (Locate(env, la, write).0, old(marks) + Locate(env, la, write).1)
    {
      var (r, more) := Locate(env, la, write);
      l := r;
      marks := marks + more;
    }

    method Load(s: Span) returns (v: nat)
      requires Valid() && InRam(s, env.size, ram.mem.Length)
      ensures v == Value(Bytes(ram.mem[..], s, env.size))
    {
      if env.size == 4 { v := ram.Load32(s); }
      else if env.size == 2 { v := ram.Load16(s); }
      else { BytesInRow(ram.mem[..], s.addr1, 1); v := ram.PLoad8(s.addr1); }
    }

    method Store(s: Span, v: nat)
      requires Valid() && InRam(s, env.size, ram.mem.Length)
      modifies ram.mem
      ensures ram.mem[..] == Stored(old(ram.mem[..]), s, Digits(v, env.size))
    {
      if env.size == 4 { ram.Store32(s, v); }
      else if env.size == 2 { ram.Store16(s, v); }
      else { ram.PStore8(s.addr1, v); }
    }

    /** `ldsistdi`, and CX one less. */
    method MovsElement() returns (ok: bool, end: End)
      requires Valid() && env.kind.Movs? && cx > 0
      modifies this, ram.mem
      ensures Valid()
      ensures var r := Element(env, old(Cur())); Cur() == r.s && ok == r.Went? && (r.Stopped? ==> end == r.end)
    {
      hide Locate, Moved, Linear;
      ok, end := false, Done;
      LocatedInRam(env, Linear(env.kind.source, si), false);
      LocatedInRam(env, Linear(env.dest, di), true);
      var l := Translate(Linear(env.kind.source, si), false);
      if l.Stuck? { return false, l.end; }
      var v := Load(l.span);
      l := Translate(Linear(env.dest, di), true);
      if l.Stuck? { return false, l.end; }
      Store(l.span, v);
      si, di, cx := Moved(env, si, Dir(env)), Moved(env, di, Dir(env)), cx - 1;
      ok := true;
    }

    /** REP MOVS: what `Chunked` says, which is what single elements come to unless an index wraps within a chunk. */
    method RepMovs() returns (end: End)
      requires Valid() && env.kind.Movs?
      modifies this, ram.mem
      ensures Valid() && (Cur(), end) == Chunked(env, old(Cur()))
      ensures old(Unwrapped(env, Cur())) ==> (Cur(), end) == Each(env, old(Cur()))
    {
      hide Locate, Moved, Linear, Each, Element, Aligned, Room, AfterChunk, Ready, Unwrapped;
      ghost var start := Cur();
      if Unwrapped(env, start) { ChunkedIsEach(env, start); }
      var source := env.kind.source;
      while cx > 0
        invariant Valid() && Chunked(env, Cur()) == Chunked(env, start)
        decreases cx
      {
        ghost var s := Cur();
        var ls := Translate(Linear(source, si), false);
        if ls.Stuck? { return ls.end; }
        var ld := Translate(Linear(env.dest, di), true);
        if ld.Stuck? { return ld.end; }
        if !Aligned(env, ls.span.addr1) || !Aligned(env, ld.span.addr1) {
          ghost var slow := Cur();
          while cx > 0
            invariant Valid() && Each(env, Cur()) == Each(env, slow)
            decreases cx
          {
            EachStep(env, Cur());
            var ok, stop := MovsElement();
            if !ok { return stop; }
          }
          EachDone(env, Cur());
          return Done;
        }
        LocatedReady(env, s);
        ReadyMarked(env, s, Cur(), ls.span.addr1, ld.span.addr1);
        ChunkOfMovs(ls.span.addr1, ld.span.addr1);
      }
      end := Done;
    }

    /** One load and store through the pointers of a chunk. */
    method LoadStore(a: int, b: nat)
      requires Valid() && env.kind.Movs? && InRam(One(b), env.size, env.ram) && a >= 0 && InRam(One(a), env.size, env.ram)
      modifies ram.mem
      ensures ram.mem[..] == MovedElement(env, old(ram.mem[..]), a, b)
    {
      var x := Load(One(a));
      Store(One(b), x);
    }

    /** A chunk of MOVS, through the pointers `a0` and `b0`. */
    method ChunkOfMovs(a0: nat, b0: nat)
      requires Valid() && env.kind.Movs? && Ready(env, Cur(), a0, b0)
      modifies this, ram.mem
      ensures Valid() && Cur() == AfterChunk(env, old(Cur()), a0, b0) && cx < old(cx)
    {
      hide ValidEnv, Room, Aligned, Stored, Digits, Value, Bytes, Moved, Ready, Spans, Times, Dir, Offset, ChunkMem, MovedElement;
      ghost var s := Cur();
      ChunkReady(env, s, a0, b0);
      var count := cx;
      var counts, countd := Room(env, a0 % PAGE), Room(env, b0 % PAGE);
      if counts < count { count := counts; }
      if countd < count { count := countd; }
      MovableLess(env, a0, b0, 0, count);
      ChunkFrom(env, s.m, a0, b0);
      var a: int, b: int := a0, b0;
      for i := 0 to count
        invariant Valid() && si == s.si && di == s.di && cx == s.cx && marks == s.marks && Movable(env, a0, b0, i)
        invariant a == a0 + Offset(env, i) && b == b0 + Offset(env, i) && ram.mem[..] == ChunkMem(env, s.m, a0, b0, i)
      {
        MovableLess(env, a0, b0, i + 1, count);
        ChunkMoves(env, s.m, a0, b0, i);
        LoadStore(a, b);
        a, b := a + Dir(env), b + Dir(env);
      }
      si, di, cx := Moved(env, si, Offset(env, count)), Moved(env, di, Offset(env, count)), cx - count;
    }

    /** `stdi`, and CX one less. */
    method StosElement() returns (ok: bool, end: End)
      requires Valid() && env.kind.Stos? && cx > 0
      modifies this, ram.mem
      ensures Valid()
      ensures var r := Element(env, old(Cur())); Cur() == r.s && ok == r.Went? && (r.Stopped? ==> end == r.end)
    {
      hide Locate, Moved, Linear;
      ok, end := false, Done;
      LocatedInRam(env, Linear(env.dest, di), true);
      var l := Translate(Linear(env.dest, di), true);
      if l.Stuck? { return false, l.end; }
      Store(l.span, env.kind.ax);
      di, cx := Moved(env, di, Dir(env)), cx - 1;
      ok := true;
    }

    /** REP STOS likewise. */
    method RepStos() returns (end: End)
      requires Valid() && env.kind.Stos?
      modifies this, ram.mem
      ensures Valid() && (Cur(), end) == Chunked(env, old(Cur()))
      ensures old(Unwrapped(env, Cur())) ==> (Cur(), end) == Each(env, old(Cur()))
    {
      hide Locate, Moved, Linear, Each, Element, Room, AfterChunk, Ready, Unwrapped;
      ghost var start := Cur();
      if Unwrapped(env, start) { ChunkedIsEach(env, start); }
      while cx > 0
        invariant Valid() && Chunked(env, Cur()) == Chunked(env, start)
        decreases cx
      {
        ghost var s := Cur();
        assert s.marks + {} == s.marks;
        var ld := Translate(Linear(env.dest, di), true);
        if ld.Stuck? { return ld.end; }
        if !Aligned(env, ld.span.addr1) {
          ghost var slow := Cur();
          while cx > 0
            invariant Valid() && Each(env, Cur()) == Each(env, slow)
            decreases cx
          {
            EachStep(env, Cur());
            var ok, stop := StosElement();
            if !ok { return stop; }
          }
          EachDone(env, Cur());
          return Done;
        }
        LocatedReady(env, s);
        ReadyMarked(env, s, Cur(), 0, ld.span.addr1);
        ChunkOfStos(ld.span.addr1);
      }
      end := Done;
    }

    method ChunkOfStos(b0: nat)
      requires Valid() && env.kind.Stos? && Ready(env, Cur(), 0, b0)
      modifies this, ram.mem
      ensures Valid() && Cur() == AfterChunk(env, old(Cur()), 0, b0) && cx < old(cx)
    {
      hide ValidEnv, Room, Aligned, Stored, Digits, Value, Bytes, Moved, Ready, Spans, Times, Dir, Offset, ChunkMem;
      ghost var s := Cur();
      ChunkReady(env, s, 0, b0);
      var count := cx;
      var countd := Room(env, b0 % PAGE);
      if countd < count { count := countd; }
      MovableLess(env, 0, b0, 0, count);
      ChunkFrom(env, s.m, 0, b0);
      var b: int := b0;
      for i := 0 to count
        invariant Valid() && si == s.si && di == s.di && cx == s.cx && marks == s.marks && Movable(env, 0, b0, i)
        invariant b == b0 + Offset(env, i) && ram.mem[..] == ChunkMem(env, s.m, 0, b0, i)
      {
        MovableLess(env, 0, b0, i + 1, count);
        ChunkMoves(env, s.m, 0, b0, i);
        Store(One(b), env.kind.ax);
        b := b + Dir(env);
      }
      di, cx := Moved(env, di, Offset(env, count)), cx - count;
    }
  }

  lemma ReadyMarked(e: Env, s: State, s1: State, a: nat, b: nat)
    requires Ready(e, s, a, b) && s1 == s.(marks := s1.marks)
    ensures Ready(e, s1, a, b)
  {
  }
}
