/**
 Instruction fetch of the 32-bit core through a cached page and a running physical pointer,
 and the fusion of CMP and TEST with a short JZ or JNZ that follows.
 */
module Fetch {
  import opened Words
  import opened EntryBits
  import opened SplitAccess
  import F = FlagSemantics
  import L = LazyCpu
  import Z = LazyFlags

  const PAGES := 0x10_0000

  /** What a page of code translates to; code in device memory is not modelled. */
  datatype CodePage = Faults | Mapped(frame: nat)

  /** `base` is the base of CS. */
  datatype Env = Env(pages: nat -> CodePage, m: seq<Byte>, base: Word, code16: bool)

  predicate InIomem(a: nat) {
    0xa_0000 <= a < 0xc_0000 || a >= 0xe000_0000
  }

  /** Frames of code lie in RAM, outside the window of the display. */
  ghost predicate InRamPages(pages: nat -> CodePage, ram: nat) {
    forall p: nat :: pages(p).Mapped? ==> PAGE * (pages(p).frame + 1) <= ram && !(0xa0 <= pages(p).frame < 0xc0)
  }

  ghost predicate ValidEnv(e: Env) {
    |e.m| <= 0xe000_0000 && InRamPages(e.pages, |e.m|)
  }

  /** The byte at a linear address, translated by itself. */
  function CodeByte(e: Env, la: Word): (b: seq<Byte>)
    requires ValidEnv(e)
    ensures |b| <= 1
  {
    match e.pages(la / PAGE)
    case Faults => []
    case Mapped(f) => FrameInRam(e, la / PAGE, la % PAGE); [e.m[PAGE * f + la % PAGE]]
  }

  lemma FrameInRam(e: Env, p: nat, o: nat)
    requires ValidEnv(e) && e.pages(p).Mapped? && o < PAGE
    ensures PAGE * e.pages(p).frame + o < |e.m|
  {
  }

  /** The `n` bytes from `la` on, as far as they translate. */
  function CodeBytes(e: Env, la: Word, n: nat): (b: seq<Byte>)
    requires ValidEnv(e)
    ensures |b| <= n
    decreases n
  {
    if n == 0 then [] else
    var init := CodeBytes(e, la, n - 1);
    if |init| < n - 1 then init else init + CodeByte(e, Wrap(la + n - 1))
  }

  // ---------- the XOR of linear addresses ----------

  lemma {:induction false} XorSelf(a: nat)
    ensures Xor(a, a) == 0
    decreases a
  {
    if a > 0 { XorSelf(a / 2); }
  }

  lemma XorIsZero(a: nat, b: nat)
    ensures Xor(a, b) == 0 <==> a == b
  {
    XorCancels(a, b);
    XorSelf(a);
    XorZero(b);
  }

  /** `(laddr ^ page) < k` asks for the same page and an offset below `k`. */
  lemma SamePage(la: Word, p: nat, k: nat)
    requires k <= PAGE
    ensures Xor(la, PAGE * p) < k <==> la / PAGE == p && la % PAGE < k
  {
    hide Xor, Shl;
    ShlTwelve(1);
    ShlTwelve(la / PAGE);
    ShlTwelve(p);
    ShlTwelve(Xor(la / PAGE, p));
    XorSplit(la / PAGE, la % PAGE, p, 0, 12);
    XorRightZero(la % PAGE);
    XorIsZero(la / PAGE, p);
  }

  lemma {:induction false} XorRightZero(a: nat)
    ensures Xor(a, 0) == a
    decreases a
  {
    if a > 0 { XorRightZero(a / 2); }
  }

  /** The difference that the cache stores does not depend on the offset in the page. */
  lemma PageDifference(f: nat, p: nat, o: nat)
    requires o < PAGE
    ensures Xor(PAGE * f + o, PAGE * p + o) == Xor(PAGE * f, PAGE * p)
  {
    hide Xor, Shl;
    ShlTwelve(1);
    ShlTwelve(f);
    ShlTwelve(p);
    XorSplit(f, o, p, o, 12);
    XorSplit(f, 0, p, 0, 12);
    XorSelf(o);
    XorSelf(0);
  }

  /** The difference moves an address of the page to the frame. */
  lemma DifferenceMoves(f: nat, la: Word)
    ensures Xor(Xor(PAGE * f, PAGE * (la / PAGE)), la) == PAGE * f + la % PAGE
  {
    hide Xor, Shl;
    ShlTwelve(1);
    ShlTwelve(f);
    ShlTwelve(la / PAGE);
    XorMovesOffset(f, la / PAGE, la % PAGE, 12);
  }

  /** What a hit in the cache reads. */
  lemma CachedByte(e: Env, p: nat, xaddr: nat, la: Word)
    requires ValidEnv(e) && e.pages(p).Mapped? && xaddr == Xor(PAGE * e.pages(p).frame, PAGE * p) && la / PAGE == p
    ensures var a := Xor(xaddr, la);
            a == PAGE * e.pages(p).frame + la % PAGE < |e.m| && CodeByte(e, la) == [e.m[a]]
  {
    hide Xor;
    DifferenceMoves(e.pages(p).frame, la);
    FrameInRam(e, p, la % PAGE);
  }

  lemma Further(x: int, k: int)
    ensures Wrap(Wrap(x) + k) == Wrap(x + k)
  {
  }

  lemma WrapWord(x: Word)
    ensures Wrap(x) == x && Wrap(x + 0) == x
  {
  }

  lemma StepOn(base: Word, ip: Word, k: nat)
    ensures Wrap(base + Wrap(ip + k)) == Wrap(Wrap(base + ip) + k)
  {
  }

  /** Bytes that all translate, given one by one. */
  lemma {:induction false} CodeBytesAre(e: Env, la: Word, b: seq<Byte>)
    requires ValidEnv(e) && forall k :: 0 <= k < |b| ==> CodeByte(e, Wrap(la + k)) == [b[k]]
    ensures CodeBytes(e, la, |b|) == b
    decreases |b|
  {
    if b != [] {
      var init := b[..|b| - 1];
      CodeBytesAre(e, la, init);
      assert init + [b[|b| - 1]] == b;
    }
  }

  lemma {:induction false} CodeBytesStop(e: Env, la: Word, k: nat, n: nat)
    requires ValidEnv(e) && k < n && CodeByte(e, Wrap(la + k)) == []
    ensures |CodeBytes(e, la, n)| <= k
    decreases n
  {
    if n - 1 > k { CodeBytesStop(e, la, k, n - 1); }
  }

  lemma Inside(la: Word, k: nat)
    requires la % PAGE + k < PAGE
    ensures Wrap(la + k) == la + k && (la + k) / PAGE == la / PAGE && (la + k) % PAGE == la % PAGE + k
  {
    var p, o := la / PAGE, la % PAGE;
    assert la == PAGE * p + o;
    InPage(p, o + k);
    assert la + k < 0x1_0000_0000;
  }

  /** Bytes of one page lie in a row. */
  lemma CodeBytesInPage(e: Env, la: Word, n: nat)
    requires ValidEnv(e) && e.pages(la / PAGE).Mapped? && la % PAGE + n <= PAGE
    ensures var a := PAGE * e.pages(la / PAGE).frame + la % PAGE; a + n <= |e.m| && CodeBytes(e, la, n) == e.m[a..a + n]
  {
    var a := PAGE * e.pages(la / PAGE).frame + la % PAGE;
    var b := e.m[a..a + n];
    forall k | 0 <= k < n
      ensures CodeByte(e, Wrap(la + k)) == [b[k]]
    {
      Inside(la, k);
    }
    CodeBytesAre(e, la, b);
  }

  /** A load that straddles two pages reads each byte where it translates to. */
  lemma CodeBytesAcross(e: Env, la: Word, n: nat)
    requires ValidEnv(e) && 1 <= n <= 8 && la % PAGE + n > PAGE && la + n <= 0x1_0000_0000 && e.pages(la / PAGE).Mapped?
    ensures var p := la / PAGE;
            match e.pages(p + 1)
            case Faults => |CodeBytes(e, la, n)| < n
            case Mapped(f2) =>
              var s := Place(la, n, e.pages(p).frame, f2);
              InRam(s, n, |e.m|) && CodeBytes(e, la, n) == Bytes(e.m, s, n)
  {
    hide Place, InRam, CodeBytes, CodeByte, Bytes;
    var p := la / PAGE;
    var left := PAGE - la % PAGE;
    match e.pages(p + 1)
    case Faults =>
      NextPageStops(e, la, left);
      CodeBytesStop(e, la, left, n);
    case Mapped(f2) =>
      var f1 := e.pages(p).frame;
      PlacesInRam(la, n, f1, f2, |e.m|);
      var b := Bytes(e.m, Place(la, n, f1, f2), n);
      forall k | 0 <= k < n
        ensures CodeByte(e, Wrap(la + k)) == [b[k]]
      {
        ByteAcross(e, la, n, k);
      }
      CodeBytesAre(e, la, b);
  }

  lemma NextPageStops(e: Env, la: Word, left: nat)
    requires ValidEnv(e) && left == PAGE - la % PAGE && la + left < 0x1_0000_0000 && e.pages(la / PAGE + 1).Faults?
    ensures CodeByte(e, Wrap(la + left)) == []
  {
    InPage(la / PAGE + 1, 0);
    assert la + left == PAGE * (la / PAGE + 1);
  }

  lemma ByteAcross(e: Env, la: Word, n: nat, k: nat)
    requires ValidEnv(e) && k < n <= 8 && la + n <= 0x1_0000_0000
    requires e.pages(la / PAGE).Mapped? && e.pages(la / PAGE + 1).Mapped?
    ensures var a := Where(Place(la, n, e.pages(la / PAGE).frame, e.pages(la / PAGE + 1).frame), k);
            a < |e.m| && CodeByte(e, Wrap(la + k)) == [e.m[a]]
  {
    hide Place, Where;
    var p, left := la / PAGE, PAGE - la % PAGE;
    WrapWord(la + k);
    PlaceIsBytewise(la, n, e.pages(p).frame, e.pages(p + 1).frame, k);
    if k < left {
      Inside(la, k);
    } else {
      assert la + k == PAGE * (p + 1) + (k - left);
      InPage(p + 1, k - left);
    }
    FrameInRam(e, (la + k) / PAGE, (la + k) % PAGE);
  }

  // ---------- the running pointer ----------

  /** The longest instruction, and the bytes of a page in which one may start to be fetched by pointer. */
  const LONGEST := 15
  const STARTS := 0xff0

  /** What the running pointer reads. */
  lemma PointerBytes(e: Env, first: Word, used: nat, n: nat)
    requires ValidEnv(e) && e.pages(first / PAGE).Mapped? && first % PAGE < STARTS && used + n <= LONGEST + 2 && n > 0
    ensures var a := PAGE * e.pages(first / PAGE).frame + first % PAGE + used;
            a + n <= |e.m| && CodeBytes(e, Wrap(first + used), n) == e.m[a..a + n]
  {
    hide CodeBytes, Wrap;
    Inside(first, used);
    CodeBytesInPage(e, first + used, n);
  }

  lemma PointerByte(e: Env, first: Word, used: nat)
    requires ValidEnv(e) && e.pages(first / PAGE).Mapped? && first % PAGE < STARTS && used <= LONGEST
    ensures var a := PAGE * e.pages(first / PAGE).frame + first % PAGE + used;
            a < |e.m| && CodeByte(e, Wrap(first + used)) == [e.m[a]]
  {
    Inside(first, used);
    FrameInRam(e, first / PAGE, first % PAGE + used);
  }

  class Front {
    var env: Env
    const alu: L.Cpu
    var nextIp: Word
    /** The cached page, if any, and its XOR difference. */
    var cached: bool
    var page: nat
    var xaddr: nat
    /** The running pointer, 0 when there is none. */
    var paddr: nat
    /** The linear address of the instruction, and how much of it has been fetched. */
    ghost var first: Word
    ghost var used: nat

    constructor (env: Env, alu: L.Cpu, ip: Word)
      requires ValidEnv(env)
      ensures Valid() && nextIp == ip && paddr == 0 && this.env == env && this.alu == alu
    {
      this.env, this.alu, nextIp, cached, page, xaddr, paddr := env, alu, ip, false, 0, 0, 0;
      first, used := Wrap(env.base + ip), 0;
    }

    function Here(): Word
      reads `nextIp, `env
    {
      Wrap(env.base + nextIp)
    }

    /** The cache repeats the translation of its page. */
    ghost predicate CacheOk()
      reads `env, `cached, `page, `xaddr
      ensures CacheOk() ==> ValidEnv(env)
    {
      && ValidEnv(env)
      && (cached ==> env.pages(page).Mapped? && xaddr == Xor(PAGE * env.pages(page).frame, PAGE * page))
    }

    /** Within an instruction the pointer, if there is one, is where the next byte lies. */
    ghost predicate Valid()
      reads `env, `nextIp, `cached, `page, `xaddr, `paddr, `first, `used
      ensures Valid() ==> CacheOk() && ValidEnv(env) && Here() == Wrap(first + used)
    {
      && CacheOk() && Here() == Wrap(first + used)
      && (paddr > 0 ==>
            && first % PAGE < STARTS && env.pages(first / PAGE).Mapped?
            && paddr == PAGE * env.pages(first / PAGE).frame + first % PAGE + used)
    }

    /** `translate8r`, and the fill of the cache: the slow half of `peek8`. */
    method PeekSlow() returns (b: seq<Byte>)
      requires Valid()
      modifies `cached, `page, `xaddr
      ensures Valid() && b == CodeByte(env, Here())
    {
      hide Xor;
      var la := Here();
      match env.pages(la / PAGE) {
        case Faults => b := [];
        case Mapped(f) =>
          var a := PAGE * f + la % PAGE;
          FrameInRam(env, la / PAGE, la % PAGE);
          b := [env.m[a]];
          if a + PAGE < |env.m| && !InIomem(a + 16) {
            PageDifference(f, la / PAGE, la % PAGE);
            cached, page, xaddr := true, la / PAGE, Xor(a, la);
          }
      }
    }

    /** `peek8`. */
    method Peek() returns (b: seq<Byte>)
      requires Valid()
      modifies `cached, `page, `xaddr
      ensures Valid() && b == CodeByte(env, Here())
    {
      hide Xor;
      var la := Here();
      SamePage(la, page, PAGE);
      if cached && Xor(la, PAGE * page) < PAGE {
        CachedByte(env, page, xaddr, la);
        b := [env.m[Xor(xaddr, la)]];
      } else {
        b := PeekSlow();
      }
    }

    /** `fetch8pf`: the first byte of an instruction; it sets up the pointer where there is room for the rest. */
    method FetchFirst() returns (b: seq<Byte>)
      requires CacheOk()
      modifies `nextIp, `cached, `page, `xaddr, `paddr, `first, `used
      ensures Valid() && b == CodeByte(env, old(Here())) && first == old(Here()) && used == |b| && nextIp == Wrap(old(nextIp) + |b|)
    {
      hide Xor, CodeByte, Wrap;
      var la := Here();
      StepOn(env.base, nextIp, 0);
      StepOn(env.base, nextIp, 1);
      WrapWord(la);
      WrapWord(nextIp);
      first, used, paddr := la, 0, 0;
      SamePage(la, page, STARTS);
      if cached && Xor(la, PAGE * page) < STARTS {
        CachedByte(env, page, xaddr, la);
        var a := Xor(xaddr, la);
        b := [env.m[a]];
        paddr := a + 1;
      } else {
        b := Peek();
      }
      if b != [] { nextIp, used := Wrap(nextIp + 1), 1; }
    }

    /** `fetch8`. */
    method Fetch8() returns (b: seq<Byte>)
      requires Valid() && used < LONGEST
      modifies `nextIp, `cached, `page, `xaddr, `paddr, `used
      ensures Valid() && b == CodeByte(env, old(Here())) && used == old(used) + |b| && nextIp == Wrap(old(nextIp) + |b|)
    {
      hide Xor, CodeByte, Wrap, CodeBytes;
      StepOn(env.base, nextIp, 1);
      Further(first + used, 1);
      WrapWord(nextIp);
      if paddr > 0 {
        PointerByte(env, first, used);
        b := [env.m[paddr]];
        paddr := paddr + 1;
      } else {
        b := Peek();
      }
      if b != [] { nextIp, used := Wrap(nextIp + 1), used + 1; }
    }

    /** `fetch16` and `fetch32`. */
    method FetchWide(n: nat) returns (b: seq<Byte>)
      requires Valid() && (n == 2 || n == 4) && used + n <= LONGEST && Here() + n <= 0x1_0000_0000
      modifies `nextIp, `paddr, `used
      ensures var c := CodeBytes(env, old(Here()), n); b == if |c| == n then c else []
      ensures Valid() && used == old(used) + |b| && nextIp == Wrap(old(nextIp) + |b|)
    {
      hide Xor, CodeByte, Wrap, CodeBytes, Bytes;
      var la := Here();
      StepOn(env.base, nextIp, n);
      Further(first + used, n);
      WrapWord(nextIp);
      b := [];
      if paddr > 0 {
        PointerBytes(env, first, used, n);
        b := env.m[paddr..paddr + n];
        paddr := paddr + n;
      } else {
        SamePage(la, page, PAGE - n + 1);
        if cached && Xor(la, PAGE * page) < PAGE - n + 1 {
          CachedByte(env, page, xaddr, la);
          CodeBytesInPage(env, la, n);
          var a := Xor(xaddr, la);
          b := env.m[a..a + n];
        } else {
          b := LoadSpan(la, n);
        }
      }
      if b != [] { nextIp, used := Wrap(nextIp + n), used + n; }
    }

    /** `translate16` and `load16`, or their 32-bit forms. */
    method LoadSpan(la: Word, n: nat) returns (b: seq<Byte>)
      requires ValidEnv(env) && (n == 2 || n == 4) && la + n <= 0x1_0000_0000
      ensures var c := CodeBytes(env, la, n); b == if |c| == n then c else []
    {
      hide CodeByte, CodeBytes, Bytes;
      var p := la / PAGE;
      if env.pages(p).Faults? {
        NoFirstByte(env, la, n);
        return [];
      }
      var f1 := env.pages(p).frame;
      if la % PAGE > PAGE - n {
        CodeBytesAcross(env, la, n);
        match env.pages(p + 1) {
          case Faults => b := [];
          case Mapped(f2) => b := Bytes(env.m, Place(la, n, f1, f2), n);
        }
      } else {
        CodeBytesInPage(env, la, n);
        BytesInRow(env.m, PAGE * f1 + la % PAGE, n);
        b := Bytes(env.m, Place(la, n, f1, f1), n);
      }
    }

    /** A further piece of the instruction at `la`. */
    method Piece(w: nat, ghost b: seq<Byte>, ghost la: Word, ghost ip: Word, ghost n: nat) returns (more: seq<Byte>)
      requires Valid() && w in {1, 2, 4} && first == la && used == |b| && nextIp == Wrap(ip + |b|)
      requires |b| + w <= n <= LONGEST && la + n <= 0x1_0000_0000 && b == CodeBytes(env, la, |b|)
      modifies `nextIp, `cached, `page, `xaddr, `paddr, `used
      ensures Valid() && used == |b| + |more| && nextIp == Wrap(ip + |b| + |more|)
      ensures if |more| == w then CodeBytes(env, la, |b| + w) == b + more else more == [] && |CodeBytes(env, la, n)| < |b| + w
    {
      hide *;
      WrapWord(la + |b|);
      CodeBytesJoin(env, la, |b|, w, n);
      if w == 1 {
        FirstCodeByte(env, Wrap(la + |b|));
        more := Fetch8();
      } else {
        more := FetchWide(w);
      }
      Further(ip + |b|, |more|);
    }

    /**
     One instruction: a first byte and then pieces of one, two or four bytes, up to 15 bytes in all.
     They are the bytes that translating each address gives; the fetch fails only where one does not translate.
     */
    method Instruction(widths: seq<nat>) returns (b: seq<Byte>)
      requires CacheOk() && Here() + 1 + Total(widths) <= 0x1_0000_0000
      requires (forall i :: 0 <= i < |widths| ==> widths[i] in {1, 2, 4}) && 1 + Total(widths) <= LONGEST
      modifies `nextIp, `cached, `page, `xaddr, `paddr, `first, `used
      ensures Valid() && first == old(Here()) && used == |b| && nextIp == Wrap(old(nextIp) + |b|)
      ensures var c := CodeBytes(env, old(Here()), 1 + Total(widths));
              if |c| == 1 + Total(widths) then b == c else |b| < 1 + Total(widths)
    {
      hide Xor, CodeByte, CodeBytes, Valid, CacheOk, Wrap, ValidEnv, Total, Here;
      ghost var la, ip := Here(), nextIp;
      ghost var n := 1 + Total(widths);
      assert widths[..|widths|] == widths;
      TotalNone(widths);
      b := FetchFirst();
      FirstCodeByte(env, la);
      if b == [] {
        CodeBytesJoin(env, la, 0, 1, n);
        return;
      }
      for i := 0 to |widths|
        invariant Valid() && first == la && used == |b| && |b| == 1 + Total(widths[..i]) <= n && nextIp == Wrap(ip + |b|)
        invariant b == CodeBytes(env, la, |b|)
      {
        TotalStep(widths, i);
        var more := Piece(widths[i], b, la, ip, n);
        b := b + more;
        if more == [] { return; }
      }
    }

    // ---------- fused jumps ----------

    /**
     `try_jcc8`, at the end of CMP and TEST: when the pointer shows a short JZ or JNZ that will be taken,
     it is taken at once. Otherwise nothing happens, and the jump is left to run by itself.
     */
    method TryJcc8() returns (fused: bool)
      requires Valid() && alu.Valid() && used <= LONGEST && alu.cc.mask.zf
      modifies `nextIp
      ensures fused ==> JccAt(env, old(nextIp)) && GoesOn(env, old(nextIp), alu.View().zf, nextIp)
      ensures !fused ==> nextIp == old(nextIp)
    {
      hide CodeBytes, Xor, Wrap, JumpsTo;
      fused := false;
      if paddr > 0 {
        PointerBytes(env, first, used, 2);
        ghost var b := CodeBytes(env, Here(), 2);
        var op: int := env.m[paddr];
        assert b[0] == env.m[paddr] && b[1] == env.m[paddr + 1];
        if op - op % 2 == 0x74 && (alu.cc.dst == 0) != (op % 2 == 1) {
          var d := Sext8(env.m[paddr + 1]);
          SextJumps(nextIp, b[1], env.code16);
          nextIp := Wrap(nextIp + d + 2);
          if env.code16 { nextIp := nextIp % 0x1_0000; }
          fused := true;
        }
      }
    }

    /** A short JZ or JNZ, run as an instruction of its own. */
    method Jcc()
      requires CacheOk() && alu.Valid() && JccAt(env, nextIp) && Here() + 2 <= 0x1_0000_0000
      modifies `nextIp, `cached, `page, `xaddr, `paddr, `first, `used
      ensures CacheOk() && GoesOn(env, old(nextIp), alu.View().zf, nextIp)
    {
      hide Xor, CodeBytes, Wrap, JumpsTo;
      var b := Instruction([1]);
      assert Total([1]) == 1;
      var op: int := b[0];
      var zf := Z.GetZF(alu.flags, alu.cc);
      if zf == (op == 0x74) {
        Further(old(nextIp) + 2, Sext8(b[1]));
        SextJumps(old(nextIp), b[1], env.code16);
        nextIp := Wrap(nextIp + Sext8(b[1]));
        if env.code16 { nextIp := nextIp % 0x1_0000; }
      }
    }

    /** A CMP (or TEST) that has been fetched, and the attempt to fuse it with a jump after it. */
    method Compare(test: bool, w: F.Width, a: Word, b: Word) returns (fused: bool, ghost r: Word)
      requires Valid() && alu.Valid() && used <= LONGEST && a < F.Size(w) && b < F.Size(w)
      modifies `nextIp, alu
      ensures CacheOk() && alu.Valid() && F.Arch(Comparison(test, w, a, b), old(alu.View()), r, alu.View())
      ensures fused ==> JccAt(env, old(nextIp)) && GoesOn(env, old(nextIp), alu.View().zf, nextIp)
      ensures !fused ==> nextIp == old(nextIp)
    {
      hide CodeBytes, F.Arch, GoesOn, JccAt, Z.Read, Xor;
      var result;
      if test { result := alu.Lop(F.AndOp, w, a, b); } else { result := alu.Aop(true, w, a, b); }
      r := result;
      fused := TryJcc8();
    }

    /** A CMP (or TEST) and the jump after it, fused where that is possible. */
    method CompareAndJump(test: bool, w: F.Width, a: Word, b: Word) returns (ghost r: Word)
      requires Valid() && alu.Valid() && used <= LONGEST && a < F.Size(w) && b < F.Size(w)
      requires JccAt(env, nextIp) && Here() + 2 <= 0x1_0000_0000
      modifies `nextIp, `cached, `page, `xaddr, `paddr, `first, `used, alu
      ensures CacheOk() && alu.Valid() && F.Arch(Comparison(test, w, a, b), old(alu.View()), r, alu.View())
      ensures GoesOn(env, old(nextIp), alu.View().zf, nextIp)
    {
      hide CodeBytes, F.Arch, GoesOn, JccAt, Z.Read, Xor;
      var fused;
      fused, r := Compare(test, w, a, b);
      if !fused { Jcc(); }
    }

    // ---------- runs ----------

    ghost function Now(): Machine
      reads `env, `nextIp, alu
      requires alu.Valid()
    {
      Machine(env, nextIp, alu.View())
    }

    /** A fetch that fails ends the instruction: the exception finds the address where it began. */
    method Failed(ip: Word)
      modifies `nextIp, `paddr
      ensures nextIp == ip
    {
      nextIp, paddr := ip, 0;
    }

    /** One operation; a CMP or TEST takes a short JZ or JNZ after it along. */
    method Do(op: Op) returns (ghost o: Out)
      requires CacheOk() && alu.Valid() && Legal(op, env, nextIp) && (op.Flush? ==> InRamPages(op.pages, |env.m|))
      modifies this, alu
      ensures CacheOk() && alu.Valid() && |env.m| == |old(env).m| && Does(op, old(Now()), o, Now())
    {
      hide CodeBytes, F.Arch, GoesOn, JccAt, Z.Read, Xor, CacheOk, Wrap, Total;
      o := Done;
      match op {
        case Plain(widths) => o := Step(widths);
        case Compares(widths, test, w, a, b) => o := CompareStep(widths, test, w, a, b);
        case Jump => Jcc();
        case Goto(base, code16, ip) =>
          Change(env.(base := base, code16 := code16));
          nextIp := ip;
        case Store(p, v) => Change(env.(m := env.m[p := v]));
        case Flush(pages) => Clear(pages);
      }
    }

    /** The cache knows nothing of CS and of what memory holds. */
    method Change(e: Env)
      requires CacheOk() && e.pages == env.pages && |e.m| == |env.m|
      modifies `env
      ensures CacheOk() && env == e
    {
      hide Xor;
      env := e;
    }

    /** Other translations, and the part of `tlb_clear` that concerns the fetch. */
    method Clear(pages: nat -> CodePage)
      requires CacheOk() && InRamPages(pages, |env.m|)
      modifies `env, `cached, `paddr
      ensures CacheOk() && env == old(env).(pages := pages)
    {
      env := env.(pages := pages);
      cached, paddr := false, 0;
    }

    method Step(widths: seq<nat>) returns (ghost o: Out)
      requires CacheOk() && alu.Valid() && Legal(Plain(widths), env, nextIp)
      modifies `nextIp, `cached, `page, `xaddr, `paddr, `first, `used
      ensures CacheOk() && Does(Plain(widths), old(Now()), o, Now())
    {
      hide CodeBytes, CacheOk, Wrap, Total;
      var ip := nextIp;
      var b := Instruction(widths);
      if |b| == 1 + Total(widths) {
        o := Fetched(b);
      } else {
        Failed(ip);
        o := Fault;
      }
    }

    method CompareStep(widths: seq<nat>, test: bool, w: F.Width, a: Word, b: Word) returns (ghost o: Out)
      requires CacheOk() && alu.Valid() && Legal(Compares(widths, test, w, a, b), env, nextIp)
      modifies `nextIp, `cached, `page, `xaddr, `paddr, `first, `used, alu
      ensures CacheOk() && alu.Valid() && Does(Compares(widths, test, w, a, b), old(Now()), o, Now())
    {
      hide CodeBytes, F.Arch, GoesOn, JccAt, Z.Read, CacheOk, Wrap, Total;
      var ip := nextIp;
      var c := Instruction(widths);
      if |c| < 1 + Total(widths) {
        Failed(ip);
        return Fault;
      }
      ghost var r;
      if JccAt(env, nextIp) {
        r := CompareAndJump(test, w, a, b);
      } else {
        var fused;
        fused, r := Compare(test, w, a, b);
      }
      o := Compared(c, r);
    }

    /** Any run: what is fetched and where it goes on are as if each byte were translated by itself and no jump were fused. */
    method Run(ops: seq<Op>) returns (done: nat, ghost trace: seq<Machine>, ghost outs: seq<Out>)
      requires CacheOk() && alu.Valid()
      requires forall i :: 0 <= i < |ops| && ops[i].Flush? ==> InRamPages(ops[i].pages, |env.m|)
      modifies this, alu
      ensures CacheOk() && alu.Valid()
      ensures done <= |ops| && (done < |ops| ==> !Legal(ops[done], env, nextIp))
      ensures |trace| == done + 1 && |outs| == done && trace[0] == old(Now()) && trace[done] == Now()
      ensures forall k :: 0 <= k < done ==> Does(ops[k], trace[k], outs[k], trace[k + 1])
    {
      hide Does, Legal, CacheOk, InRamPages;
      done, trace, outs := 0, [Now()], [];
      while done < |ops| && Legal(ops[done], env, nextIp)
        invariant done <= |ops| && CacheOk() && alu.Valid() && |env.m| == |old(env).m|
        invariant |trace| == done + 1 && |outs| == done && trace[0] == old(Now()) && trace[done] == Now()
        invariant forall k :: 0 <= k < done ==> Does(ops[k], trace[k], outs[k], trace[k + 1])
      {
        ghost var o := Do(ops[done]);
        trace, outs := trace + [Now()], outs + [o];
        done := done + 1;
      }
    }
  }

  /** The machine without cache, pointer and fusion. */
  datatype Machine = Machine(env: Env, ip: Word, flags: F.Flags)

  /**
   What the core does between two fetches: an instruction of pieces `widths` that goes on behind itself, CMP or TEST
   with the short JZ or JNZ after it, such a jump alone, any other transfer of control, a store to memory, and a change
   of translations, which flushes the cache.
   */
  datatype Op =
    | Plain(widths: seq<nat>)
    | Compares(widths: seq<nat>, test: bool, w: F.Width, a: Word, b: Word)
    | Jump
    | Goto(base: Word, code16: bool, ip: Word)
    | Store(p: nat, v: Byte)
    | Flush(pages: nat -> CodePage)

  datatype Out = Fetched(bytes: seq<Byte>) | Compared(bytes: seq<Byte>, r: Word) | Fault | Done

  function Comparison(test: bool, w: F.Width, a: Word, b: Word): F.Instr {
    if test then F.Lop(F.AndOp, w, a, b) else F.Aop(true, w, a, b)
  }

  /** An instruction of at most 15 bytes that does not run past the end of the address space. */
  predicate Fits(e: Env, ip: Word, widths: seq<nat>) {
    && (forall i :: 0 <= i < |widths| ==> widths[i] in {1, 2, 4})
    && 1 + Total(widths) <= LONGEST && Wrap(e.base + ip) + 1 + Total(widths) <= 0x1_0000_0000
  }

  predicate Legal(op: Op, e: Env, ip: Word)
    requires ValidEnv(e)
  {
    match op
    case Plain(widths) => Fits(e, ip, widths)
    case Compares(widths, _, w, a, b) =>
      var next := Wrap(ip + 1 + Total(widths));
      && Fits(e, ip, widths) && a < F.Size(w) && b < F.Size(w)
      && (JccAt(e, next) ==> Wrap(e.base + next) + 2 <= 0x1_0000_0000)
    case Jump => JccAt(e, ip) && Wrap(e.base + ip) + 2 <= 0x1_0000_0000
    case Store(p, _) => p < |e.m|
    case _ => true
  }

  /** One operation of the machine without cache, pointer and fusion. */
  ghost predicate Does(op: Op, s: Machine, o: Out, s': Machine) {
    ValidEnv(s.env) &&
    match op
    case Plain(widths) =>
      var n := 1 + Total(widths);
      var c := CodeBytes(s.env, Wrap(s.env.base + s.ip), n);
      if |c| == n then o == Fetched(c) && s' == s.(ip := Wrap(s.ip + n)) else o == Fault && s' == s
    case Compares(widths, test, w, a, b) =>
      var n := 1 + Total(widths);
      var c := CodeBytes(s.env, Wrap(s.env.base + s.ip), n);
      if |c| < n then o == Fault && s' == s else
      && o.Compared? && o.bytes == c && F.Arch(Comparison(test, w, a, b), s.flags, o.r, s'.flags)
      && var ip := Wrap(s.ip + n);
         && s'.env == s.env && if JccAt(s.env, ip) then GoesOn(s.env, ip, s'.flags.zf, s'.ip) else s'.ip == ip
    case Jump => o == Done && JccAt(s.env, s.ip) && s' == s.(ip := s'.ip) && GoesOn(s.env, s.ip, s.flags.zf, s'.ip)
    case Goto(base, code16, ip) => o == Done && s' == s.(env := s.env.(base := base, code16 := code16), ip := ip)
    case Store(p, v) => o == Done && p < |s.env.m| && s' == s.(env := s.env.(m := s.env.m[p := v]))
    case Flush(pages) => o == Done && s' == s.(env := s.env.(pages := pages))
  }

  function Sext8(b: Byte): int {
    var k: int := b;
    if k < 0x80 then k else k - 0x100
  }

  /** Both bytes of a short JZ or JNZ can be fetched at `ip`. */
  predicate JccAt(e: Env, ip: Word)
    requires ValidEnv(e)
  {
    var b := CodeBytes(e, Wrap(e.base + ip), 2);
    |b| == 2 && (b[0] == 0x74 || b[0] == 0x75)
  }

  /**
   `next` is where a short JZ or JNZ at `ip` with second byte `b` jumps to: at most 128 bytes back or 127 ahead of the
   end of the jump and congruent to `b` modulo 256, all modulo 2^32 or, in 16-bit code, modulo 2^16.
   */
  predicate JumpsTo(ip: Word, b: Byte, code16: bool, next: Word) {
    var ahead := if code16 then (next - ip - 2) % 0x1_0000 else (next - ip - 2) % 0x1_0000_0000;
    && (code16 ==> next < 0x1_0000)
    && (ahead - b) % 0x100 == 0
    && (ahead < 0x80 || ahead >= if code16 then 0xff80 else 0xffff_ff80)
  }

  /** `next` is where a short JZ or JNZ goes on: at its target when it is taken, and otherwise behind itself. */
  ghost predicate GoesOn(e: Env, ip: Word, zf: bool, next: Word)
    requires ValidEnv(e) && JccAt(e, ip)
  {
    var b := CodeBytes(e, Wrap(e.base + ip), 2);
    if zf == (b[0] == 0x74) then JumpsTo(ip, b[1], e.code16, next) else next == Wrap(ip + 2)
  }

  /** A distance from -128 to 127, taken modulo 2^16. */
  lemma ShortDistance(x: int, d: int, q: int)
    requires -0x80 <= d < 0x80 && x == d - 0x1_0000 * q
    ensures x % 0x1_0000 == if d < 0 then d + 0x1_0000 else d
  {
  }

  /** The same modulo 2^32. */
  lemma LongDistance(x: int, d: int, q: int)
    requires -0x80 <= d < 0x80 && x == d - 0x1_0000_0000 * q
    ensures x % 0x1_0000_0000 == if d < 0 then d + 0x1_0000_0000 else d
  {
  }

  lemma SextJumps(ip: Word, b: Byte, code16: bool)
    ensures var t := Wrap(ip + 2 + Sext8(b)); JumpsTo(ip, b, code16, if code16 then t % 0x1_0000 else t)
  {
    var d := Sext8(b);
    var q, t := (ip + 2 + d) / 0x1_0000_0000, Wrap(ip + 2 + d);
    if code16 {
      ShortDistance(t % 0x1_0000 - ip - 2, d, 0x1_0000 * q + t / 0x1_0000);
    } else {
      LongDistance(t - ip - 2, d, q);
    }
  }

  /** There is only one such address. */
  lemma JumpsOnce(ip: Word, b: Byte, code16: bool, next: Word, next': Word)
    requires JumpsTo(ip, b, code16, next) && JumpsTo(ip, b, code16, next')
    ensures next == next'
  {
    var x, y := next - ip - 2, next' - ip - 2;
    if code16 {
      SameAhead(x % 0x1_0000, y % 0x1_0000, b, 0x100);
      SameShort(x, y);
    } else {
      SameAhead(x % 0x1_0000_0000, y % 0x1_0000_0000, b, 0x100_0000);
      SameLong(x, y);
    }
  }

  lemma SameAhead(x: nat, y: nat, b: Byte, n: nat)
    requires (x - b) % 0x100 == 0 && (y - b) % 0x100 == 0 && x < 0x100 * n && y < 0x100 * n
    requires (x < 0x80 || x >= 0x100 * n - 0x80) && (y < 0x80 || y >= 0x100 * n - 0x80)
    ensures x == y
  {
    var k, l := (x - b) / 0x100, (y - b) / 0x100;
    assert x - b == 0x100 * k && y - b == 0x100 * l;
  }

  lemma SameShort(x: int, y: int)
    requires -0x1_0000 < x - y < 0x1_0000 && x % 0x1_0000 == y % 0x1_0000
    ensures x == y
  {
  }

  lemma SameLong(x: int, y: int)
    requires -0x1_0000_0000 < x - y < 0x1_0000_0000 && x % 0x1_0000_0000 == y % 0x1_0000_0000
    ensures x == y
  {
  }

  function Total(widths: seq<nat>): nat
    decreases |widths|
  {
    if widths == [] then 0 else Total(widths[..|widths| - 1]) + widths[|widths| - 1]
  }

  lemma TotalNone(widths: seq<nat>)
    ensures Total(widths[..0]) == 0
  {
  }

  lemma {:induction false} TotalStep(widths: seq<nat>, i: nat)
    requires i < |widths|
    ensures Total(widths[..i + 1]) == Total(widths[..i]) + widths[i] <= Total(widths)
    decreases |widths|
  {
    var init := widths[..|widths| - 1];
    if i < |init| {
      TotalStep(init, i);
      assert init[..i + 1] == widths[..i + 1] && init[..i] == widths[..i];
    } else {
      assert widths[..i + 1] == widths && widths[..i] == init;
    }
  }

  lemma FirstCodeByte(e: Env, la: Word)
    requires ValidEnv(e)
    ensures CodeBytes(e, la, 1) == CodeByte(e, la)
  {
    assert [] + CodeByte(e, la) == CodeByte(e, la);
    WrapWord(la);
    assert CodeBytes(e, la, 0) == [];
  }

  /** `j` bytes after the first `i`: all of them, or the stream of `n` bytes stops there. */
  lemma {:induction false} CodeBytesJoin(e: Env, la: Word, i: nat, j: nat, n: nat)
    requires ValidEnv(e) && |CodeBytes(e, la, i)| == i && i + j <= n
    ensures var c := CodeBytes(e, Wrap(la + i), j);
            if |c| == j then CodeBytes(e, la, i + j) == CodeBytes(e, la, i) + c else |CodeBytes(e, la, n)| < i + j
    decreases j
  {
    hide CodeByte, CodeBytes, Wrap;
    CodeBytesStep(e, Wrap(la + i), j);
    CodeBytesStep(e, la, i + j);
    if j == 0 {
      assert CodeBytes(e, la, i) + [] == CodeBytes(e, la, i);
    } else {
      CodeBytesJoin(e, la, i, j - 1, n);
      Further(la + i, j - 1);
      var c := CodeBytes(e, Wrap(la + i), j - 1);
      if |c| == j - 1 {
        var d := CodeByte(e, Wrap(la + i + j - 1));
        assert (CodeBytes(e, la, i) + c) + d == CodeBytes(e, la, i) + (c + d);
        if d == [] { CodeBytesStop(e, la, i + j - 1, n); }
      }
    }
  }

  lemma CodeBytesStep(e: Env, la: Word, n: nat)
    requires ValidEnv(e)
    ensures n == 0 ==> CodeBytes(e, la, n) == []
    ensures n > 0 ==>
              var init := CodeBytes(e, la, n - 1);
              CodeBytes(e, la, n) == if |init| < n - 1 then init else init + CodeByte(e, Wrap(la + n - 1))
  {
  }

  lemma NoFirstByte(e: Env, la: Word, n: nat)
    requires ValidEnv(e) && e.pages(la / PAGE).Faults? && n > 0
    ensures |CodeBytes(e, la, n)| == 0
  {
    CodeBytesStop(e, la, 0, n);
  }
}
