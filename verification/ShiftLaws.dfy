/**
 The shift macros compute in one go what the manual's pseudo-code does one position at a
 time: the closed form of every loop, and of the C expressions that replace it.
 */
module ShiftLaws {
  import opened Words
  import opened FlagSemantics

  lemma WidthConstants(w: Width)
    ensures Shl(1, Bits(w)) == Size(w) && Shl(1, Bits(w) - 1) == Half(w)
  {
    hide Shr;
    Constants(1);
    assert Shl(1, Bits(w)) == 2 * Shl(1, Bits(w) - 1);
  }

  lemma TruncIsLow(w: Width, z: nat)
    ensures Trunc(w, z) == Low(z, Bits(w))
  {
    hide Shr, Shl, Low, Bit, Trunc;
    LowBound(z, Bits(w));
    Constants(1);
    Constants(Shr(z, Bits(w)));
    TruncOf(w, Shr(z, Bits(w)), Low(z, Bits(w)));
  }

  lemma TruncTop(w: Width, z: nat)
    ensures Trunc(w, z) >= Half(w) <==> Bit(z, Bits(w) - 1) == 1
  {
    hide Shr, Shl, Low, Bit, Trunc, Half;
    TruncIsLow(w, z);
    WidthConstants(w);
    LowTop(z, Bits(w) - 1);
    LowBound(z, Bits(w) - 1);
  }

  lemma TruncSmall(w: Width, x: nat)
    requires x < Size(w)
    ensures Trunc(w, x) == x
  {
  }

  /** Doubling may be done before or after the truncation. */
  lemma TruncDoubled(w: Width, z: int, d: int)
    requires 0 <= d <= 1
    ensures Trunc(w, 2 * Trunc(w, z)) + d == Trunc(w, 2 * z + d)
  {
    hide Trunc, Quotient;
    var q, r := Quotient(w, z), Trunc(w, z);
    Division(w, z);
    var k := if 2 * r < Size(w) then 0 else 1;
    assert 2 * r == Size(w) * k + (2 * r - Size(w) * k) && 0 <= 2 * r - Size(w) * k <= Size(w) - 2
           && 2 * z + d == Size(w) * (2 * q + k) + (2 * r - Size(w) * k + d) by {
      match w case W8 => case W16 => case W32 =>
    }
    TruncOf(w, k, 2 * r - Size(w) * k);
    TruncOf(w, 2 * q + k, 2 * r - Size(w) * k + d);
  }

  /** One round of the left-going loops on a number not yet truncated. */
  lemma LeftRound(w: Width, z: nat, c: bool)
    ensures var t, top := Trunc(w, z), Bit(z, Bits(w) - 1);
            && Round(SHL, w, t, c) == (Trunc(w, 2 * z), top == 1)
            && Round(RCL, w, t, c) == (Trunc(w, 2 * z + Num(c)), top == 1)
            && Round(ROL, w, t, c) == (Trunc(w, 2 * z + top), top == 1)
  {
    hide Bit, Shr;
    TruncTop(w, z);
    TruncDoubled(w, z, 0);
    TruncDoubled(w, z, 1);
    hide Trunc, Half, Bits;
  }

  lemma RoundsStep(k: ShiftKind, w: Width, x: nat, c: bool, n: nat)
    ensures Rounds(k, w, x, c, 0) == (x, c)
    ensures n > 0 ==> var (y, d) := Rounds(k, w, x, c, n - 1); Rounds(k, w, x, c, n) == Round(k, w, y, d)
  {
  }

  // ---------- SHL, SHR, SAR ----------

  lemma {:induction false} ShlRounds(w: Width, x: nat, c: bool, n: nat)
    requires x < Size(w)
    ensures Rounds(SHL, w, x, c, n) == (Trunc(w, Shl(x, n)), if n == 0 then c else Bit(Shl(x, n - 1), Bits(w) - 1) == 1)
  {
    hide Rounds, Round, Trunc, Bit;
    RoundsStep(SHL, w, x, c, n);
    if n == 0 {
      TruncSmall(w, x);
    } else {
      ShlRounds(w, x, c, n - 1);
      LeftRound(w, Shl(x, n - 1), Rounds(SHL, w, x, c, n - 1).1);
    }
  }

  lemma {:induction false} ShrRounds(w: Width, x: nat, c: bool, n: nat)
    ensures Rounds(SHR, w, x, c, n) == (Shr(x, n), if n == 0 then c else Bit(x, n - 1) == 1)
  {
    hide Rounds;
    RoundsStep(SHR, w, x, c, n);
    if n > 0 {
      ShrRounds(w, x, c, n - 1);
      ShrBit(x, n - 1);
    }
  }

  /** The arithmetic right shift of C. */
  function Sar(x: int, n: nat): int
    decreases n
  {
    if n == 0 then x else Sar(x, n - 1) / 2
  }

  lemma {:induction false} SarRange(w: Width, x: int, n: nat)
    requires -Half(w) <= x < Half(w)
    ensures -Half(w) <= Sar(x, n) < Half(w)
    decreases n
  {
    if n > 0 { SarRange(w, x, n - 1); }
  }

  lemma {:induction false} SarRounds(w: Width, x: nat, c: bool, n: nat)
    requires x < Size(w)
    ensures var v := Signed(w, x);
            Rounds(SAR, w, x, c, n) == (Trunc(w, Sar(v, n)), if n == 0 then c else Sar(v, n - 1) % 2 == 1)
  {
    hide Rounds, Round, Trunc;
    var v := Signed(w, x);
    RoundsStep(SAR, w, x, c, n);
    SignedTrunc(w, x);
    if n > 0 {
      SarRounds(w, x, c, n - 1);
      SarRange(w, v, n - 1);
      SarRound(w, Sar(v, n - 1), Rounds(SAR, w, x, c, n - 1).1);
    }
  }

  lemma SarRound(w: Width, v: int, c: bool)
    requires -Half(w) <= v < Half(w)
    ensures Round(SAR, w, Trunc(w, v), c) == (Trunc(w, v / 2), v % 2 == 1)
  {
    SignedSmall(w, v);
    SignedSmall(w, v / 2);
    hide Trunc;
  }

  lemma SignedSmall(w: Width, v: int)
    requires -Half(w) <= v < Half(w)
    ensures Trunc(w, v) == if v >= 0 then v else v + Size(w)
  {
  }

  lemma SignedTrunc(w: Width, x: nat)
    requires x < Size(w)
    ensures -Half(w) <= Signed(w, x) < Half(w) && Trunc(w, Signed(w, x)) == x
  {
    TruncSmall(w, x);
    assert Signed(w, x) == if x < Half(w) then x else x - Size(w);
    SignedSmall(w, Signed(w, x));
    hide Signed, Trunc;
  }

  // ---------- rotates, as digits moving in a frame of `b` positions ----------

  lemma {:induction false} ShlZero(n: nat)
    ensures Shl(0, n) == 0
  {
    if n > 0 { ShlZero(n - 1); }
  }

  lemma ShlNum(c: bool, n: nat)
    ensures Shl(Num(c), n) == if c then Shl(1, n) else 0
  {
    ShlZero(n);
  }

  lemma ShlTwice(x: nat, n: nat)
    ensures Shl(2 * x, n) == Shl(x, n + 1)
  {
    ShlShl(x, 1, n);
    assert Shl(x, 1) == 2 * Shl(x, 0);
  }

  /** After `n` rounds of RCL: `x` moved up, the old carry, and the digits that came round. */
  function RclForm(b: nat, x: nat, c: bool, n: nat): nat
    requires 1 <= n <= b
  {
    Shl(2 * x + Num(c), n - 1) + Shr(x, b + 1 - n)
  }

  lemma RclGrows(b: nat, x: nat, c: bool, n: nat)
    requires 1 <= n < b
    ensures RclForm(b, x, c, n + 1) == 2 * RclForm(b, x, c, n) + Bit(x, b - n)
  {
    ShrBit(x, b - n);
    hide Shr, Bit;
  }

  lemma RclTop(b: nat, x: nat, c: bool, n: nat)
    requires 1 <= n < b && x < Shl(1, b)
    ensures Bit(RclForm(b, x, c, n), b - 1) == Bit(x, b - 1 - n)
  {
    hide Shr, Bit;
    ShrBound(x, b + 1 - n, b);
    ShlSum(2 * x, Num(c), n - 1);
    ShlTwice(x, n - 1);
    ShlNum(c, n - 1);
    ShlBit(x, Shl(Num(c), n - 1) + Shr(x, b + 1 - n), n, b - 1 - n);
  }

  lemma {:induction false} RclRounds(w: Width, x: nat, c: bool, n: nat)
    requires x < Size(w) && 1 <= n <= Bits(w)
    ensures Rounds(RCL, w, x, c, n) == (Trunc(w, RclForm(Bits(w), x, c, n)), Bit(x, Bits(w) - n) == 1)
  {
    hide Rounds, Round, Trunc, Bit, RclForm, Shl, Shr;
    var b := Bits(w);
    RoundsStep(RCL, w, x, c, n);
    if n == 1 {
      RclOnce(w, x, c);
    } else {
      RclRounds(w, x, c, n - 1);
      WidthConstants(w);
      RclGrows(b, x, c, n - 1);
      RclTop(b, x, c, n - 1);
      LeftRound(w, RclForm(b, x, c, n - 1), Rounds(RCL, w, x, c, n - 1).1);
    }
  }

  lemma RclOnce(w: Width, x: nat, c: bool)
    requires x < Size(w)
    ensures Rounds(RCL, w, x, c, 1) == (Trunc(w, RclForm(Bits(w), x, c, 1)), Bit(x, Bits(w) - 1) == 1)
  {
    hide Shr, Bit;
    var b := Bits(w);
    WidthConstants(w);
    ShrBound(x, b, b);
    assert Shl(1, 0) == 1;
    assert RclForm(b, x, c, 1) == 2 * x + Num(c);
    assert Rounds(RCL, w, x, c, 0) == (x, c);
    TruncTop(w, x);
    TruncSmall(w, x);
    TruncDoubled(w, x, Num(c));
  }

  function RolForm(b: nat, x: nat, n: nat): nat
    requires n <= b
  {
    Shl(x, n) + Shr(x, b - n)
  }

  lemma RolNone(b: nat, x: nat)
    requires x < Shl(1, b)
    ensures RolForm(b, x, 0) == x
  {
    hide Shr;
    ShrBound(x, b, b);
    assert Shl(1, 0) == 1;
  }

  lemma RolGrows(b: nat, x: nat, n: nat)
    requires n < b
    ensures RolForm(b, x, n + 1) == 2 * RolForm(b, x, n) + Bit(x, b - n - 1)
  {
    ShrBit(x, b - n - 1);
    hide Shr, Bit;
  }

  lemma RolTop(b: nat, x: nat, n: nat)
    requires n < b && x < Shl(1, b)
    ensures Bit(RolForm(b, x, n), b - 1) == Bit(x, b - 1 - n)
  {
    hide Shr, Bit;
    ShrBound(x, b - n, b);
    ShlBit(x, Shr(x, b - n), n, b - 1 - n);
  }

  lemma {:induction false} RolRounds(w: Width, x: nat, c: bool, n: nat)
    requires x < Size(w) && n < Bits(w)
    ensures Rounds(ROL, w, x, c, n) == (Trunc(w, RolForm(Bits(w), x, n)), if n == 0 then c else Bit(x, Bits(w) - n) == 1)
  {
    hide Rounds, Round, Trunc, Bit, RolForm, Shl, Shr;
    var b := Bits(w);
    WidthConstants(w);
    RoundsStep(ROL, w, x, c, n);
    if n == 0 {
      RolNone(b, x);
      TruncSmall(w, x);
    } else {
      RolRounds(w, x, c, n - 1);
      RolGrows(b, x, n - 1);
      RolTop(b, x, n - 1);
      LeftRound(w, RolForm(b, x, n - 1), Rounds(ROL, w, x, c, n - 1).1);
    }
  }

  /** After `n` rounds of RCR: `x` moved down, the old carry, and the digits that came round. */
  function RcrForm(b: nat, x: nat, c: bool, n: nat): nat
    requires 1 <= n <= b
  {
    Shr(x, n) + Shl(Num(c), b - n) + Shl(Low(x, n - 1), b + 1 - n)
  }

  /** A new digit on top of `Low`, moved to the top of the frame. */
  lemma LowGrows(b: nat, x: nat, n: nat)
    requires 1 <= n <= b
    ensures Shl(Low(x, n), b - n) == Shl(Low(x, n - 1), b - n) + (if Bit(x, n - 1) == 1 then Shl(1, b - 1) else 0)
  {
    hide Low, Bit, Shr, Shl;
    LowTop(x, n - 1);
    if Bit(x, n - 1) == 1 {
      ShlSum(Low(x, n - 1), Shl(1, n - 1), b - n);
      ShlShl(1, n - 1, b - n);
    }
  }

  lemma RcrOnce(b: nat, x: nat, c: bool)
    requires b >= 1
    ensures RcrForm(b, x, c, 1) == x / 2 + (if c then Shl(1, b - 1) else 0)
    ensures x % 2 == Bit(x, 0)
  {
    ShrBit(x, 0);
    assert Shr(x, 0) == x && Low(x, 0) == 0;
    ShlZero(b);
    ShlNum(c, b - 1);
    hide Shl;
  }

  lemma RcrShrinks(b: nat, x: nat, c: bool, n: nat)
    requires 1 <= n < b
    ensures RcrForm(b, x, c, n + 1) == RcrForm(b, x, c, n) / 2 + (if Bit(x, n - 1) == 1 then Shl(1, b - 1) else 0)
    ensures RcrForm(b, x, c, n) % 2 == Bit(x, n)
  {
    ShrBit(x, n);
    hide Low, Bit, Shr;
    LowGrows(b, x, n);
    assert Shl(Num(c), b - n) == 2 * Shl(Num(c), b - n - 1);
    assert Shl(Low(x, n - 1), b + 1 - n) == 2 * Shl(Low(x, n - 1), b - n);
  }

  lemma {:induction false} RcrRounds(w: Width, x: nat, c: bool, n: nat)
    requires 1 <= n <= Bits(w)
    ensures Rounds(RCR, w, x, c, n) == (RcrForm(Bits(w), x, c, n), Bit(x, n - 1) == 1)
  {
    hide Rounds, Bit, RcrForm, Shl, Shr, Low;
    var b := Bits(w);
    WidthConstants(w);
    RoundsStep(RCR, w, x, c, n);
    if n == 1 {
      RcrOnce(b, x, c);
    } else {
      RcrRounds(w, x, c, n - 1);
      RcrShrinks(b, x, c, n - 1);
    }
  }

  function RorForm(b: nat, x: nat, n: nat): nat
    requires n <= b
  {
    Shr(x, n) + Shl(Low(x, n), b - n)
  }

  lemma RorNone(b: nat, x: nat)
    ensures RorForm(b, x, 0) == x
  {
    assert Shr(x, 0) == x && Low(x, 0) == 0;
    ShlZero(b);
    hide Shl;
  }

  lemma RorShrinks(b: nat, x: nat, n: nat)
    requires n < b
    ensures RorForm(b, x, n + 1) == RorForm(b, x, n) / 2 + (if Bit(x, n) == 1 then Shl(1, b - 1) else 0)
    ensures RorForm(b, x, n) % 2 == Bit(x, n)
  {
    ShrBit(x, n);
    hide Low, Bit, Shr;
    LowGrows(b, x, n + 1);
    assert Shl(Low(x, n), b - n) == 2 * Shl(Low(x, n), b - n - 1);
  }

  lemma {:induction false} RorRounds(w: Width, x: nat, c: bool, n: nat)
    requires n < Bits(w)
    ensures Rounds(ROR, w, x, c, n) == (RorForm(Bits(w), x, n), if n == 0 then c else Bit(x, n - 1) == 1)
  {
    hide Rounds, Bit, RorForm, Shl, Shr, Low;
    var b := Bits(w);
    WidthConstants(w);
    RoundsStep(ROR, w, x, c, n);
    if n == 0 {
      RorNone(b, x);
    } else {
      RorRounds(w, x, c, n - 1);
      RorShrinks(b, x, n - 1);
    }
  }

  // ---------- the C expressions ----------

  /** `x << n` on 32-bit words. */
  function ShlWord(x: Word, n: nat): Word
    requires n <= 32
  {
    Wrap(Shl(x, n))
  }

  lemma ShlWordDigits(x: Word, n: nat)
    requires n <= 32
    ensures ShlWord(x, n) == Shl(Low(x, 32 - n), n)
  {
    TruncIsLow(W32, Shl(x, n));
    LowOfShl(x, n, 32);
  }

  lemma ShlWordTrunc(w: Width, x: Word, n: nat)
    requires n <= 32
    ensures Trunc(w, ShlWord(x, n)) == Trunc(w, Shl(x, n))
  {
    hide Shl;
    match w
    case W8 => assert Shl(x, n) % 0x1_0000_0000 % 0x100 == Shl(x, n) % 0x100;
    case W16 => assert Shl(x, n) % 0x1_0000_0000 % 0x1_0000 == Shl(x, n) % 0x1_0000;
    case W32 =>
  }

  lemma OrAbove(a: nat, s: nat, m: nat)
    requires s < Shl(1, m)
    ensures Or(s, Shl(a, m)) == Shl(a, m) + s && Or(Shl(a, m), s) == Shl(a, m) + s
  {
    hide Or;
    OrDisjoint(a, s, m);
    OrCommutes(s, Shl(a, m));
  }

  lemma CarryWord(c: bool, n: nat)
    requires n < 32
    ensures ShlWord(Num(c), n) == Shl(Num(c), n) <= Shl(1, n)
  {
    ShlNum(c, n);
    ShlShl(1, n, 32 - n);
    ShlMonotone(Shl(1, n), 32 - n);
    Constants(1);
  }

  lemma {:induction false} ShlMonotone(x: nat, n: nat)
    requires n > 0 && x > 0
    ensures x < Shl(x, n)
  {
    if n > 1 { ShlMonotone(x, n - 1); }
  }

  function RolCode(w: Width, x: Word, y: nat): nat
    requires y <= Bits(w)
  {
    Or(ShlWord(x, y), Shr(x, Bits(w) - y))
  }

  lemma RolCodeIsForm(w: Width, x: Word, y: nat)
    requires x < Size(w) && 1 <= y < Bits(w)
    ensures Trunc(w, RolCode(w, x, y)) == Trunc(w, RolForm(Bits(w), x, y))
  {
    var b := Bits(w);
    hide Or, Shr, Shl, Low;
    WidthConstants(w);
    ShrBound(x, b - y, b);
    ShlWordDigits(x, y);
    var X, t := Low(x, 32 - y), Shr(x, b - y);
    OrAbove(X, t, y);
    LowOfSum(X, t, y, b);
    LowOfSum(x, t, y, b);
    LowLow(x, b - y, 32 - y);
    TruncIsLow(w, Shl(X, y) + t);
    TruncIsLow(w, Shl(x, y) + t);
  }

  function RclCode(w: Width, x: Word, c: bool, y: nat): nat
    requires 1 <= y <= Bits(w)
  {
    Or(Or(ShlWord(x, y), ShlWord(Num(c), y - 1)), if y != 1 then Shr(x, Bits(w) + 1 - y) else 0)
  }

  /** Only the digits inside the frame matter. */
  lemma TruncOfFrame(w: Width, x: nat, X: nat, s: nat, m: nat)
    requires m <= Bits(w) && s < Shl(1, m) && Low(X, Bits(w) - m) == Low(x, Bits(w) - m)
    ensures Trunc(w, Shl(X, m) + s) == Trunc(w, Shl(x, m) + s) == Shl(Low(x, Bits(w) - m), m) + s
  {
    hide Shl, Shr, Low, Trunc;
    LowOfSum(X, s, m, Bits(w));
    LowOfSum(x, s, m, Bits(w));
    TruncIsLow(w, Shl(X, m) + s);
    TruncIsLow(w, Shl(x, m) + s);
  }

  lemma RclFormSum(b: nat, x: nat, c: bool, y: nat)
    requires 1 <= y <= b
    ensures RclForm(b, x, c, y) == Shl(x, y) + (Shl(Num(c), y - 1) + Shr(x, b + 1 - y))
  {
    hide Shl, Shr;
    ShlTwice(x, y - 1);
    ShlSum(2 * x, Num(c), y - 1);
  }

  lemma RclCodeSum(w: Width, x: Word, c: bool, y: nat)
    requires x < Size(w) && 1 <= y <= Bits(w) && y < 32
    ensures var s := Shl(Num(c), y - 1) + Shr(x, Bits(w) + 1 - y);
            s < Shl(1, y) && RclCode(w, x, c, y) == Shl(Low(x, 32 - y), y) + s
  {
    hide Or, Shr, Shl, Low, ShlWord;
    var X, t, k := Low(x, 32 - y), Shr(x, Bits(w) + 1 - y), Shl(Num(c), y - 1);
    RclCodeBounds(w, x, c, y);
    ShlWordDigits(x, y);
    CarryWord(c, y - 1);
    OrAbove(X, k, y);
    OrZero(Shl(X, y) + k);
    ShlTwice(X, y - 1);
    ShlSum(2 * X, Num(c), y - 1);
    OrAbove(2 * X + Num(c), t, y - 1);
  }

  lemma RclCodeBounds(w: Width, x: Word, c: bool, y: nat)
    requires x < Size(w) && 1 <= y <= Bits(w)
    ensures Shl(Num(c), y - 1) < Shl(1, y) && Shr(x, Bits(w) + 1 - y) < Shl(1, y - 1)
    ensures Shl(Num(c), y - 1) + Shr(x, Bits(w) + 1 - y) < Shl(1, y)
    ensures y == 1 ==> Shr(x, Bits(w) + 1 - y) == 0
  {
    hide Shr;
    WidthConstants(w);
    ShrBound(x, Bits(w) + 1 - y, Bits(w));
    ShlNum(c, y - 1);
    assert Shl(1, y) == 2 * Shl(1, y - 1) && Shl(1, 0) == 1;
    hide Bits, Size;
  }

  lemma RclCodeIsForm(w: Width, x: Word, c: bool, y: nat)
    requires x < Size(w) && 1 <= y <= Bits(w) && y < 32
    ensures Trunc(w, RclCode(w, x, c, y)) == Trunc(w, RclForm(Bits(w), x, c, y))
  {
    hide Shl, Shr, Low, RclCode, RclForm, Trunc;
    RclCodeSum(w, x, c, y);
    RclFormSum(Bits(w), x, c, y);
    LowLow(x, Bits(w) - y, 32 - y);
    TruncOfFrame(w, x, Low(x, 32 - y), Shl(Num(c), y - 1) + Shr(x, Bits(w) + 1 - y), y);
  }

  function RorCode(w: Width, x: Word, y: nat): nat
    requires y <= Bits(w)
  {
    Or(Shr(x, y), ShlWord(x, Bits(w) - y))
  }

  lemma RorCodeIsForm(w: Width, x: Word, y: nat)
    requires x < Size(w) && 1 <= y < Bits(w)
    ensures Trunc(w, RorCode(w, x, y)) == RorForm(Bits(w), x, y)
  {
    var b := Bits(w);
    hide Or, Shr, Shl, Low;
    WidthConstants(w);
    ShrBound(x, y, b);
    var m := b - y;
    ShlWordDigits(x, m);
    var X, t := Low(x, 32 - m), Shr(x, y);
    OrAbove(X, t, m);
    LowOfSum(X, t, m, b);
    LowLow(x, y, 32 - m);
    TruncIsLow(w, Shl(X, m) + t);
  }

  function RcrCode(w: Width, x: Word, c: bool, y: nat): nat
    requires 1 <= y <= Bits(w)
  {
    Or(Or(Shr(x, y), ShlWord(Num(c), Bits(w) - y)), if y != 1 then ShlWord(x, Bits(w) + 1 - y) else 0)
  }

  lemma RcrCodeSum(w: Width, x: Word, c: bool, y: nat)
    requires x < Size(w) && 1 <= y <= Bits(w) && y < 32
    ensures var s, m := Shl(Num(c), Bits(w) - y) + Shr(x, y), Bits(w) + 1 - y;
            s < Shl(1, m) && RcrCode(w, x, c, y) == (if y == 1 then s else Shl(Low(x, 32 - m), m) + s)
  {
    hide Or, Shr, Low, ShlWord, Shl;
    var b := Bits(w);
    var t, k, m := Shr(x, y), Shl(Num(c), b - y), b + 1 - y;
    RcrParts(w, x, c, y);
    CarryWord(c, b - y);
    OrAbove(Num(c), t, b - y);
    OrZero(k + t);
    if y != 1 {
      ShlWordDigits(x, m);
      OrAbove(Low(x, 32 - m), k + t, m);
    }
  }

  /** The part of an RCR result below the bits that come back in. */
  lemma RcrParts(w: Width, x: Word, c: bool, y: nat)
    requires x < Size(w) && 1 <= y <= Bits(w) && y < 32
    ensures Shr(x, y) < Shl(1, Bits(w) - y) && Shl(Num(c), Bits(w) - y) + Shr(x, y) < Shl(1, Bits(w) + 1 - y)
  {
    hide Shr;
    WidthConstants(w);
    ShrBound(x, y, Bits(w));
    assert Shl(1, Bits(w) + 1 - y) == 2 * Shl(1, Bits(w) - y);
    if !c { ShlZero(Bits(w) - y); }
  }

  lemma RcrCodeIsForm(w: Width, x: Word, c: bool, y: nat)
    requires x < Size(w) && 1 <= y <= Bits(w) && y < 32
    ensures Trunc(w, RcrCode(w, x, c, y)) == RcrForm(Bits(w), x, c, y)
  {
    hide Shl, Shr, Low, RcrCode, Trunc;
    var s, m := Shl(Num(c), Bits(w) - y) + Shr(x, y), Bits(w) + 1 - y;
    RcrCodeSum(w, x, c, y);
    if y == 1 {
      LowEmpty(x);
      ShlZero(m);
      LowEmpty(0);
      TruncOfFrame(w, 0, 0, s, m);
    } else {
      LowLow(x, y - 1, 32 - m);
      TruncOfFrame(w, x, Low(x, 32 - m), s, m);
    }
  }

  lemma LowEmpty(x: nat)
    ensures Low(x, 0) == 0
  {
  }

  // ---------- reading the carry and the overflow back ----------

  lemma SextOfTrunc(w: Width, v: int)
    ensures Sext(w, v) == Sext(w, Trunc(w, v)) && Trunc(w, Sext(w, v)) == Trunc(w, v)
    ensures Sext(w, v) >= 0x8000_0000 <==> Trunc(w, v) >= Half(w)
  {
    var t := Trunc(w, v);
    Division(w, v);
    TruncSmall(w, t);
    var q := match w case W8 => 0xff_ffff case W16 => 0xffff case W32 => 0;
    assert Sext(w, v) == if t >= Half(w) then Size(w) * q + t else t by { WrapSigned(w, t); }
    TruncOf(w, q, t);
    hide Trunc, Sext;
  }

  lemma WrapSigned(w: Width, t: int)
    requires 0 <= t < Size(w)
    ensures Wrap(t - Size(w)) == t - Size(w) + 0x1_0000_0000 && Wrap(t) == t
  {
  }

  /** `((z ^ (z << 1)) >> (BIT - 1)) & 1` compares the two most significant bits. */
  lemma TopsDiffer(w: Width, z: Word)
    ensures Bit(Xor(z, ShlWord(z, 1)), Bits(w) - 1) == 1
            <==> (Trunc(w, z) >= Half(w)) != SecondTop(w, Trunc(w, z))
  {
    hide Xor, Bit, Trunc, Shl;
    XorBit(z, ShlWord(z, 1), Bits(w) - 1);
    TruncTop(w, z);
    TruncTop(w, ShlWord(z, 1));
    ShlWordTrunc(w, z, 1);
    ShlOne(z);
    TruncDoubled(w, z, 0);
    hide ShlWord, Half, Bits;
  }

  lemma ShlOne(z: nat)
    ensures Shl(z, 1) == 2 * z
  {
    assert Shl(z, 0) == z;
  }

  /** `(sextBIT(x << (BIT - y)) >> (BIT - 1)) & 1` is the last bit that RCR moved out. */
  lemma RcrCarry(w: Width, x: Word, y: nat)
    requires 1 <= y <= Bits(w)
    ensures Bit(Sext(w, ShlWord(x, Bits(w) - y)), Bits(w) - 1) == Bit(x, y - 1)
  {
    hide Bit, Trunc, Shl, Sext;
    var b := Bits(w);
    var z := ShlWord(x, b - y);
    SextOfTrunc(w, z);
    TruncTop(w, Sext(w, z));
    ShlWordTrunc(w, x, b - y);
    TruncTop(w, Shl(x, b - y));
    ShlBit(x, 0, b - y, y - 1);
    hide ShlWord, Half;
  }

  /** `x << y` of SHL, sign-extended. */
  lemma ShlResult(w: Width, x: Word, y: nat)
    requires x < Size(w) && 1 <= y < 32
    ensures Sext(w, ShlWord(x, y)) == Sext(w, Trunc(w, Shl(x, y)))
    ensures y <= Bits(w) ==> Bit(Shl(x, y - 1), Bits(w) - 1) == Bit(x, Bits(w) - y)
  {
    hide Bit, Trunc, Shl, Sext;
    SextOfTrunc(w, ShlWord(x, y));
    ShlWordTrunc(w, x, y);
    if y <= Bits(w) { ShlPositive(y - 1); ShlBit(x, 0, y - 1, Bits(w) - y); }
  }
}
