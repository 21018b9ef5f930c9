/**
 Conversion between the bit patterns of 64-bit and 80-bit floating-point numbers, and which
 64-bit patterns survive the way there and back.
 */
module FloatBits {
  import opened Words

  const TWO52 := 0x10_0000_0000_0000
  const TWO63 := 0x8000_0000_0000_0000
  const TWO64 := 0x1_0000_0000_0000_0000

  type F64 = x: int | 0 <= x < 0x1_0000_0000_0000_0000 witness 0

  /** `high` holds sign and exponent, `mant` the explicit mantissa. */
  datatype F80 = F80(high: nat, mant: nat)

  function Sign(v: F64): nat { v / 0x8000_0000_0000_0000 }

  function Exponent(v: F64): nat { v / 0x10_0000_0000_0000 % 0x800 }

  function Mantissa(v: F64): nat { v % 0x10_0000_0000_0000 }

  lemma Parts(v: F64)
    ensures v == TWO63 * Sign(v) + TWO52 * Exponent(v) + Mantissa(v)
    ensures Sign(v) <= 1 && Exponent(v) < 0x800 && Mantissa(v) < TWO52
  {
    var h := v / TWO52;
    assert v == TWO52 * h + v % TWO52;
    assert v / TWO63 == h / 0x800;
    assert h == 0x800 * (h / 0x800) + h % 0x800;
  }

  /** `__builtin_ffsll`: the place of the lowest bit set, counted from 1. */
  function Ffs(x: nat): (r: nat)
    requires x > 0
    ensures r >= 1
    decreases x
  {
    if x % 2 == 1 then 1 else 1 + Ffs(x / 2)
  }

  const BIAS80 := 16383
  const BIAS64 := 1023

  lemma ShiftFits(m: nat)
    requires 0 < m < TWO52
    ensures Shl(m, 11) > 0 && Ffs(Shl(m, 11)) <= 63
  {
    hide Shl, Ffs;
    Shl52(1);
    FfsBound(m, 52);
    FfsOfShl(m, 11);
  }

  /** `tof80`. */
  function ToF80(v: F64): F80 {
    var m := Shl(Mantissa(v), 11);
    var sign := 0x8000 * Sign(v);
    if Exponent(v) == 0 then
      if m == 0 then F80(sign, 0)
      else
        ShiftFits(Mantissa(v));
        var shift := 64 - Ffs(m);
        F80(sign + BIAS80 - BIAS64 + 1 - shift, Low(Shl(m, shift), 64))
    else if Exponent(v) == 0x7ff then F80(sign + 0x7fff, TWO63 + m)
    else F80(sign + Exponent(v) + BIAS80 - BIAS64, TWO63 + m)
  }

  /** `sign << 63 | exp << 52 | mant`. */
  function Pack(sign: nat, exp: nat, mant: nat): nat {
    Or(Or(Shl(sign, 63), Shl(exp, 52)), mant)
  }

  /** `fromf80`. */
  function FromF80(f: F80): nat {
    var sign, exp := f.high / 0x8000, f.high % 0x8000;
    if exp == 0 then Pack(sign, 0, 0)
    else if exp == 0x7fff then
      var m := Shr(f.mant, 11);
      Pack(sign, 0x7ff, if m == 0 && f.mant != 0 then 1 else m)
    else
      var e: int := exp + BIAS64 - BIAS80;
      if e <= -52 then Pack(sign, 0, 0)
      else if e <= 0 then Pack(sign, 0, Shr(f.mant, 12 - e))
      else if e >= 0x7ff then Pack(sign, 0x7ff, 0)
      else Pack(sign, e, Low(Shr(f.mant, 11), 52))
  }

  // ---------- packing ----------

  lemma {:induction false} OrSplit(a: nat, r: nat, b: nat, y: nat, n: nat)
    requires r < Shl(1, n) && y < Shl(1, n)
    ensures Or(Shl(a, n) + r, Shl(b, n) + y) == Shl(Or(a, b), n) + Or(r, y)
    decreases n
  {
    hide Or;
    if n == 0 {
      OrStep(0, 0);
      OrZero(0);
    } else {
      OrStep(Shl(a, n) + r, Shl(b, n) + y);
      OrStep(r, y);
      OrSplit(a, r / 2, b, y / 2, n - 1);
    }
  }

  lemma OrOne(k: nat)
    ensures Or(2 * k + 1, 1) == 2 * k + 1
  {
    hide Or;
    OrStep(2 * k + 1, 1);
    assert (2 * k + 1) / 2 == k && 1 / 2 == 0;
    OrZero(k);
  }

  lemma ShlEleven(x: nat)
    ensures Shl(x, 11) == 0x800 * x
  {
    ShlEight(x);
    assert Shl(x, 11) == 2 * Shl(x, 10) == 4 * Shl(x, 9) == 8 * Shl(x, 8);
  }

  lemma Shl52(x: nat)
    ensures Shl(x, 52) == TWO52 * x && Shl(x, 63) == TWO63 * x
  {
    hide Shl;
    Constants(x);
    ShlShl(x, 32, 20);
    Shl20(0x1_0000_0000 * x);
    ShlShl(x, 52, 11);
    ShlEleven(TWO52 * x);
  }

  lemma Shl20(x: nat)
    ensures Shl(x, 20) == 0x10_0000 * x
  {
    hide Shl;
    ShlShl(x, 12, 8);
    ShlTwelve(x);
    ShlEight(0x1000 * x);
  }

  lemma PackParts(sign: nat, exp: nat, mant: nat)
    requires sign <= 1 && exp < 0x800 && mant < TWO52
    ensures Pack(sign, exp, mant) == TWO63 * sign + TWO52 * exp + mant
  {
    hide Or, Shl;
    Shl52(1);
    Shl52(sign);
    Shl52(exp);
    OrDisjoint(sign, Shl(exp, 52), 63);
    var s := 0x800 * sign + exp;
    Shl52(s);
    OrDisjoint(s, mant, 52);
  }

  /** A mantissa whose explicit leading bit falls on an exponent bit that is set anyway. */
  lemma PackLeading(sign: nat, mant: nat)
    requires sign <= 1 && mant < TWO52
    ensures Pack(sign, 0x7ff, TWO52 + mant) == TWO63 * sign + TWO52 * 0x7ff + mant
  {
    hide Or, Shl;
    Shl52(1);
    Shl52(sign);
    Shl52(0x7ff);
    OrDisjoint(sign, Shl(0x7ff, 52), 63);
    var k := 0x400 * sign + 0x3ff;
    Shl52(2 * k + 1);
    OrSplit(2 * k + 1, 0, 1, mant, 52);
    OrOne(k);
    OrCommutes(0, mant);
    OrZero(mant);
  }

  // ---------- there and back ----------

  lemma {:induction false} ShrOfShl(x: nat, n: nat)
    ensures Shr(Shl(x, n), n) == x
    decreases n
  {
    if n > 0 { ShrOfShl(x, n - 1); }
  }

  lemma MantissaBack(m: nat)
    requires m < TWO52
    ensures Shr(TWO63 + Shl(m, 11), 11) == TWO52 + m && Low(TWO52 + m, 52) == m
  {
    hide Shr, Shl, Low;
    ShlEleven(m);
    ShlEleven(TWO52 + m);
    ShrOfShl(TWO52 + m, 11);
    Shl52(1);
    LowOfSum(1, m, 52, 52);
    LowNothing(1);
    Shl52(0);
  }

  lemma LowNothing(x: nat)
    ensures Low(x, 0) == 0
  {
  }

  lemma NormalBack(v: F64)
    requires Exponent(v) != 0
    ensures FromF80(ToF80(v)) == v
  {
    hide Shr, Shl, Low, Pack;
    Parts(v);
    var s, e, m := Sign(v), Exponent(v), Mantissa(v);
    MantissaBack(m);
    if e == 0x7ff {
      HighParts(s, 0x7fff);
      PackLeading(s, m);
    } else {
      HighParts(s, e + BIAS80 - BIAS64);
      PackParts(s, e, m);
    }
    hide Sign, Exponent, Mantissa;
  }

  lemma HighParts(s: nat, e: nat)
    requires e < 0x8000
    ensures (0x8000 * s + e) / 0x8000 == s && (0x8000 * s + e) % 0x8000 == e
  {
  }

  lemma ZeroBack(v: F64)
    requires Exponent(v) == 0 && Mantissa(v) == 0
    ensures FromF80(ToF80(v)) == v
  {
    hide Shr, Low, Pack;
    Parts(v);
    ShlEleven(0);
    HighParts(Sign(v), 0);
    PackParts(Sign(v), 0, 0);
    hide Sign, Exponent, Mantissa, Shl;
  }

  /** The lowest bit set of a number, by itself. */
  function LowestBit(x: nat): nat
    requires x > 0
  {
    Shl(1, Ffs(x) - 1)
  }

  /** A number is an odd number shifted to its lowest bit set. */
  lemma {:induction false} OddPart(x: nat) returns (o: nat)
    requires x > 0
    ensures x == Shl(2 * o + 1, Ffs(x) - 1)
    decreases x
  {
    if x % 2 == 1 { o := x / 2; } else { o := OddPart(x / 2); }
  }

  lemma {:induction false} FfsOfShl(x: nat, n: nat)
    requires x > 0
    ensures Shl(x, n) > 0 && Ffs(Shl(x, n)) == Ffs(x) + n
    decreases n
  {
    if n > 0 { FfsOfShl(x, n - 1); }
  }

  lemma {:induction false} FfsBound(x: nat, n: nat)
    requires 0 < x < Shl(1, n)
    ensures Ffs(x) <= n
    decreases n
  {
    if x % 2 == 0 { FfsBound(x / 2, n - 1); }
  }

  lemma {:induction false} ShrOfPower(a: nat, b: nat)
    requires b <= a
    ensures Shr(Shl(1, a), b) == Shl(1, a - b)
    decreases b
  {
    if b > 0 { ShrOfPower(a - 1, b - 1); }
  }

  /** Normalising from the lowest bit set shifts all the higher ones out. */
  lemma OnlyLowestKept(m: nat, shift: nat)
    requires m > 0 && shift == 64 - Ffs(m)
    ensures Low(Shl(m, shift), 64) == TWO63
  {
    hide Low, Shl, Ffs;
    var o := OddPart(m);
    ShlShl(2 * o + 1, Ffs(m) - 1, shift);
    LowOfShl(2 * o + 1, 63, 64);
    LowOdd(o);
    Shl52(1);
  }

  lemma LowOdd(o: nat)
    ensures Low(2 * o + 1, 1) == 1
  {
    LowNothing(o);
  }

  /** A subnormal number comes back as its lowest bit set. */
  lemma SubnormalBack(v: F64)
    requires Exponent(v) == 0 && Mantissa(v) > 0
    ensures FromF80(ToF80(v)) == TWO63 * Sign(v) + LowestBit(Mantissa(v))
  {
    hide Low, Shl, Shr, Ffs, Pack;
    Parts(v);
    var s, m := Sign(v), Mantissa(v);
    var t := Ffs(m) - 1;
    Shl52(1);
    FfsBound(m, 52);
    FfsOfShl(m, 11);
    OnlyLowestKept(Shl(m, 11), 52 - t);
    HighParts(s, BIAS80 - BIAS64 + 1 - (52 - t));
    assert 12 - (1 - (52 - t)) == 63 - t;
    ShrOfPower(63, 63 - t);
    PowerBelow(t);
    PackParts(s, 0, Shl(1, t));
    hide Sign, Exponent, Mantissa;
  }

  lemma {:induction false} PowerGrows(a: nat, b: nat)
    requires a <= b
    ensures Shl(1, a) <= Shl(1, b)
    decreases b
  {
    if a < b { PowerGrows(a, b - 1); }
  }

  lemma PowerBelow(t: nat)
    requires t < 52
    ensures Shl(1, t) < TWO52
  {
    PowerGrows(t, 51);
    Shl52(1);
    assert Shl(1, 52) == 2 * Shl(1, 51);
  }

  /** The pattern survives the way to 80 bits and back. */
  predicate Exact(v: F64) {
    Exponent(v) != 0 || Mantissa(v) == 0 || Mantissa(v) == LowestBit(Mantissa(v))
  }

  /**
   `fromf80(tof80(x))` is `x` exactly when `x` is not subnormal, or is a subnormal with a single
   mantissa bit.
   */
  lemma RoundTrip(v: F64)
    ensures FromF80(ToF80(v)) == v <==> Exact(v)
  {
    hide FromF80, ToF80, LowestBit;
    if Exponent(v) != 0 {
      NormalBack(v);
    } else if Mantissa(v) == 0 {
      ZeroBack(v);
    } else {
      SubnormalBack(v);
      Parts(v);
      hide Sign, Exponent, Mantissa;
    }
  }

  /** The third smallest positive number comes back as the smallest. */
  lemma SubnormalExample()
    ensures !Exact(3) && FromF80(ToF80(3)) == 1
  {
    assert Mantissa(3) == 3 && Exponent(3) == 0 && Sign(3) == 0;
    assert Ffs(3) == 1 && LowestBit(3) == 1;
    SubnormalBack(3);
    hide FromF80, ToF80;
  }

  // ---------- the number that a pattern stands for ----------

  /** `mant` times the power of two of `exp`. */
  datatype Dyadic = Dyadic(mant: nat, exp: int)

  predicate SameNumber(a: Dyadic, b: Dyadic) {
    if a.exp <= b.exp then a.mant == Shl(b.mant, b.exp - a.exp) else Shl(a.mant, a.exp - b.exp) == b.mant
  }

  /** A finite 64-bit pattern without its sign: 52 digits behind the point, a hidden one before it unless subnormal. */
  function Number64(v: F64): Dyadic {
    if Exponent(v) == 0 then Dyadic(Mantissa(v), 1 - 1023 - 52)
    else Dyadic(0x10_0000_0000_0000 + Mantissa(v), Exponent(v) - 1023 - 52)
  }

  /** A finite 80-bit pattern without its sign: 63 digits behind the point and an explicit one before it. */
  function Number80(f: F80): Dyadic {
    var e := f.high % 0x8000;
    Dyadic(f.mant, (if e == 0 then 1 else e) - 16383 - 63)
  }

  lemma {:induction false} ShlInjective(x: nat, y: nat, n: nat)
    ensures Shl(x, n) == Shl(y, n) <==> x == y
    decreases n
  {
    if n > 0 { ShlInjective(x, y, n - 1); }
  }

  /** `tof80` keeps the sign, and the number exactly when the pattern survives; a subnormal becomes its lowest bit set. */
  lemma ToKeepsNumber(v: F64)
    requires Exponent(v) != 0x7ff
    ensures ToF80(v).high / 0x8000 == Sign(v)
    ensures SameNumber(Number64(v), Number80(ToF80(v))) <==> Exact(v)
    ensures Exponent(v) == 0 && Mantissa(v) > 0 ==>
              SameNumber(Dyadic(LowestBit(Mantissa(v)), 1 - 1023 - 52), Number80(ToF80(v)))
  {
    hide Low, Shl, Ffs;
    Parts(v);
    var s, e, m := Sign(v), Exponent(v), Mantissa(v);
    hide Sign, Exponent, Mantissa;
    ShlEleven(m);
    if e == 0 && m == 0 {
      HighParts(s, 0);
      ZeroShifted(15371);
    } else if e == 0 {
      SubnormalNumber(v);
    } else {
      HighParts(s, e + BIAS80 - BIAS64);
      ShlEleven(TWO52 + m);
    }
  }

  lemma {:induction false} ZeroShifted(n: nat)
    ensures Shl(0, n) == 0
    decreases n
  {
    if n > 0 { ZeroShifted(n - 1); }
  }

  lemma SubnormalNumber(v: F64)
    requires Exponent(v) == 0 && Mantissa(v) > 0
    ensures ToF80(v).high / 0x8000 == Sign(v)
    ensures SameNumber(Number64(v), Number80(ToF80(v))) <==> Exact(v)
    ensures SameNumber(Dyadic(LowestBit(Mantissa(v)), 1 - 1023 - 52), Number80(ToF80(v)))
  {
    hide Low, Shl, Ffs;
    Parts(v);
    var s, m := Sign(v), Mantissa(v);
    var t := Ffs(m) - 1;
    Shl52(1);
    FfsBound(m, 52);
    FfsOfShl(m, 11);
    OnlyLowestKept(Shl(m, 11), 52 - t);
    HighParts(s, BIAS80 - BIAS64 + 1 - (52 - t));
    hide Sign, Exponent, Mantissa;
    ShlShl(1, t, 63 - t);
    ShlInjective(m, LowestBit(m), 63 - t);
  }

  /** Infinities and NaNs: the largest exponent, and the fraction below an explicit digit. */
  lemma ToKeepsSpecial(v: F64)
    requires Exponent(v) == 0x7ff
    ensures ToF80(v) == F80(0x8000 * Sign(v) + 0x7fff, 0x8000_0000_0000_0000 + 0x800 * Mantissa(v))
  {
    ShlEleven(Mantissa(v));
  }

  lemma OneExample()
    ensures ToF80(0x3ff0_0000_0000_0000) == F80(0x3fff, 0x8000_0000_0000_0000)
  {
    assert Exponent(0x3ff0_0000_0000_0000) == 0x3ff && Mantissa(0x3ff0_0000_0000_0000) == 0 && Sign(0x3ff0_0000_0000_0000) == 0;
    ShlEleven(0);
  }

  lemma ToF80Fits(v: F64)
    ensures ToF80(v).high < 0x1_0000 && ToF80(v).mant < TWO64
  {
    hide Low, Shl, Ffs;
    Parts(v);
    ShlEleven(Mantissa(v));
    if Exponent(v) == 0 && Mantissa(v) > 0 {
      ShiftFits(Mantissa(v));
      var m := Shl(Mantissa(v), 11);
      OnlyLowestKept(m, 64 - Ffs(m));
    }
    hide Sign, Exponent, Mantissa;
  }
}
