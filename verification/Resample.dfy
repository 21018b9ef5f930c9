/**
 Sample-rate conversion of the sound card: the ratio of the rates is brought to a fraction with
 a denominator of at most 8, and two counters walk input and output in step.
 */
module Resample {

  // ---------- the fraction ----------

  function Gcd(a: nat, b: nat): (g: nat)
    ensures a > 0 || b > 0 ==> g > 0
    decreases b
  {
    if b == 0 then a else Gcd(b, a % b)
  }

  ghost predicate Divides(c: nat, x: nat) {
    exists q: nat :: x == c * q
  }

  /** `Gcd` is a common divisor, and every common divisor divides it. */
  lemma {:induction false} GcdDivides(a: nat, b: nat)
    ensures Divides(Gcd(a, b), a) && Divides(Gcd(a, b), b)
    decreases b
  {
    if b == 0 {
      assert a == a * 1 && 0 == a * 0;
    } else {
      GcdDivides(b, a % b);
      var g := Gcd(a, b);
      var p: nat :| b == g * p;
      var q: nat :| a % b == g * q;
      DivisionStep(a, b, g, p, q);
    }
  }

  lemma DivisionStep(a: nat, b: nat, g: nat, p: nat, q: nat)
    requires b > 0 && b == g * p && a % b == g * q
    ensures Divides(g, a)
  {
    var t: nat := a / b * p + q;
    assert a == a / b * b + a % b;
    assert g * t == g * (a / b * p) + g * q;
    assert g * (a / b * p) == a / b * (g * p);
    assert a == g * t;
  }

  const LIMIT := 8

  /** Numerator and denominator have no divisor in common but 1. */
  ghost predicate LowestTerms(h: nat, k: nat) {
    forall c: nat :: Divides(c, h) && Divides(c, k) ==> c == 1
  }

  /** Neighbouring convergents have determinant 1 or -1, so neither can be reduced. */
  lemma DeterminantOne(h: nat, k: nat, h0: nat, k0: nat)
    requires h * k0 - h0 * k == 1 || h * k0 - h0 * k == -1
    ensures LowestTerms(h, k)
  {
    forall c: nat | Divides(c, h) && Divides(c, k)
      ensures c == 1
    {
      var x: nat :| h == c * x;
      var y: nat :| k == c * y;
      UnitDivisor(c, x, y, h0, k0);
    }
  }

  lemma UnitDivisor(c: nat, x: nat, y: nat, h0: nat, k0: nat)
    requires c * x * k0 - h0 * (c * y) == 1 || c * x * k0 - h0 * (c * y) == -1
    ensures c == 1
  {
    var d := x * k0 - h0 * y;
    assert c * d == c * x * k0 - h0 * (c * y);
    UnitProduct(c, d);
  }

  lemma UnitProduct(c: nat, d: int)
    requires c * d == 1 || c * d == -1
    ensures c == 1
  {
    if d == 0 { assert c * d == 0; }
    var e := if d > 0 then d else -d;
    assert c * e == 1;
    assert e >= 1 && c >= 1;
    assert (c - 1) * e == 1 - e;
    assert (c - 1) * e >= 0;
  }

  /** `r` and `s` are what Euclid's algorithm has reached, `h1/k1` and `h0/k0` the last two convergents. */
  datatype Frac = Frac(h0: nat, h1: nat, k0: nat, k1: nat, r: nat, s: nat)

  ghost predicate Reached(n: nat, d: nat, f: Frac) {
    && f.r > 0 && Gcd(f.r, f.s) == Gcd(n, d)
    && n == f.h1 * f.r + f.h0 * f.s && d == f.k1 * f.r + f.k0 * f.s
    && (f.h1 * f.k0 - f.h0 * f.k1 == 1 || f.h1 * f.k0 - f.h0 * f.k1 == -1)
  }

  function Step(f: Frac): Frac
    requires f.s > 0
  {
    var a := f.r / f.s;
    Frac(f.h1, a * f.h1 + f.h0, f.k1, a * f.k1 + f.k0, f.s, f.r % f.s)
  }

  /** One step of the expansion keeps the two equations and the determinant. */
  lemma StepReaches(n: nat, d: nat, f: Frac)
    requires Reached(n, d, f) && f.s > 0
    ensures Reached(n, d, Step(f))
  {
    var a, t := f.r / f.s, f.r % f.s;
    assert f.r == a * f.s + t;
    Regroup(f.h1, f.h0, f.r, f.s, a, t);
    Regroup(f.k1, f.k0, f.r, f.s, a, t);
    Determinant(f.h0, f.h1, f.k0, f.k1, a);
  }

  lemma Regroup(x1: nat, x0: nat, r: nat, s: nat, a: nat, t: nat)
    requires r == a * s + t
    ensures x1 * r + x0 * s == (a * x1 + x0) * s + x1 * t
  {
    assert x1 * r == x1 * (a * s) + x1 * t;
    assert x1 * (a * s) == a * x1 * s;
    assert (a * x1 + x0) * s == a * x1 * s + x0 * s;
  }

  lemma Determinant(h0: nat, h1: nat, k0: nat, k1: nat, a: nat)
    ensures (a * h1 + h0) * k1 - h1 * (a * k1 + k0) == -(h1 * k0 - h0 * k1)
  {
    assert (a * h1 + h0) * k1 == a * h1 * k1 + h0 * k1;
    assert h1 * (a * k1 + k0) == h1 * (a * k1) + h1 * k0;
    assert h1 * (a * k1) == a * h1 * k1;
  }

  /** Where the expansion ends by itself, the fraction is exact. */
  lemma EndsExactly(n: nat, d: nat, f: Frac)
    requires Reached(n, d, f) && f.s == 0 && f.k1 <= LIMIT
    ensures n * f.k1 == d * f.h1 && d <= LIMIT * Gcd(n, d)
  {
    Cross(f.h1, f.k1, f.r);
  }

  lemma Cross(h: nat, k: nat, r: nat)
    requires k <= LIMIT
    ensures h * r * k == k * r * h && k * r <= LIMIT * r
  {
    assert (LIMIT - k) * r >= 0;
  }

  function Abs(x: int): nat {
    if x < 0 then -x else x
  }

  /** Where the next denominator is too large, the fraction is off by at most 1/(9k). */
  lemma StopsClose(n: nat, d: nat, f: Frac)
    requires Reached(n, d, f) && f.k1 > LIMIT
    ensures n * f.k0 != d * f.h0 && 9 * Abs(n * f.k0 - d * f.h0) <= d
    ensures d > LIMIT * Gcd(n, d)
  {
    hide Gcd, Divides;
    Difference(f, n, d);
    Sign(f.r, f.h1 * f.k0 - f.h0 * f.k1);
    NineTimes(f.k1, f.k0, f.r, f.s);
    GcdDivides(f.r, f.s);
    GcdBelow(f.r, f.s);
  }

  lemma Sign(r: nat, det: int)
    requires det == 1 || det == -1
    ensures Abs(r * det) == r
  {
  }

  lemma NineTimes(k1: nat, k0: nat, r: nat, s: nat)
    requires k1 >= 9
    ensures k1 * r + k0 * s >= 9 * r
  {
    assert (k1 - 9) * r >= 0 && k0 * s >= 0;
  }

  lemma GcdBelow(r: nat, s: nat)
    requires r > 0
    ensures Gcd(r, s) <= r
  {
    GcdDivides(r, s);
    var g := Gcd(r, s);
    var x: nat :| r == g * x;
    assert x >= 1;
    assert g * (x - 1) >= 0;
  }

  lemma Difference(f: Frac, n: nat, d: nat)
    requires n == f.h1 * f.r + f.h0 * f.s && d == f.k1 * f.r + f.k0 * f.s
    ensures n * f.k0 - d * f.h0 == f.r * (f.h1 * f.k0 - f.h0 * f.k1)
  {
    assert n * f.k0 == f.h1 * f.r * f.k0 + f.h0 * f.s * f.k0;
    assert d * f.h0 == f.k1 * f.r * f.h0 + f.k0 * f.s * f.h0;
    assert f.h0 * f.s * f.k0 == f.k0 * f.s * f.h0;
    assert f.r * (f.h1 * f.k0 - f.h0 * f.k1) == f.r * (f.h1 * f.k0) - f.r * (f.h0 * f.k1);
    assert f.r * (f.h1 * f.k0) == f.h1 * f.r * f.k0 && f.r * (f.h0 * f.k1) == f.k1 * f.r * f.h0;
  }

  /** The numerator is 0 just after the first step, and only for a ratio below one. */
  ghost predicate ZeroOnce(n: nat, d: nat, f: Frac) {
    && (f.h1 == 0 ==> f == Frac(1, 0, 0, 1, d, n))
    && (d >= 9 * n ==> f == Frac(0, 1, 1, 0, n, d) || f == Frac(1, 0, 0, 1, d, n))
    && (f.k1 == 0 ==> f == Frac(0, 1, 1, 0, n, d))
    && (f == Frac(0, 1, 1, 0, n, d) || f.s < f.r)
  }

  lemma StepZero(n: nat, d: nat, f: Frac)
    requires n > 0 && d > 0 && Reached(n, d, f) && ZeroOnce(n, d, f) && f.s > 0 && Step(f).k1 <= LIMIT
    ensures ZeroOnce(n, d, Step(f)) && Step(f).k1 > 0
  {
    assert f.r > 0;
    hide Reached;
    var a := f.r / f.s;
    if f == Frac(0, 1, 1, 0, n, d) {
      if a == 0 { assert n % d == n; }
    } else {
      AtLeastOnce(f.r, f.s);
      Grows(a, f.k1, f.k0);
      Grows(a, f.h1, f.h0);
      if f == Frac(1, 0, 0, 1, d, n) { Quotients(d, n); }
    }
  }

  lemma Grows(a: nat, x: nat, y: nat)
    requires a >= 1
    ensures a * x + y >= x + y && (x == 0 ==> a * x + y == y) && (x == 1 ==> a * x + y == a + y)
  {
    assert (a - 1) * x >= 0;
  }

  lemma AtLeastOnce(r: nat, s: nat)
    requires 0 < s < r
    ensures r / s >= 1
  {
  }

  /** The quotient exceeds the limit exactly when `d` is nine times `n` or more. */
  lemma Quotients(d: nat, n: nat)
    requires n > 0
    ensures d / n > LIMIT <==> d >= 9 * n
  {
    var q, r := d / n, d % n;
    assert d == q * n + r;
    if q >= 9 { assert (q - 9) * n >= 0; } else { assert (8 - q) * n >= 0; }
  }

  /**
   `approx_frac`: the last convergent of `n / d` whose denominator is at most 8. It is in lowest
   terms, exact when the reduced denominator is at most 8, and within 1/(9k) otherwise.
   */
  method ApproxFrac(n: nat, d: nat) returns (h: nat, k: nat)
    requires n > 0 && d > 0
    ensures 1 <= k <= LIMIT && LowestTerms(h, k)
    ensures n * k == d * h <==> d <= LIMIT * Gcd(n, d)
    ensures n * k != d * h ==> 9 * Abs(n * k - d * h) <= d
    ensures h == 0 <==> d >= 9 * n
  {
    hide Reached, ZeroOnce, Gcd, LowestTerms, Divides, Abs;
    var h0: nat, h1: nat := 0, 1;
    var k0: nat, k1: nat := 1, 0;
    var r, s := n, d;
    Starts(n, d);
    while s != 0
      invariant Reached(n, d, Frac(h0, h1, k0, k1, r, s)) && ZeroOnce(n, d, Frac(h0, h1, k0, k1, r, s))
      invariant k1 <= LIMIT && (s == 0 ==> k1 > 0)
      decreases s
    {
      ghost var f := Frac(h0, h1, k0, k1, r, s);
      StepReaches(n, d, f);
      var a: nat := r / s;
      var nextS: nat := r % s;
      r, s := s, nextS;
      var h2: nat, k2: nat := a * h1 + h0, a * k1 + k0;
      if k2 > LIMIT {
        StoppedAt(n, d, f);
        return h1, k1;
      }
      StepZero(n, d, f);
      h0, h1, k0, k1 := h1, h2, k1, k2;
    }
    EndedAt(n, d, Frac(h0, h1, k0, k1, r, s));
    h, k := h1, k1;
  }

  lemma Starts(n: nat, d: nat)
    requires n > 0 && d > 0
    ensures Reached(n, d, Frac(0, 1, 1, 0, n, d)) && ZeroOnce(n, d, Frac(0, 1, 1, 0, n, d))
  {
  }

  lemma StoppedAt(n: nat, d: nat, f: Frac)
    requires n > 0 && d > 0 && Reached(n, d, f) && ZeroOnce(n, d, f) && f.s > 0 && f.k1 <= LIMIT < Step(f).k1
    ensures 1 <= f.k1 && LowestTerms(f.h1, f.k1)
    ensures n * f.k1 != d * f.h1 && d > LIMIT * Gcd(n, d) && 9 * Abs(n * f.k1 - d * f.h1) <= d
    ensures f.h1 == 0 <==> d >= 9 * n
  {
    StepReaches(n, d, f);
    StopsClose(n, d, Step(f));
    DeterminantOne(f.h1, f.k1, f.h0, f.k0);
    if f.h1 == 0 { Quotients(d, n); }
  }

  lemma EndedAt(n: nat, d: nat, f: Frac)
    requires n > 0 && d > 0 && Reached(n, d, f) && ZeroOnce(n, d, f) && f.s == 0 && 0 < f.k1 <= LIMIT
    ensures LowestTerms(f.h1, f.k1) && n * f.k1 == d * f.h1 && d <= LIMIT * Gcd(n, d)
    ensures f.h1 > 0 && d < 9 * n
  {
    EndsExactly(n, d, f);
    DeterminantOne(f.h1, f.k1, f.h0, f.k0);
  }

  // ---------- the two counters ----------

  /** `uc` counts down from `n` once for every `n` ticks; from zero it goes down for good. */
  ghost predicate CountsDown(ticks: nat, n: nat, laps: nat, uc: int) {
    if n == 0 then laps == 0 && uc + ticks == 0 else 1 <= uc <= n && ticks == n * laps + (n - uc)
  }

  /** The laps of `n` ticks that `ticks` ticks make. */
  function Laps(ticks: nat, n: nat): nat {
    if n == 0 then 0 else ticks / n
  }

  lemma LapsAre(ticks: nat, n: nat, laps: nat, uc: int)
    requires CountsDown(ticks, n, laps, uc)
    ensures Laps(ticks, n) == laps
  {
    if n == 0 { return; }
    var q, r := ticks / n, ticks % n;
    assert ticks == n * q + r;
    assert n * (q - laps) == n * q - n * laps;
    AtLeast(n, q - laps);
  }

  lemma AtLeast(n: nat, e: int)
    ensures (e >= 1 ==> n * e >= n) && (e <= -1 ==> n * e + n <= 0)
  {
    if e >= 1 { assert n * (e - 1) >= 0; }
    if e <= -1 { assert n * (-1 - e) >= 0; }
  }

  lemma Tick(ticks: nat, n: nat, laps: nat, uc: int)
    requires CountsDown(ticks, n, laps, uc)
    ensures uc == 1 ==> n > 0
    ensures if uc == 1 then CountsDown(ticks + 1, n, laps + 1, n) && ticks == (laps + 1) * n - 1
            else CountsDown(ticks + 1, n, laps, uc - 1)
  {
    assert n * (laps + 1) == n * laps + n;
  }

  /** The samples in `n` frames of `c` channels. */
  function Samples(c: nat, n: nat): nat { if c == 2 then 2 * n else n }

  datatype Format = S16 | U16 | U8

  function Int16(v: int): int {
    (v + 0x8000) % 0x1_0000 - 0x8000
  }

  /** A sample of the ring as a signed 16-bit sample. */
  function Convert(f: Format, x: int): int {
    match f
    case S16 => x
    case U16 => Int16(x - 0x8000)
    case U8 => 0x100 * (x - 0x80)
  }

  /** Every format keeps the order and the steps of its samples, and silence is 0. */
  lemma ConvertIsLinear(x: int)
    ensures -0x8000 <= x < 0x8000 ==> Convert(S16, x) == x
    ensures Convert(U16, 0x8000) == 0 && Convert(U8, 0x80) == 0
    ensures 0 <= x < 0xffff ==> Convert(U16, x + 1) == Convert(U16, x) + 1 && -0x8000 <= Convert(U16, x) < 0x7fff
    ensures 0 <= x < 0xff ==> Convert(U8, x + 1) == Convert(U8, x) + 0x100 && -0x8000 <= Convert(U8, x) < 0x7f00
  {
  }

  /** The position in the ring of channel `ch` of the input frame that output frame `m` repeats. */
  function Source(m: nat, ch: nat, c: nat, ip: nat, itlen: nat, num: nat, den: nat): (k: nat)
    requires den > 0 && itlen > 0
    ensures k < itlen
  {
    Positive(m, den);
    (ip + Samples(c, Laps((m + 1) * den - 1, num)) + ch) % itlen
  }

  lemma Positive(m: nat, den: nat)
    requires den > 0
    ensures (m + 1) * den - 1 >= 0
  {
    assert (m + 1) * den == m * den + den;
  }

  /** What an output frame holds; mono input gives both channels the same sample. */
  predicate FrameIs(left: int, right: int, f: Format, inp: seq<int>, m: nat, c: nat, ip: nat, num: nat, den: nat)
    requires den > 0 && |inp| > 0 && (c == 1 || c == 2)
  {
    left == Convert(f, inp[Source(m, 0, c, ip, |inp|, num, den)]) && right == Convert(f, inp[Source(m, c - 1, c, ip, |inp|, num, den)])
  }

  /** The first `frames` output frames are as they should be. */
  predicate Made(o: seq<int>, frames: nat, f: Format, inp: seq<int>, c: nat, ip: nat, num: nat, den: nat)
    requires den > 0 && |inp| > 0 && (c == 1 || c == 2)
  {
    2 * frames <= |o| && forall m: nat :: m < frames ==> FrameIs(o[2 * m], o[2 * m + 1], f, inp, m, c, ip, num, den)
  }

  lemma MadeMore(o: seq<int>, o': seq<int>, frames: nat, f: Format, inp: seq<int>, c: nat, ip: nat, num: nat, den: nat)
    requires den > 0 && |inp| > 0 && (c == 1 || c == 2) && 2 * frames + 1 < |o| == |o'|
    requires Made(o, frames, f, inp, c, ip, num, den) && (forall k :: 0 <= k < 2 * frames ==> o'[k] == o[k])
    requires FrameIs(o'[2 * frames], o'[2 * frames + 1], f, inp, frames, c, ip, num, den)
    ensures Made(o', frames + 1, f, inp, c, ip, num, den)
  {
    hide FrameIs;
  }

  /** `num / den` stands for `os / is_`: exactly, or within 1/(9 den). */
  ghost predicate Stands(os: nat, is_: nat, num: nat, den: nat) {
    1 <= den <= LIMIT && (num == 0 <==> is_ >= 9 * os) && (num == 0 ==> den == 1) && (os * den == is_ * num || 9 * Abs(os * den - is_ * num) <= is_)
  }

  /** Whether the loop goes on after `ticks` ticks: an input frame and room for an output frame are left. */
  predicate GoesOn(ticks: nat, c: nat, ilen: nat, olen: nat, num: nat, den: nat)
    requires den > 0
  {
    Samples(c, Laps(ticks, num)) + (c - 1) < ilen && 2 * Laps(ticks, den) + 1 < olen
  }

  /** The loop's guard, and what it has consumed and made, in terms of the ticks. */
  lemma Progress(ticks: nat, c: nat, ilen: nat, olen: nat, num: nat, den: nat, laps: nat, uc: int, frames: nat, dc: int)
    requires CountsDown(ticks, num, laps, uc) && den > 0 && CountsDown(ticks, den, frames, dc)
    ensures Laps(ticks, num) == laps && Laps(ticks, den) == frames
    ensures GoesOn(ticks, c, ilen, olen, num, den) <==> Samples(c, laps) + (c - 1) < ilen && 2 * frames + 1 < olen
  {
    LapsAre(ticks, num, laps, uc);
    LapsAre(ticks, den, frames, dc);
  }

  /** The frame made by the tick that ends a lap of `den` ticks. */
  lemma NewFrame(ticks: nat, num: nat, den: nat, laps: nat, uc: int, frames: nat, f: Format, inp: seq<int>, c: nat, ip: nat, i: nat)
    requires CountsDown(ticks, num, laps, uc) && den > 0 && CountsDown(ticks, den, frames, 1) && i == Samples(c, laps)
    requires |inp| > 0 && (c == 1 || c == 2)
    ensures FrameIs(Convert(f, inp[(ip + i) % |inp|]), Convert(f, inp[(ip + i + (c - 1)) % |inp|]), f, inp, frames, c, ip, num, den)
  {
    hide Convert;
    LapsAre(ticks, num, laps, uc);
    Tick(ticks, den, frames, 1);
  }

  /**
   The `resample` family, for `c` input channels: `i` samples of input are consumed. After as many ticks
   as the loop runs, `ticks / num` input frames have been consumed and `ticks / den` output frames
   made, and output frame `m` repeats input frame `((m + 1) * den - 1) / num`. Where the input has nine
   times the rate of the output or more, `num` is zero: no input is consumed and every output frame is the same.
   */
  method Resampled(out: array<int>, olen: nat, os: nat, inp: seq<int>, ip: nat, ilen: nat, is_: nat, c: nat, f: Format)
    returns (i: nat, ghost ticks: nat, ghost frames: nat, ghost num: nat, ghost den: nat)
    requires olen <= out.Length && |inp| > 0 && os > 0 && is_ > 0 && (c == 1 || c == 2)
    modifies out
    ensures Stands(os, is_, num, den)
    ensures i == Samples(c, Laps(ticks, num)) <= ilen && frames == Laps(ticks, den) && 2 * frames <= olen
    ensures !GoesOn(ticks, c, ilen, olen, num, den) && (ticks > 0 ==> GoesOn(ticks - 1, c, ilen, olen, num, den))
    ensures Made(out[..], frames, f, inp, c, ip, num, den) && out[2 * frames..] == old(out[2 * frames..])
  {
    hide CountsDown, FrameIs, GoesOn, Convert, Made, Abs, Gcd, LowestTerms, Divides;
    var n, d := ApproxFrac(os, is_);
    StandsFor(os, is_, n, d);
    hide Stands, Laps;
    num, den := n, d;
    var uc: int, dc: int, j := n, d, 0;
    i, ticks := 0, 0;
    ghost var inFrames: nat := 0;
    frames := 0;
    NothingYet(n, d, out[..], f, inp, c, ip);
    while i + (c - 1) < ilen && j + 1 < olen
      invariant CountsDown(ticks, n, inFrames, uc) && CountsDown(ticks, d, frames, dc)
      invariant i == Samples(c, inFrames) && j == 2 * frames && i <= ilen && j <= olen
      invariant ticks > 0 ==> GoesOn(ticks - 1, c, ilen, olen, n, d)
      invariant Made(out[..], frames, f, inp, c, ip, n, d) && out[j..] == old(out[j..])
      invariant dc > 0
      decreases olen - j, dc
    {
      Progress(ticks, c, ilen, olen, n, d, inFrames, uc, frames, dc);
      CountsPositive(ticks, d, frames, dc);
      if dc == 1 { NewFrame(ticks, n, d, inFrames, uc, frames, f, inp, c, ip, i); }
      Tick(ticks, n, inFrames, uc);
      Tick(ticks, d, frames, dc);
      dc := dc - 1;
      if dc == 0 {
        dc := d;
        ghost var o := out[..];
        out[j] := Convert(f, inp[(ip + i) % |inp|]);
        out[j + 1] := Convert(f, inp[(ip + i + (c - 1)) % |inp|]);
        MadeMore(o, out[..], frames, f, inp, c, ip, n, d);
        j := j + 2;
        assert out[j..] == o[j - 2..][2..];
        frames := frames + 1;
      }
      uc := uc - 1;
      if uc == 0 {
        uc := n;
        i := i + c;
        inFrames := inFrames + 1;
      }
      ticks := ticks + 1;
    }
    Progress(ticks, c, ilen, olen, n, d, inFrames, uc, frames, dc);
  }

  /** Zero in lowest terms. */
  lemma ZeroHasOne(h: nat, k: nat)
    requires LowestTerms(h, k)
    ensures h == 0 ==> k == 1
  {
    if h == 0 {
      assert 0 == k * 0 && k == k * 1;
      assert Divides(k, h) && Divides(k, k);
    }
  }

  lemma StandsFor(os: nat, is_: nat, num: nat, den: nat)
    requires 1 <= den <= LIMIT && LowestTerms(num, den) && (num == 0 <==> is_ >= 9 * os)
    requires os * den != is_ * num ==> 9 * Abs(os * den - is_ * num) <= is_
    ensures Stands(os, is_, num, den)
  {
    ZeroHasOne(num, den);
  }

  lemma NothingYet(n: nat, d: nat, o: seq<int>, f: Format, inp: seq<int>, c: nat, ip: nat)
    requires d > 0 && |inp| > 0 && (c == 1 || c == 2)
    ensures CountsDown(0, n, 0, n) && CountsDown(0, d, 0, d) && Made(o, 0, f, inp, c, ip, n, d)
  {
  }

  lemma CountsPositive(ticks: nat, n: nat, laps: nat, uc: int)
    requires CountsDown(ticks, n, laps, uc) && n > 0
    ensures uc >= 1
  {
  }
}
