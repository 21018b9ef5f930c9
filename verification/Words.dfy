/**
 Machine words as bounded integers. Shifts and the bitwise operators of C are defined
 digit by digit, so that every law about them is a linear induction on the digits.
 */
module Words {

  type Word = x: int | 0 <= x < 0x1_0000_0000 witness 0

  function Wrap(x: int): Word {
    x % 0x1_0000_0000
  }

  function Shl(x: nat, n: nat): (r: nat)
    ensures r >= x
    decreases n
  {
    if n == 0 then x else 2 * Shl(x, n - 1)
  }

  function Shr(x: nat, n: nat): (r: nat)
    ensures r <= x
    decreases n
  {
    if n == 0 then x else Shr(x / 2, n - 1)
  }

  function Bit(x: nat, n: nat): (b: nat)
    ensures b == 0 || b == 1
  {
    Shr(x, n) % 2
  }

  function And(a: nat, b: nat): nat
    decreases a
  {
    if a == 0 then 0
    else (if a % 2 == 1 && b % 2 == 1 then 1 else 0) + 2 * And(a / 2, b / 2)
  }

  function Or(a: nat, b: nat): nat
    decreases a
  {
    if a == 0 then b
    else (if a % 2 == 1 || b % 2 == 1 then 1 else 0) + 2 * Or(a / 2, b / 2)
  }

  function Xor(a: nat, b: nat): nat
    decreases a
  {
    if a == 0 then b
    else (if a % 2 != b % 2 then 1 else 0) + 2 * Xor(a / 2, b / 2)
  }

  lemma XorStep(a: nat, b: nat)
    ensures Xor(a, b) == (if a % 2 != b % 2 then 1 else 0) + 2 * Xor(a / 2, b / 2)
  {
  }

  lemma {:induction false} XorCancels(a: nat, b: nat)
    ensures Xor(Xor(a, b), b) == a
    decreases a + b
  {
    hide Xor;
    XorStep(a, b);
    XorStep(Xor(a, b), b);
    if a + b > 0 {
      XorCancels(a / 2, b / 2);
    }
  }

  /** The recursion of `Xor`, stated on the digits themselves. */
  lemma XorDigit(p: nat, i: nat, q: nat, j: nat)
    requires i < 2 && j < 2
    ensures Xor(2 * p + i, 2 * q + j) == (if i != j then 1 else 0) + 2 * Xor(p, q)
  {
    hide Xor;
    XorStep(2 * p + i, 2 * q + j);
  }

  /** XOR acts separately on the digits above and below position `n`. */
  lemma {:induction false} XorSplit(a: nat, b: nat, c: nat, d: nat, n: nat)
    requires b < Shl(1, n) && d < Shl(1, n)
    ensures Xor(b, d) < Shl(1, n)
    ensures Xor(Shl(a, n) + b, Shl(c, n) + d) == Shl(Xor(a, c), n) + Xor(b, d)
    decreases n
  {
    hide Xor;
    if n == 0 {
      XorStep(0, 0);
    } else {
      var b', i, d', j := b / 2, b % 2, d / 2, d % 2;
      XorSplit(a, b', c, d', n - 1);
      XorDigit(b', i, d', j);
      XorDigit(Shl(a, n - 1) + b', i, Shl(c, n - 1) + d', j);
    }
  }

  lemma {:induction false} XorBit(a: nat, b: nat, n: nat)
    ensures Bit(Xor(a, b), n) == (Bit(a, n) + Bit(b, n)) % 2
    decreases n
  {
    hide Xor;
    XorStep(a, b);
    if n > 0 {
      XorBit(a / 2, b / 2, n - 1);
      assert Xor(a, b) / 2 == Xor(a / 2, b / 2);
    }
  }

  lemma {:induction false} AndBit(a: nat, b: nat, n: nat)
    ensures Bit(And(a, b), n) == 1 <==> Bit(a, n) == 1 && Bit(b, n) == 1
    decreases n
  {
    hide And;
    AndStep(a, b);
    if n > 0 {
      AndBit(a / 2, b / 2, n - 1);
      assert And(a, b) / 2 == And(a / 2, b / 2);
    }
  }

  lemma AndStep(a: nat, b: nat)
    ensures And(a, b) == (if a % 2 == 1 && b % 2 == 1 then 1 else 0) + 2 * And(a / 2, b / 2)
  {
  }

  lemma {:induction false} OrBit(a: nat, b: nat, n: nat)
    ensures Bit(Or(a, b), n) == 1 <==> Bit(a, n) == 1 || Bit(b, n) == 1
    decreases n
  {
    hide Or;
    OrStep(a, b);
    if n > 0 {
      OrBit(a / 2, b / 2, n - 1);
      assert Or(a, b) / 2 == Or(a / 2, b / 2);
    }
  }

  /** A number is determined by its digits. */
  lemma {:induction false} BitsDecide(x: nat, y: nat)
    requires forall n: nat :: Bit(x, n) == Bit(y, n)
    ensures x == y
    decreases x + y
  {
    if x + y > 0 {
      assert Bit(x, 0) == Bit(y, 0);
      forall n: nat ensures Bit(x / 2, n) == Bit(y / 2, n) {
        assert Bit(x, n + 1) == Bit(y, n + 1);
      }
      BitsDecide(x / 2, y / 2);
    }
  }

  /** OR of numbers with no digit in common is their sum. */
  lemma {:induction false} OrDisjoint(a: nat, b: nat, n: nat)
    requires b < Shl(1, n)
    ensures Or(Shl(a, n), b) == Shl(a, n) + b
    decreases n
  {
    if n > 0 {
      OrDisjoint(a, b / 2, n - 1);
    } else {
      OrZero(a);
    }
  }

  lemma {:induction false} OrZero(a: nat)
    ensures Or(a, 0) == a
  {
    if a > 0 { OrZero(a / 2); }
  }

  lemma {:induction false} OrCommutes(a: nat, b: nat)
    ensures Or(a, b) == Or(b, a)
    decreases a
  {
    if a == 0 { OrZero(b); }
    else if b == 0 { OrZero(a); }
    else { OrCommutes(a / 2, b / 2); }
  }

  // ---------- shifts ----------

  /** The lowest `n` digits. */
  function Low(x: nat, n: nat): nat
    decreases n
  {
    if n == 0 then 0 else x % 2 + 2 * Low(x / 2, n - 1)
  }

  lemma {:induction false} LowBound(x: nat, n: nat)
    ensures Low(x, n) < Shl(1, n)
    ensures x == Shl(Shr(x, n), n) + Low(x, n)
    decreases n
  {
    if n > 0 { LowBound(x / 2, n - 1); }
  }

  lemma {:induction false} ShlShl(x: nat, m: nat, n: nat)
    ensures Shl(Shl(x, m), n) == Shl(x, m + n)
    decreases n
  {
    if n > 0 { ShlShl(x, m, n - 1); }
  }

  lemma {:induction false} ShlSum(x: nat, y: nat, n: nat)
    ensures Shl(x + y, n) == Shl(x, n) + Shl(y, n)
    decreases n
  {
    if n > 0 { ShlSum(x, y, n - 1); }
  }

  lemma {:induction false} ShrShr(x: nat, m: nat, n: nat)
    ensures Shr(Shr(x, m), n) == Shr(x, m + n)
    decreases m
  {
    if m > 0 { ShrShr(x / 2, m - 1, n); }
  }

  /** The digit that the last position of a right shift drops. */
  lemma ShrBit(x: nat, n: nat)
    ensures Shr(x, n + 1) == Shr(x, n) / 2
    ensures Shr(x, n) == 2 * Shr(x, n + 1) + Bit(x, n)
  {
    ShrShr(x, n, 1);
    assert Shr(Shr(x, n), 1) == Shr(Shr(x, n) / 2, 0);
  }

  lemma {:induction false} ShrBound(x: nat, n: nat, m: nat)
    requires n <= m && x < Shl(1, m)
    ensures Shr(x, n) < Shl(1, m - n)
    decreases n
  {
    if n > 0 { ShrBound(x / 2, n - 1, m - 1); }
  }

  /** Digits move up with a left shift, whatever is put below them. */
  lemma {:induction false} ShlBit(x: nat, s: nat, k: nat, m: nat)
    requires s < Shl(1, k)
    ensures Bit(Shl(x, k) + s, k + m) == Bit(x, m)
    decreases k
  {
    if k > 0 {
      ShlBit(x, s / 2, k - 1, m);
      assert (Shl(x, k) + s) / 2 == Shl(x, k - 1) + s / 2;
    }
  }

  lemma {:induction false} LowOfShl(x: nat, n: nat, m: nat)
    requires n <= m
    ensures Low(Shl(x, n), m) == Shl(Low(x, m - n), n)
    decreases n
  {
    if n > 0 { LowOfShl(x, n - 1, m - 1); }
  }

  lemma {:induction false} LowTop(x: nat, n: nat)
    ensures Low(x, n + 1) == Low(x, n) + (if Bit(x, n) == 1 then Shl(1, n) else 0)
    decreases n
  {
    if n > 0 { LowTop(x / 2, n - 1); }
  }

  lemma Constants(x: nat)
    ensures Shr(x, 8) == x / 0x100 && Shr(x, 16) == x / 0x1_0000 && Shr(x, 32) == x / 0x1_0000_0000
    ensures Shl(x, 8) == 0x100 * x && Shl(x, 16) == 0x1_0000 * x && Shl(x, 32) == 0x1_0000_0000 * x
  {
    hide Shr, Shl;
    DivByBytes(x);
    ShrEight(x);
    ShrEight(x / 0x100);
    ShrEight(x / 0x1_0000);
    ShrEight(x / 0x100_0000);
    ShrShr(x, 8, 8);
    ShrShr(x, 16, 8);
    ShrShr(x, 24, 8);
    ShlEight(x);
    ShlEight(0x100 * x);
    ShlEight(0x1_0000 * x);
    ShlEight(0x100_0000 * x);
    ShlShl(x, 8, 8);
    ShlShl(x, 16, 8);
    ShlShl(x, 24, 8);
  }

  lemma DivByBytes(x: nat)
    ensures x / 0x100 / 0x100 == x / 0x1_0000
    ensures x / 0x1_0000 / 0x100 == x / 0x100_0000
    ensures x / 0x100_0000 / 0x100 == x / 0x1_0000_0000
  {
  }

  lemma ShrFour(x: nat)
    ensures Shr(x, 4) == x / 16
  {
    assert Shr(x, 4) == Shr(x / 2, 3) == Shr(x / 4, 2) == Shr(x / 8, 1) == x / 16;
  }

  lemma ShrEight(x: nat)
    ensures Shr(x, 8) == x / 0x100
  {
    hide Shr;
    ShrFour(x);
    ShrFour(x / 16);
    ShrShr(x, 4, 4);
  }

  lemma ShlEight(x: nat)
    ensures Shl(x, 8) == 0x100 * x
  {
    assert Shl(x, 8) == 2 * Shl(x, 7) == 4 * Shl(x, 6) == 8 * Shl(x, 5) == 16 * Shl(x, 4);
  }

  lemma ShlTwelve(x: nat)
    ensures Shl(x, 12) == 0x1000 * x
  {
    assert Shl(x, 12) == 2 * Shl(x, 11) == 4 * Shl(x, 10) == 8 * Shl(x, 9) == 16 * Shl(x, 8);
    ShlEight(x);
  }

  lemma {:induction false} LowLow(x: nat, m: nat, n: nat)
    requires m <= n
    ensures Low(Low(x, n), m) == Low(x, m)
    decreases m
  {
    if m > 0 { LowLow(x / 2, m - 1, n - 1); }
  }

  lemma {:induction false} LowOfSum(x: nat, s: nat, m: nat, b: nat)
    requires s < Shl(1, m) && m <= b
    ensures Low(Shl(x, m) + s, b) == Shl(Low(x, b - m), m) + s
    decreases m
  {
    if m > 0 {
      LowOfSum(x, s / 2, m - 1, b - 1);
      assert (Shl(x, m) + s) / 2 == Shl(x, m - 1) + s / 2 && (Shl(x, m) + s) % 2 == s % 2;
    }
  }

  // ---------- the XOR of two page addresses, and the OR below a boundary ----------

  lemma XorZero(o: nat)
    ensures Xor(0, o) == o
  {
  }

  /** XOR with one page address and then with an address in that page moves the offset. */
  lemma XorMovesOffset(f: nat, l: nat, o: nat, n: nat)
    requires o < Shl(1, n)
    ensures Xor(Xor(Shl(f, n), Shl(l, n)), Shl(l, n) + o) == Shl(f, n) + o
  {
    hide Xor, Shl;
    XorZero(o);
    XorZero(0);
    ShlPositive(n);
    XorSplit(f, 0, l, 0, n);
    XorSplit(Xor(f, l), 0, l, o, n);
    XorCancels(f, l);
  }

  lemma {:induction false} ShlPositive(n: nat)
    ensures Shl(1, n) > 0
  {
  }

  lemma OrStep(a: nat, b: nat)
    ensures Or(a, b) == (if a % 2 == 1 || b % 2 == 1 then 1 else 0) + 2 * Or(a / 2, b / 2)
  {
    if a == 0 { OrZero(b); }
  }

  /** OR with a number below position `n` acts on the digits below it. */
  lemma {:induction false} OrBelow(a: nat, r: nat, y: nat, n: nat)
    requires r < Shl(1, n) && y < Shl(1, n)
    ensures Or(Shl(a, n) + r, y) == Shl(a, n) + Or(r, y)
    decreases n
  {
    hide Or;
    if n == 0 {
      OrZero(a);
      OrStep(0, 0);
    } else {
      OrBelow(a, r / 2, y / 2, n - 1);
      OrStep(Shl(a, n) + r, y);
      OrStep(r, y);
    }
  }
}
