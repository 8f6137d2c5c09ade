/** Bitwise AND and OR on unsigned machine words, represented as natural
    numbers, with the field-splitting laws the drivers rely on. */
module Bits {

  function Pow2(k: nat): (p: nat)
    ensures p > 0
  {
    if k == 0 then 1 else 2 * Pow2(k - 1)
  }

  ghost predicate IsPow2(n: nat) {
    exists k: nat :: n == Pow2(k)
  }

  function And(a: nat, b: nat): nat {
    if a == 0 || b == 0 then 0
    else (if a % 2 == 1 && b % 2 == 1 then 1 else 0) + 2 * And(a / 2, b / 2)
  }

  function Or(a: nat, b: nat): nat {
    if a == 0 then b
    else if b == 0 then a
    else (if a % 2 == 1 || b % 2 == 1 then 1 else 0) + 2 * Or(a / 2, b / 2)
  }

  /** `a << k`, without any bound on the width of the word. */
  function Shl(a: nat, k: nat): nat {
    if k == 0 then a else 2 * Shl(a, k - 1)
  }

  lemma {:induction false} ShlIsProduct(a: nat, k: nat)
    ensures Shl(a, k) == a * Pow2(k)
    decreases k
  {
    if k > 0 {
      ShlIsProduct(a, k - 1);
      assert a * (2 * Pow2(k - 1)) == 2 * (a * Pow2(k - 1));
    }
  }

  lemma AndStep(a: nat, b: nat)
    ensures And(a, b) == (if a % 2 == 1 && b % 2 == 1 then 1 else 0) + 2 * And(a / 2, b / 2)
  {
  }

  /** AND works on the high and the low field of a word separately. */
  lemma {:induction false} AndSplit(a: nat, x: nat, b: nat, y: nat, k: nat)
    requires x < Pow2(k) && y < Pow2(k)
    ensures And(Shl(a, k) + x, Shl(b, k) + y) == Shl(And(a, b), k) + And(x, y)
    decreases k
  {
    if k > 0 {
      AndSplit(a, x / 2, b, y / 2, k - 1);
      assert (Shl(a, k) + x) / 2 == Shl(a, k - 1) + x / 2;
      assert (Shl(b, k) + y) / 2 == Shl(b, k - 1) + y / 2;
      AndStep(Shl(a, k) + x, Shl(b, k) + y);
      AndStep(x, y);
    }
  }

  lemma OrStep(a: nat, b: nat)
    ensures Or(a, b) == (if a % 2 == 1 || b % 2 == 1 then 1 else 0) + 2 * Or(a / 2, b / 2)
  {
  }

  /** OR works on the high and the low field of a word separately. */
  lemma {:induction false} OrSplit(a: nat, x: nat, b: nat, y: nat, k: nat)
    requires x < Pow2(k) && y < Pow2(k)
    ensures Or(Shl(a, k) + x, Shl(b, k) + y) == Shl(Or(a, b), k) + Or(x, y)
    decreases k
  {
    if k > 0 {
      OrSplit(a, x / 2, b, y / 2, k - 1);
      assert (Shl(a, k) + x) / 2 == Shl(a, k - 1) + x / 2;
      assert (Shl(b, k) + y) / 2 == Shl(b, k - 1) + y / 2;
      OrStep(Shl(a, k) + x, Shl(b, k) + y);
      OrStep(x, y);
    }
  }

  lemma {:induction false} AndOnes(r: nat, k: nat)
    requires r < Pow2(k)
    ensures And(r, Pow2(k) - 1) == r
    decreases k
  {
    if k > 0 {
      AndOnes(r / 2, k - 1);
      AndStep(r, Pow2(k) - 1);
    }
  }

  lemma {:induction false} ShlZero(k: nat)
    ensures Shl(0, k) == 0
  {
    if k > 0 { ShlZero(k - 1); }
  }

  /** The high and the low field of a word. */
  lemma {:induction false} Fields(x: nat, k: nat) returns (q: nat, r: nat)
    ensures r < Pow2(k) && x == Shl(q, k) + r
    decreases k
  {
    if k == 0 { return x, 0; }
    q, r := Fields(x / 2, k - 1);
    r := 2 * r + x % 2;
  }

  lemma FieldsAreDivMod(x: nat, k: nat, q: nat, r: nat)
    requires r < Pow2(k) && x == Shl(q, k) + r
    ensures x / Pow2(k) == q && x % Pow2(k) == r
  {
    ShlIsProduct(q, k);
    RemainderUnique(x, q, r, Pow2(k));
  }

  /** Masking with `2^k - 1` is the remainder modulo `2^k`. */
  lemma AndMask(x: nat, k: nat)
    ensures And(x, Pow2(k) - 1) == x % Pow2(k)
  {
    var q, r := Fields(x, k);
    AndSplit(q, r, 0, Pow2(k) - 1, k);
    ShlZero(k);
    AndOnes(r, k);
    FieldsAreDivMod(x, k, q, r);
  }

  /** Bit `k` of a word. */
  function Bit(x: nat, k: nat): (b: nat)
    ensures b < 2
  {
    if k == 0 then x % 2 else Bit(x / 2, k - 1)
  }

  /** A mask test finds nothing exactly when no bit is set in both words. */
  lemma {:induction false} AndZero(a: nat, b: nat)
    ensures And(a, b) == 0 <==> forall k: nat :: Bit(a, k) == 0 || Bit(b, k) == 0
    decreases a
  {
    AndStep(a, b);
    if a == 0 {
      forall k: nat ensures Bit(a, k) == 0 { NoBit(k); }
    } else {
      AndZero(a / 2, b / 2);
      if And(a, b) == 0 {
        forall k: nat ensures Bit(a, k) == 0 || Bit(b, k) == 0 {
          if k > 0 { assert Bit(a / 2, k - 1) == 0 || Bit(b / 2, k - 1) == 0; }
        }
      } else if And(a / 2, b / 2) != 0 {
        var k: nat :| !(Bit(a / 2, k) == 0 || Bit(b / 2, k) == 0);
        assert Bit(a, k + 1) == Bit(a / 2, k) && Bit(b, k + 1) == Bit(b / 2, k);
      } else {
        assert !(Bit(a, 0) == 0 || Bit(b, 0) == 0);
      }
    }
  }

  lemma {:induction false} NoBit(k: nat)
    ensures Bit(0, k) == 0
  {
    if k > 0 { NoBit(k - 1); }
  }

  lemma Distribute(p: int, q: int, d: int)
    ensures q * d - p * d == (q - p) * d
  {
  }

  lemma MulGrows(n: int, d: nat)
    requires n >= 1
    ensures n * d >= d
  {
  }

  lemma RemainderUnique(x: nat, q: nat, r: nat, d: nat)
    requires d > 0 && r < d && x == q * d + r
    ensures x % d == r && x / d == q
  {
    var q' := x / d;
    Distribute(q, q', d);
    if q' < q {
      MulGrows(q - q', d);
      Distribute(q', q, d);
    } else if q' > q {
      MulGrows(q' - q, d);
    }
  }

  /** The test `n & (n - 1) == 0` recognises exactly the powers of two. */
  lemma {:induction false} PowerOfTwoTest(n: nat)
    requires n > 0
    ensures And(n, n - 1) == 0 <==> IsPow2(n)
    decreases n
  {
    if n == 1 {
      assert n == Pow2(0);
    } else {
      AndStep(n, n - 1);
      if n % 2 == 0 {
        assert (n - 1) / 2 == n / 2 - 1;
        PowerOfTwoTest(n / 2);
        if IsPow2(n / 2) {
          var k: nat :| n / 2 == Pow2(k);
          assert n == Pow2(k + 1);
        }
        if IsPow2(n) {
          var k: nat :| n == Pow2(k);
          assert n / 2 == Pow2(k - 1);
        }
      } else {
        assert n / 2 == (n - 1) / 2 > 0;
        AndSelf(n / 2);
        forall k: nat ensures n != Pow2(k) {
        }
      }
    }
  }

  lemma {:induction false} AndSelf(n: nat)
    ensures And(n, n) == n
  {
    if n > 0 { AndSelf(n / 2); }
  }

  lemma {:induction false} AndAtMost(a: nat, b: nat)
    ensures And(a, b) <= a
  {
    if a > 0 && b > 0 { AndAtMost(a / 2, b / 2); }
  }

  lemma {:induction false} Pow2Add(i: nat, j: nat)
    ensures Pow2(i + j) == Pow2(i) * Pow2(j)
    decreases i
  {
    if i > 0 {
      Pow2Add(i - 1, j);
      assert Pow2(i + j) == 2 * Pow2(i - 1 + j);
      assert Pow2(i) * Pow2(j) == 2 * (Pow2(i - 1) * Pow2(j));
    }
  }

  lemma Pow2Values()
    ensures Pow2(12) == 0x1000 && Pow2(16) == 0x1_0000 && Pow2(18) == 0x4_0000
    ensures Pow2(32) == 0x1_0000_0000 && Pow2(36) == 0x10_0000_0000 && Pow2(48) == 0x1_0000_0000_0000
    ensures Pow2(2) == 4 && Pow2(9) == 0x200 && Pow2(30) == 0x4000_0000
    ensures Pow2(63) == 0x8000_0000_0000_0000 && Pow2(64) == 0x1_0000_0000_0000_0000
  {
    assert Pow2(2) == 4 && Pow2(4) == 16;
    hide Pow2;
    Pow2Four(4);
    Pow2Four(8);
    Pow2Four(12);
    Pow2Four(16);
    Pow2Four(20);
    Pow2Four(24);
    Pow2Four(28);
    Pow2Four(32);
    Pow2Four(36);
    Pow2Four(40);
    Pow2Four(44);
    Pow2Four(48);
    Pow2Four(52);
    Pow2Four(56);
    Pow2Four(60);
  }

  lemma Pow2Four(k: nat)
    ensures Pow2(k + 1) == 2 * Pow2(k) && Pow2(k + 2) == 4 * Pow2(k)
    ensures Pow2(k + 3) == 8 * Pow2(k) && Pow2(k + 4) == 16 * Pow2(k)
  {
    assert Pow2(k + 2) == 2 * Pow2(k + 1);
    assert Pow2(k + 3) == 2 * Pow2(k + 2);
    assert Pow2(k + 4) == 2 * Pow2(k + 3);
  }

  /** A power of two no larger than `2^k` divides `2^k`. */
  lemma Pow2Divides(n: nat, k: nat) returns (c: nat)
    requires IsPow2(n) && n <= Pow2(k)
    ensures c * n == Pow2(k) && IsPow2(c)
  {
    var i: nat :| n == Pow2(i);
    if i > k { Pow2Grows(k, i); assert false; }
    Pow2Add(k - i, i);
    c := Pow2(k - i);
  }

  lemma {:induction false} Pow2Grows(i: nat, j: nat)
    requires i < j
    ensures Pow2(i) < Pow2(j)
    decreases j
  {
    if i < j - 1 { Pow2Grows(i, j - 1); }
  }

  lemma Associate(p: int, q: int, d: int)
    ensures p * (q * d) == (p * q) * d
  {
  }

  lemma Gather(p: int, q: int, d: int)
    ensures p * d + q * d == (p + q) * d
  {
  }

  lemma Nested(x: nat, q: nat, c: nat, d: nat, q': nat, r': nat)
    requires d > 0 && r' < d && x == q * (c * d) + (q' * d + r')
    ensures x % d == r'
  {
    Associate(q, c, d);
    Gather(q * c, q', d);
    RemainderUnique(x, q * c + q', r', d);
  }

  /** Reducing modulo a multiple of `d` first does not change the remainder modulo `d`. */
  lemma ModMod(x: nat, c: nat, d: nat)
    requires c > 0 && d > 0
    ensures x % (c * d) % d == x % d
  {
    MulGrows(c, d);
    var m := c * d;
    var q, r := x / m, x % m;
    Nested(x, q, c, d, r / d, r % d);
  }

  /** A field of a word, cut off above first or last. */
  lemma DivMod(x: nat, a: nat, b: nat)
    requires a > 0 && b > 0
    ensures a * b > 0 && x / a % b == x % (a * b) / a
  {
    MulGrows(a, b);
    var m := a * b;
    var q, r := x / m, x % m;
    FieldBelow(r, a, b);
    FieldOf(x, q, a, b, r / a, r % a);
  }

  lemma FieldBelow(r: nat, a: nat, b: nat)
    requires a > 0 && r < a * b
    ensures r / a < b
  {
    var h := r / a;
    if h >= b {
      MulOrder(h, b, a);
      assert false;
    }
  }

  lemma MulOrder(h: nat, b: nat, a: nat)
    requires h >= b
    ensures h * a >= a * b
  {
  }

  lemma FieldOf(x: nat, q: nat, a: nat, b: nat, h: nat, l: nat)
    requires a > 0 && h < b && l < a && x == q * (a * b) + (h * a + l)
    ensures x / a % b == h
  {
    Regrouped(q, a, b);
    Gather(q * b, h, a);
    RemainderUnique(x, q * b + h, l, a);
    RemainderUnique(q * b + h, q, h, b);
  }

  lemma Regrouped(q: nat, a: nat, b: nat)
    ensures q * (a * b) == (q * b) * a
  {
  }

  /** The divisors of a power of two are powers of two. */
  lemma {:induction false} DivisorOfPow2(c: nat, n: nat, k: nat)
    requires c * n == Pow2(k)
    ensures IsPow2(n)
    decreases k
  {
    if k == 0 {
      if n > 1 { MulGrows(c, n); }
      assert n == Pow2(0);
    } else if n % 2 == 0 {
      Halve(c, n);
      DivisorOfPow2(c, n / 2, k - 1);
      var i: nat :| n / 2 == Pow2(i);
      assert n == Pow2(i + 1);
    } else {
      OddFactor(c, n);
      Halve(n, c);
      DivisorOfPow2(c / 2, n, k - 1);
    }
  }

  lemma Halve(c: nat, n: nat)
    requires n % 2 == 0
    ensures c * (n / 2) == c * n / 2
  {
    assert c * n == c * (n / 2) * 2;
  }

  lemma OddFactor(c: nat, n: nat)
    requires c * n % 2 == 0 && n % 2 == 1
    ensures c % 2 == 0
  {
    if c % 2 == 1 {
      OddProduct(c / 2, n / 2);
      assert false;
    }
  }

  lemma OddProduct(a: nat, b: nat)
    ensures (2 * a + 1) * (2 * b + 1) == 2 * (2 * (a * b) + a + b) + 1
  {
  }

  /** Two numbers less than `d` apart and congruent modulo `d` are equal. */
  lemma CloseCongruent(a: nat, b: nat, d: nat)
    requires d > 0 && a <= b < a + d && a % d == b % d
    ensures a == b
  {
    var p, q := a / d, b / d;
    Distribute(p, q, d);
    Distribute(q, p, d);
    if q > p { MulGrows(q - p, d); }
    if q < p { MulGrows(p - q, d); }
  }
}
