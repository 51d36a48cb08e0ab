/**
 * The bitwise operators the ring buffers use (`|`, `>>` and `&` on
 * non-negative C integers), defined on `nat` one binary digit at a time.
 */
module Bits {
  import opened ModArith

  /** 2 to the power k. */
  function Pow2(k: nat): (p: nat)
    ensures p >= 1
  {
    if k == 0 then 1 else 2 * Pow2(k - 1)
  }

  /** Binary digit i of x is 1 (digit 0 is the least significant). */
  predicate Bit(x: nat, i: nat)
  {
    if i == 0 then x % 2 == 1 else Bit(x / 2, i - 1)
  }

  /** `x >> t` */
  function Shr(x: nat, t: nat): nat
  {
    if t == 0 then x else Shr(x / 2, t - 1)
  }

  /** `a | b` */
  function BitOr(a: nat, b: nat): nat
    decreases a + b
  {
    if a == 0 then b
    else if b == 0 then a
    else 2 * BitOr(a / 2, b / 2) + (if a % 2 == 1 || b % 2 == 1 then 1 else 0)
  }

  /** `a & b` */
  function BitAnd(a: nat, b: nat): nat
    decreases a + b
  {
    if a == 0 || b == 0 then 0
    else 2 * BitAnd(a / 2, b / 2) + (if a % 2 == 1 && b % 2 == 1 then 1 else 0)
  }

  /** Position of the most significant 1 digit of x (floor of log2). */
  function Log2(x: nat): nat
    requires x >= 1
  {
    if x == 1 then 0 else 1 + Log2(x / 2)
  }

  lemma {:induction false} Pow2Add(j: nat, k: nat)
    ensures Pow2(j + k) == Pow2(j) * Pow2(k)
    decreases k
  {
    if k > 0 {
      Pow2Add(j, k - 1);
      assert Pow2(j + k) == 2 * Pow2(j + k - 1);
    }
  }

  /** Powers of two are ordered like their exponents. */
  lemma {:induction false} Pow2Order(j: nat, k: nat)
    ensures j <= k <==> Pow2(j) <= Pow2(k)
    ensures j < k <==> Pow2(j) < Pow2(k)
    decreases j + k
  {
    if j > 0 && k > 0 {
      Pow2Order(j - 1, k - 1);
    } else if j > 0 {
      assert Pow2(j) >= 2;
    } else if k > 0 {
      assert Pow2(k) >= 2;
    }
  }

  /** At most one power of two lies from n up to, not including, 2n. */
  lemma Pow2Window(j: nat, k: nat, n: int)
    requires n <= Pow2(j) < 2 * n && n <= Pow2(k) < 2 * n
    ensures j == k
  {
    Pow2Order(j + 1, k);
    Pow2Order(k + 1, j);
  }

  lemma Pow2Thirty()
    ensures Pow2(30) == 0x4000_0000
  {
    assert Pow2(10) == 1024;
    Pow2Add(10, 10);
    Pow2Add(20, 10);
  }

  /** Bit i of `a | b` is set exactly when it is set in a or in b. */
  lemma {:induction false} BitOrBit(a: nat, b: nat, i: nat)
    ensures Bit(BitOr(a, b), i) <==> Bit(a, i) || Bit(b, i)
    decreases a + b
  {
    if a == 0 {
      ZeroHasNoBits(i);
    } else if b == 0 {
      ZeroHasNoBits(i);
    } else if i > 0 {
      var q := BitOr(a / 2, b / 2);
      assert BitOr(a, b) / 2 == q;
      BitOrBit(a / 2, b / 2, i - 1);
    }
  }

  /** Bit i of `a & b` is set exactly when it is set in a and in b. */
  lemma {:induction false} BitAndBit(a: nat, b: nat, i: nat)
    ensures Bit(BitAnd(a, b), i) <==> Bit(a, i) && Bit(b, i)
    decreases a + b
  {
    if a == 0 || b == 0 {
      ZeroHasNoBits(i);
    } else if i > 0 {
      var q := BitAnd(a / 2, b / 2);
      assert BitAnd(a, b) / 2 == q;
      BitAndBit(a / 2, b / 2, i - 1);
    }
  }

  lemma {:induction false} ZeroHasNoBits(i: nat)
    ensures !Bit(0, i)
  {
    if i > 0 {
      ZeroHasNoBits(i - 1);
    }
  }

  /** Bit i of `a >> t` is bit i + t of a. */
  lemma {:induction false} ShrBit(a: nat, t: nat, i: nat)
    ensures Bit(Shr(a, t), i) <==> Bit(a, i + t)
    decreases t
  {
    if t > 0 {
      ShrBit(a / 2, t - 1, i);
    }
  }

  lemma {:induction false} ShrBelow(a: nat, t: nat, k: nat)
    requires a < Pow2(k)
    ensures Shr(a, t) < Pow2(k)
    decreases t
  {
    if t > 0 {
      ShrBelow(a / 2, t - 1, k);
    }
  }

  lemma {:induction false} BitOrBelow(a: nat, b: nat, k: nat)
    requires a < Pow2(k) && b < Pow2(k)
    ensures BitOr(a, b) < Pow2(k)
    decreases a + b
  {
    if a != 0 && b != 0 {
      BitOrBelow(a / 2, b / 2, k - 1);
    }
  }

  /** A number below 2^k whose k low digits are all 1 is 2^k - 1. */
  lemma {:induction false} AllOnes(x: nat, k: nat)
    requires x < Pow2(k)
    requires forall i :: 0 <= i < k ==> Bit(x, i)
    ensures x == Pow2(k) - 1
    decreases k
  {
    if k > 0 {
      assert Bit(x, 0);
      forall i | 0 <= i < k - 1
        ensures Bit(x / 2, i)
      {
        assert Bit(x, i + 1);
      }
      AllOnes(x / 2, k - 1);
    }
  }

  /** Log2 names the most significant digit. */
  lemma {:induction false} Log2Bounds(x: nat)
    requires x >= 1
    ensures Pow2(Log2(x)) <= x < Pow2(Log2(x) + 1)
    ensures Bit(x, Log2(x))
  {
    if x > 1 {
      Log2Bounds(x / 2);
    }
  }

  /** Masking with 2^k - 1 keeps the remainder modulo 2^k. */
  lemma {:induction false} MaskIsMod(c: nat, k: nat)
    ensures BitAnd(c, Pow2(k) - 1) == c % Pow2(k)
    decreases k
  {
    if k == 0 {
      DivModUnique(c, 1, c, 0);
    } else if c != 0 {
      var p := Pow2(k - 1);
      var m := Pow2(k) - 1;
      assert m == 2 * (p - 1) + 1;
      DivModUnique(m, 2, p - 1, 1);
      MaskIsMod(c / 2, k - 1);
      assert BitAnd(c, m) == 2 * ((c / 2) % p) + c % 2;
      HalveMod(c, p);
    } else {
      DivModUnique(0, Pow2(k), 0, 0);
    }
  }

  lemma HalveMod(c: nat, p: nat)
    requires p >= 1
    ensures c % (2 * p) == 2 * ((c / 2) % p) + c % 2
  {
    var q := (c / 2) / p;
    var s := (c / 2) % p;
    assert c / 2 == q * p + s;
    assert c == 2 * (c / 2) + c % 2;
    assert c == q * (2 * p) + (2 * s + c % 2);
    DivModUnique(c, 2 * p, q, 2 * s + c % 2);
  }
}
