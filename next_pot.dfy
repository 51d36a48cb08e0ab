/** The NEXT_POT macro (joblist.h, persistence.h): round a C int up to a power of two. */
module PowerOfTwo {
  import opened Bits

  /** Largest argument whose rounded value still fits a C int. */
  const POT_LIMIT: nat := 0x4000_0000

  /** One `N |= N >> t` line of the macro. */
  function SmearStep(x: nat, t: nat): nat
  {
    BitOr(x, Shr(x, t))
  }

  /** The five `|=` lines, with shifts 16, 8, 4, 2 and 1 in that order. */
  function Smear(x: nat): nat
  {
    SmearStep(SmearStep(SmearStep(SmearStep(SmearStep(x, 16), 8), 4), 2), 1)
  }

  /** Exponent of the least power of two that is at least n. */
  function CeilLog2(n: nat): nat
    requires n >= 1
  {
    if n == 1 then 0 else Log2(n - 1) + 1
  }

  /** NEXT_POT(n): decrement, smear, increment. */
  function NextPot(n: int): (r: nat)
    requires 1 <= n <= POT_LIMIT
    ensures r == Pow2(CeilLog2(n))
    ensures n <= r < 2 * n
  {
    SmearIsLowMask(n - 1);
    Smear(n - 1) + 1
  }

  /** A rounded size needs no further rounding. */
  lemma NextPotOfPow2(k: nat)
    requires Pow2(k) <= POT_LIMIT
    ensures NextPot(Pow2(k)) == Pow2(k)
  {
    var c := CeilLog2(Pow2(k));
    Pow2Order(k, c);
    Pow2Order(c, k + 1);
  }

  /** No power of two below NEXT_POT(n) reaches n. */
  lemma NextPotIsLeast(n: int, j: nat)
    requires 1 <= n <= POT_LIMIT
    requires Pow2(j) >= n
    ensures Pow2(j) >= NextPot(n)
  {
    var c := CeilLog2(n);
    Pow2Order(j, c);
    if c > 0 {
      Pow2Order(j, c - 1);
    }
  }

  /** NEXT_POT(n) is the only power of two from n up to, not including, 2n. */
  lemma NextPotUnique(n: int, k: nat)
    requires 1 <= n <= POT_LIMIT && n <= Pow2(k) < 2 * n
    ensures Pow2(k) == NextPot(n)
  {
    var r := NextPot(n);
    Pow2Window(k, CeilLog2(n), n);
  }

  /**
   * The NEXT_POT(size) line of the job lists' initialisation: the rounded
   * size with its exponent, stated by the bounds that single it out (see
   * NextPotUnique).
   */
  method RoundUp(n: int) returns (r: int, ghost k: nat)
    requires 1 <= n <= POT_LIMIT
    ensures r == Pow2(k) && n <= r < 2 * n
  {
    r := NextPot(n);
    k := CeilLog2(n);
  }

  lemma StepKeeps(s: nat, t: nat, j: nat, u: nat)
    requires u <= 1 && Bit(s, j + u * t)
    ensures Bit(SmearStep(s, t), j)
  {
    BitOrBit(s, Shr(s, t), j);
    ShrBit(s, t, j);
  }

  /** A set digit at i + d, d <= 31, reaches digit i through the five steps. */
  lemma Chase(x: nat, i: nat, d: nat)
    requires d <= 31 && Bit(x, i + d)
    ensures Bit(Smear(x), i)
  {
    var a := if d >= 16 then 1 else 0;
    var b := if d - 16 * a >= 8 then 1 else 0;
    var c := if d - 16 * a - 8 * b >= 4 then 1 else 0;
    var e := if d - 16 * a - 8 * b - 4 * c >= 2 then 1 else 0;
    var f := d - 16 * a - 8 * b - 4 * c - 2 * e;
    var s1 := SmearStep(x, 16);
    var s2 := SmearStep(s1, 8);
    var s3 := SmearStep(s2, 4);
    var s4 := SmearStep(s3, 2);
    StepKeeps(x, 16, i + 8 * b + 4 * c + 2 * e + f, a);
    StepKeeps(s1, 8, i + 4 * c + 2 * e + f, b);
    StepKeeps(s2, 4, i + 2 * e + f, c);
    StepKeeps(s3, 2, i + f, e);
    StepKeeps(s4, 1, i, f);
  }

  lemma SmearBelow(x: nat, k: nat)
    requires x < Pow2(k)
    ensures Smear(x) < Pow2(k)
  {
    ShrBelow(x, 16, k);
    BitOrBelow(x, Shr(x, 16), k);
    var s1 := SmearStep(x, 16);
    ShrBelow(s1, 8, k);
    BitOrBelow(s1, Shr(s1, 8), k);
    var s2 := SmearStep(s1, 8);
    ShrBelow(s2, 4, k);
    BitOrBelow(s2, Shr(s2, 4), k);
    var s3 := SmearStep(s2, 4);
    ShrBelow(s3, 2, k);
    BitOrBelow(s3, Shr(s3, 2), k);
    var s4 := SmearStep(s3, 2);
    ShrBelow(s4, 1, k);
    BitOrBelow(s4, Shr(s4, 1), k);
  }

  /** After the five steps every digit up to the leading one (digit h) is set. */
  lemma SmearSetsLowDigits(x: nat, h: nat)
    requires h <= 30 && Bit(x, h)
    ensures forall i :: 0 <= i < h + 1 ==> Bit(Smear(x), i)
  {
    forall i | 0 <= i < h + 1
      ensures Bit(Smear(x), i)
    {
      Chase(x, i, h - i);
    }
  }

  /** After the five steps every digit up to the leading one is set. */
  lemma SmearIsLowMask(x: nat)
    requires x < POT_LIMIT
    ensures x == 0 ==> Smear(x) == 0
    ensures x >= 1 ==> Smear(x) == Pow2(Log2(x) + 1) - 1
    ensures x <= Smear(x) <= 2 * x
  {
    if x == 0 {
      SmearBelow(0, 0);
    } else {
      var h := Log2(x);
      Log2Bounds(x);
      Pow2Thirty();
      Pow2Order(h, 30);
      SmearBelow(x, h + 1);
      SmearSetsLowDigits(x, h);
      AllOnes(Smear(x), h + 1);
    }
  }
}
