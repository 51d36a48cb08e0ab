/** Facts about Euclidean division that the offset arithmetic relies on. */
module ModArith {

  lemma MulSign(d: int, m: int)
    requires m >= 1
    ensures d >= 1 ==> d * m >= m
    ensures d <= -1 ==> d * m <= -m
  {
    if d >= 1 {
      assert d * m == (d - 1) * m + m;
      assert (d - 1) * m >= 0;
    } else if d <= -1 {
      assert d * m == (d + 1) * m - m;
      assert (-d - 1) * m >= 0;
    }
  }

  /** Quotient and remainder are determined by any decomposition c == q * m + r with 0 <= r < m. */
  lemma DivModUnique(c: int, m: int, q: int, r: int)
    requires m >= 1 && 0 <= r < m && c == q * m + r
    ensures c % m == r && c / m == q
  {
    var q0, r0 := c / m, c % m;
    assert c == q0 * m + r0;
    var d := q - q0;
    assert d * m == q * m - q0 * m;
    MulSign(d, m);
  }

  /** Offset of counter c in a buffer of m bytes. */
  function Off(c: nat, m: int): (o: nat)
    requires m >= 1
    ensures o < m
  {
    c % m
  }

  /** Moving forward inside one lap moves the offset by the same amount. */
  lemma OffShift(c: nat, j: int, m: int)
    requires m >= 1
    ensures 0 <= j && Off(c, m) + j < m ==> Off(c + j, m) == Off(c, m) + j
  {
    if 0 <= j && Off(c, m) + j < m {
      assert c == (c / m) * m + c % m;
      DivModUnique(c + j, m, c / m, c % m + j);
    }
  }

  lemma ModDistinct(a: int, b: int, m: int)
    requires m >= 1
    ensures 0 < b - a < m ==> a % m != b % m
  {
    var d := b / m - a / m;
    assert b - a == d * m + (b % m - a % m) by {
      assert a == (a / m) * m + a % m;
      assert b == (b / m) * m + b % m;
      assert d * m == (b / m) * m - (a / m) * m;
    }
    MulSign(d, m);
  }

  /** Two counters less than a lap apart sit at different offsets. */
  lemma OffDistinct(a: nat, b: nat, m: int)
    requires m >= 1
    ensures 0 < b - a < m ==> Off(a, m) != Off(b, m)
  {
    ModDistinct(a, b, m);
  }

  /** A counter below one lap is its own offset. */
  lemma OffBelow(c: nat, m: int)
    requires m >= 1
    ensures c < m ==> Off(c, m) == c
  {
    if c < m {
      DivModUnique(c, m, 0, c);
    }
  }

  /** The counter at which the lap holding c starts. */
  function LapStart(c: nat, m: int): (s: nat)
    requires m >= 1
    ensures s <= c
  {
    c - Off(c, m)
  }

  /** Lap starts sit at offset 0. */
  lemma LapStartOffset(c: nat, m: int)
    requires m >= 1
    ensures Off(LapStart(c, m), m) == 0 && Off(LapStart(c, m) + m, m) == 0
  {
    assert c == (c / m) * m + c % m;
    DivModUnique(LapStart(c, m), m, c / m, 0);
    DivModUnique(LapStart(c, m) + m, m, c / m + 1, 0);
  }

  /** A counter inside the lap of b has the lap start of b. */
  lemma SameLapStart(a: nat, b: nat, m: int)
    requires m >= 1
    ensures LapStart(b, m) <= a < LapStart(b, m) + m ==> LapStart(a, m) == LapStart(b, m)
  {
    if LapStart(b, m) <= a < LapStart(b, m) + m {
      LapStartOffset(b, m);
      OffShift(LapStart(b, m), a - LapStart(b, m), m);
    }
  }

  /** One lap further on, the lap start moves by one lap. */
  lemma LapStartStep(c: nat, m: int)
    requires m >= 1
    ensures c >= m ==> LapStart(c, m) == LapStart(c - m, m) + m
    ensures c < m ==> LapStart(c, m) == 0
  {
    if c >= m {
      assert c - m == ((c - m) / m) * m + (c - m) % m;
      DivModUnique(c, m, (c - m) / m + 1, (c - m) % m);
    } else {
      DivModUnique(c, m, 0, c);
    }
  }

  /** A counter before the lap of b lies a whole lap length or more before it. */
  lemma {:induction false} EarlierLap(a: nat, b: nat, m: int)
    requires m >= 1
    ensures a < LapStart(b, m) ==> LapStart(a, m) + m <= LapStart(b, m)
    decreases b
  {
    LapStartStep(b, m);
    if b >= m && a < LapStart(b, m) {
      EarlierLap(a, b - m, m);
      SameLapStart(a, b - m, m);
    }
  }

  /** A lap start after c is no earlier than the end of the lap of c. */
  lemma LapStartAfter(c: nat, s: nat, m: int)
    requires m >= 1
    ensures Off(s, m) == 0 && c < s ==> LapStart(c, m) + m <= s
  {
    EarlierLap(c, s, m);
  }
}
