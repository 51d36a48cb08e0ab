/**
 * The reader's walk over a job list, independent of the byte layout. A step
 * function tells what the reader finds at each counter: a pad to skip, a
 * record, or bytes that are neither. Walking from the read counter to the
 * write counter lists the records in between; this list is the abstract
 * contents of a job list.
 */
module Records {
  import opened Bytes
  import opened ModArith

  datatype Step = Skip(next: nat) | Item(next: nat, payload: seq<byte>) | Broken

  /** The records a step contributes. */
  function Out(s: Step): seq<seq<byte>>
  {
    if s.Item? then [s.payload] else []
  }

  /** The step at r is a pad or a record that ends after r and no later than w. */
  predicate Advances(s: Step, r: nat, w: nat)
  {
    !s.Broken? && r < s.next <= w
  }

  /**
   * The records met walking from counter r to counter w, or None when the
   * steps from r do not land exactly on w.
   */
  function Walk(f: nat -> Step, r: nat, w: nat): Option<seq<seq<byte>>>
    decreases w - r
  {
    if r == w then Some([])
    else if !Advances(f(r), r, w) then None
    else
      var rest := Walk(f, f(r).next, w);
      if rest.None? then None else Some(Out(f(r)) + rest.value)
  }

  // ---------------------------------------------------------------------
  // Single steps

  lemma WalkStep(f: nat -> Step, r: nat, w: nat)
    requires r < w
    ensures Walk(f, r, w)
         == if !Advances(f(r), r, w) || Walk(f, f(r).next, w).None? then None
            else Some(Out(f(r)) + Walk(f, f(r).next, w).value)
  {
  }

  /** A walk only goes forward. */
  lemma WalkForward(f: nat -> Step, r: nat, w: nat)
    requires Walk(f, r, w).Some?
    ensures r <= w
  {
    if r != w {
      assert Advances(f(r), r, w);
    }
  }

  /** A walk that starts with a record lists its payload first. */
  lemma ItemStep(f: nat -> Step, r: nat, w: nat, k: nat, p: seq<byte>)
    requires 0 < k && r + k <= w && f(r) == Item(r + k, p) && Walk(f, r + k, w).Some?
    ensures Walk(f, r, w) == Some([p] + Walk(f, r + k, w).value)
  {
  }

  /** A walk that starts with a pad lists what follows the pad. */
  lemma SkipStep(f: nat -> Step, r: nat, w: nat, k: nat)
    requires 0 < k && r + k <= w && f(r) == Skip(r + k)
    ensures Walk(f, r, w) == Walk(f, r + k, w)
  {
    WalkStep(f, r, w);
    if Walk(f, r + k, w).Some? {
      assert [] + Walk(f, r + k, w).value == Walk(f, r + k, w).value;
    }
  }

  // ---------------------------------------------------------------------
  // Splitting and joining walks

  lemma AppendStep(f: nat -> Step, r: nat, m: nat, e: nat)
    requires r < m && Walk(f, r, m).Some? && Walk(f, m, e).Some?
    requires Advances(f(r), r, m)
    requires Walk(f, f(r).next, e) == Some(Walk(f, f(r).next, m).value + Walk(f, m, e).value)
    ensures Walk(f, r, e) == Some(Walk(f, r, m).value + Walk(f, m, e).value)
  {
    var s := f(r);
    var a, b := Walk(f, s.next, m).value, Walk(f, m, e).value;
    WalkForward(f, m, e);
    WalkStep(f, r, m);
    WalkStep(f, r, e);
    assert Walk(f, r, m) == Some(Out(s) + a);
    assert Walk(f, r, e) == Some(Out(s) + (a + b));
    assert Out(s) + (a + b) == (Out(s) + a) + b;
  }

  /** Walking r to m and then m to e is walking r to e. */
  lemma {:induction false} WalkAppend(f: nat -> Step, r: nat, m: nat, e: nat)
    requires Walk(f, r, m).Some? && Walk(f, m, e).Some?
    ensures Walk(f, r, e) == Some(Walk(f, r, m).value + Walk(f, m, e).value)
    decreases m - r
  {
    if r == m {
      assert [] + Walk(f, m, e).value == Walk(f, m, e).value;
    } else {
      WalkStep(f, r, m);
      WalkAppend(f, f(r).next, m, e);
      AppendStep(f, r, m, e);
    }
  }

  /** A record right after the end of a walk extends the walk by its payload. */
  lemma WalkSnoc(f: nat -> Step, r: nat, w: nat, k: nat, p: seq<byte>)
    requires Walk(f, r, w).Some? && 0 < k && f(w) == Item(w + k, p)
    ensures Walk(f, r, w + k) == Some(Walk(f, r, w).value + [p])
  {
    assert Walk(f, w + k, w + k) == Some([]);
    ItemStep(f, w, w + k, k, p);
    assert [p] + [] == [p];
    WalkAppend(f, r, w, w + k);
  }

  /** A pad right after the end of a walk extends the walk by nothing. */
  lemma WalkSnocPad(f: nat -> Step, r: nat, w: nat, k: nat)
    requires Walk(f, r, w).Some? && 0 < k && f(w) == Skip(w + k)
    ensures Walk(f, r, w + k) == Walk(f, r, w)
  {
    SkipStep(f, w, w + k, k);
    WalkAppend(f, r, w, w + k);
    assert Walk(f, r, w).value + [] == Walk(f, r, w).value;
  }

  // ---------------------------------------------------------------------
  // Walks that only depend on some of the steps

  /** Two steps at counter c that advance alike within w, and agree when they do. */
  predicate SameStep(s1: Step, s2: Step, c: nat, w: nat)
  {
    Advances(s1, c, w) == Advances(s2, c, w) && (Advances(s1, c, w) ==> s1 == s2)
  }

  lemma FrameStep(f1: nat -> Step, f2: nat -> Step, r: nat, w: nat)
    requires r < w && SameStep(f1(r), f2(r), r, w)
    requires Advances(f1(r), r, w) ==> Walk(f1, f1(r).next, w) == Walk(f2, f1(r).next, w)
    ensures Walk(f1, r, w) == Walk(f2, r, w)
  {
    WalkStep(f1, r, w);
    WalkStep(f2, r, w);
  }

  /** A walk from r to w only looks at the steps at counters between r and w. */
  lemma {:induction false} WalkFrame(f1: nat -> Step, f2: nat -> Step, r: nat, w: nat)
    requires forall c {:trigger f1(c)} :: r <= c < w ==> SameStep(f1(c), f2(c), c, w)
    ensures Walk(f1, r, w) == Walk(f2, r, w)
    decreases w - r
  {
    if r < w {
      assert SameStep(f1(r), f2(r), r, w);
      if Advances(f1(r), r, w) {
        WalkFrame(f1, f2, f1(r).next, w);
      }
      FrameStep(f1, f2, r, w);
    }
  }

  // ---------------------------------------------------------------------
  // Laps

  /**
   * Steps respect laps of L counters: a pad ends exactly at the next lap
   * start and a record ends before it.
   */
  ghost predicate LapSteps(f: nat -> Step, L: int)
    requires L >= 1
  {
    forall c {:trigger f(c)} ::
      (f(c).Skip? ==> f(c).next == LapStart(c, L) + L) &&
      (f(c).Item? ==> f(c).next < LapStart(c, L) + L)
  }

  lemma ThroughStep(f: nat -> Step, L: int, r: nat, m: nat, w: nat)
    requires L >= 1 && LapSteps(f, L)
    requires r < m <= w && Off(m, L) == 0 && Walk(f, r, w).Some?
    ensures Advances(f(r), r, w) && f(r).next <= m && Walk(f, f(r).next, w).Some?
  {
    WalkStep(f, r, w);
    assert f(r).Skip? ==> f(r).next == LapStart(r, L) + L;
    assert f(r).Item? ==> f(r).next < LapStart(r, L) + L;
    LapStartAfter(r, m, L);
  }

  /** A walk cannot jump over a lap start: it passes through it, and splits there. */
  lemma {:induction false} WalkThroughLapStart(f: nat -> Step, L: int, r: nat, m: nat, w: nat)
    requires L >= 1 && LapSteps(f, L)
    requires Walk(f, r, w).Some? && r <= m <= w && Off(m, L) == 0
    ensures Walk(f, r, m).Some? && Walk(f, m, w).Some?
    ensures Walk(f, r, w) == Some(Walk(f, r, m).value + Walk(f, m, w).value)
    decreases w - r
  {
    if r == m {
      assert [] + Walk(f, m, w).value == Walk(f, m, w).value;
    } else {
      ThroughStep(f, L, r, m, w);
      WalkThroughLapStart(f, L, f(r).next, m, w);
      WalkStep(f, r, m);
      AppendStep(f, r, m, w);
    }
  }

  lemma EndStep(f: nat -> Step, L: int, r: nat)
    requires L >= 1 && LapSteps(f, L) && Walk(f, r, LapStart(r, L) + L).Some?
    ensures var e := LapStart(r, L) + L;
      Advances(f(r), r, e) && Walk(f, f(r).next, e).Some? &&
      (f(r).Item? ==> LapStart(f(r).next, L) == LapStart(r, L))
  {
    var e := LapStart(r, L) + L;
    WalkStep(f, r, e);
    assert f(r).Item? ==> f(r).next < e;
    SameLapStart(f(r).next, r, L);
  }

  /**
   * A walk to the end of the lap of r ends with a pad: the pad starts at p
   * and the walk to p meets the same records.
   */
  lemma {:induction false} WalkToLapEnd(f: nat -> Step, L: int, r: nat) returns (p: nat)
    requires L >= 1 && LapSteps(f, L)
    requires Walk(f, r, LapStart(r, L) + L).Some?
    ensures r <= p < LapStart(r, L) + L && f(p) == Skip(LapStart(r, L) + L)
    ensures Walk(f, r, p) == Walk(f, r, LapStart(r, L) + L)
    decreases LapStart(r, L) + L - r
  {
    var e := LapStart(r, L) + L;
    EndStep(f, L, r);
    if f(r).Item? {
      p := WalkToLapEnd(f, L, f(r).next);
      assert LapStart(f(r).next, L) + L == e;
      assert Walk(f, f(r).next, p) == Walk(f, f(r).next, e);
      WalkStep(f, r, e);
      WalkStep(f, r, p);
    } else {
      assert f(r) == Skip(e);
      p := r;
      SkipStep(f, r, e, e - r);
    }
  }

  // ---------------------------------------------------------------------
  // Moving records

  /**
   * Every step of f1 from r1 that advances within w1 is a record, and f2
   * holds the same record at the same distance from r2.
   */
  ghost predicate Shifted(f1: nat -> Step, r1: nat, w1: nat, f2: nat -> Step, r2: nat)
  {
    forall c {:trigger f1(c)} :: r1 <= c < w1 && Advances(f1(c), c, w1) ==>
      f1(c).Item? && f2(r2 + (c - r1)) == Item(r2 + (f1(c).next - r1), f1(c).payload)
  }

  /** What is left after the first record is still shifted alike. */
  lemma ShiftRest(f1: nat -> Step, r1: nat, w1: nat, f2: nat -> Step, r2: nat, k: nat)
    requires Shifted(f1, r1, w1, f2, r2) && 0 < k
    ensures Shifted(f1, r1 + k, w1, f2, r2 + k)
  {
    forall c | r1 + k <= c < w1 && Advances(f1(c), c, w1)
      ensures f1(c).Item? && f2(r2 + k + (c - (r1 + k))) == Item(r2 + k + (f1(c).next - (r1 + k)), f1(c).payload)
    {
      assert r2 + k + (c - (r1 + k)) == r2 + (c - r1);
    }
  }

  lemma ShiftStep(f1: nat -> Step, r1: nat, w1: nat, f2: nat -> Step, r2: nat, w2: nat)
    requires r1 < w1 && w2 - r2 == w1 - r1 && Shifted(f1, r1, w1, f2, r2) && Walk(f1, r1, w1).Some?
    requires Walk(f2, r2 + (f1(r1).next - r1), w2) == Walk(f1, f1(r1).next, w1)
    ensures Walk(f2, r2, w2) == Walk(f1, r1, w1)
  {
    WalkStep(f1, r1, w1);
    assert f2(r2 + (r1 - r1)) == Item(r2 + (f1(r1).next - r1), f1(r1).payload);
    WalkStep(f2, r2, w2);
  }

  /** Records shifted alike walk alike. */
  lemma {:induction false} ShiftWalk(f1: nat -> Step, r1: nat, w1: nat, f2: nat -> Step, r2: nat, w2: nat)
    requires w2 - r2 == w1 - r1 && Shifted(f1, r1, w1, f2, r2) && Walk(f1, r1, w1).Some?
    ensures Walk(f2, r2, w2) == Walk(f1, r1, w1)
    decreases w1 - r1
  {
    if r1 < w1 {
      WalkStep(f1, r1, w1);
      var k := f1(r1).next - r1;
      ShiftRest(f1, r1, w1, f2, r2, k);
      ShiftWalk(f1, r1 + k, w1, f2, r2 + k, w2);
      ShiftStep(f1, r1, w1, f2, r2, w2);
    }
  }

  /** A walk that crosses the end e of the reader's lap splits at that lap's pad. */
  lemma SplitAtLapEnd(f: nat -> Step, L: int, r: nat, e: nat, w: nat) returns (p: nat)
    requires L >= 1 && LapSteps(f, L) && Walk(f, r, w).Some?
    requires e == LapStart(r, L) + L && r < e <= w
    ensures r <= p < e && f(p) == Skip(e)
    ensures Walk(f, r, p).Some? && Walk(f, e, w).Some?
    ensures Walk(f, r, w) == Some(Walk(f, r, p).value + Walk(f, e, w).value)
  {
    LapStartOffset(r, L);
    WalkThroughLapStart(f, L, r, e, w);
    p := WalkToLapEnd(f, L, r);
  }
}
