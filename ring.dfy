/**
 * The byte layout both job lists share. A list of capacity L takes records
 * of fewer than M payload bytes; the writer counter w and the reader counter
 * r only grow, and a counter c sits at offset Off(c, L) == c % L of the
 * buffer. A record is a 4-byte length prefix followed by its payload. When
 * the space left before the end of the buffer is too small for a record of
 * the maximum size, the writer skips the rest of the lap (a pad of `dirty`
 * bytes) and continues at offset 0; the reader skips the same pad.
 *
 * Bytes are read by counter (LE, Span), so that reading the same record in
 * two buffers, or at two counters, needs no slice reasoning.
 */
module Ring {
  import opened Bytes
  import opened ModArith
  import opened Records

  /** Sizes for which offset 0 always has room for a whole record. */
  predicate Geometry(L: int, M: int)
  {
    1 <= M && M + JOBLEN_SIZE <= L <= 0x4000_0000
  }

  /** Offsets from which a record of the maximum size would run past the end. */
  predicate InPadZone(L: int, M: int, off: int)
  {
    off + M + JOBLEN_SIZE > L
  }

  /** Outside the pad zone every record of an admissible length ends before the buffer does. */
  lemma RecordFits(L: int, M: int, off: nat, n: int)
    requires Geometry(L, M) && !InPadZone(L, M, off) && 0 < n < M
    ensures off + JOBLEN_SIZE + n < L
  {
  }

  /** Bytes the writer skips before placing a record at counter c. */
  function Pad(L: int, M: int, c: nat): (p: nat)
    requires Geometry(L, M)
    ensures (p == 0) == !InPadZone(L, M, Off(c, L))
    ensures p > 0 ==> Off(c, L) + p == L
  {
    if InPadZone(L, M, Off(c, L)) then L - Off(c, L) else 0
  }

  /** The n bytes from offset o on. */
  function Span(buf: seq<byte>, o: nat, n: nat): (s: seq<byte>)
    requires o + n <= |buf|
    ensures |s| == n
    decreases n
  {
    if n == 0 then [] else [buf[o]] + Span(buf, o + 1, n - 1)
  }

  /** The C int held by the length prefix at offset o. */
  function Len(buf: seq<byte>, o: nat): int
    requires o + JOBLEN_SIZE <= |buf|
  {
    var u := buf[o] as int + 0x100 * buf[o + 1] as int + 0x1_0000 * buf[o + 2] as int + 0x100_0000 * buf[o + 3] as int;
    if u <= INT_MAX then u else u - 0x1_0000_0000
  }

  /** What the reader finds at counter r of a list stored in buf. */
  function Next(buf: seq<byte>, L: int, M: int, dirty: int, r: nat): (s: Step)
    requires Geometry(L, M) && |buf| == L
    ensures !s.Broken? ==> s.next > r
  {
    var o := Off(r, L);
    if InPadZone(L, M, o) then
      if dirty == L - o then Skip(r + (L - o)) else Broken
    else
      var n := Len(buf, o);
      if 0 < n < M then Item(r + JOBLEN_SIZE + n, Span(buf, o + JOBLEN_SIZE, n)) else Broken
  }

  /** The reader's steps over a list stored in buf. */
  function Steps(buf: seq<byte>, L: int, M: int, dirty: int): nat -> Step
    requires Geometry(L, M) && |buf| == L
  {
    (r: nat) => Next(buf, L, M, dirty, r)
  }

  /** A payload a list of record bound M accepts: non-empty and shorter than M. */
  predicate Admissible(M: int, p: seq<byte>)
  {
    0 < |p| < M
  }

  // ---------------------------------------------------------------------
  // Reading bytes

  /** The n bytes from offset o1 of buf1 equal those from offset o2 of buf2. */
  predicate Agree(buf1: seq<byte>, o1: nat, buf2: seq<byte>, o2: nat, n: nat)
    requires o1 + n <= |buf1| && o2 + n <= |buf2|
    decreases n
  {
    n == 0 || (buf1[o1] == buf2[o2] && Agree(buf1, o1 + 1, buf2, o2 + 1, n - 1))
  }

  /** Agreement over n bytes is agreement over the first k of them and over the rest. */
  lemma {:induction false} AgreeSplit(buf1: seq<byte>, o1: nat, buf2: seq<byte>, o2: nat, n: nat, k: nat)
    requires o1 + n <= |buf1| && o2 + n <= |buf2|
    requires Agree(buf1, o1, buf2, o2, n) && k <= n
    ensures Agree(buf1, o1, buf2, o2, k) && Agree(buf1, o1 + k, buf2, o2 + k, n - k)
    decreases k
  {
    if k > 0 {
      AgreeSplit(buf1, o1 + 1, buf2, o2 + 1, n - 1, k - 1);
    }
  }

  /** Equal slices agree. */
  lemma {:induction false} SliceAgree(buf1: seq<byte>, o1: nat, buf2: seq<byte>, o2: nat, n: nat)
    requires o1 + n <= |buf1| && o2 + n <= |buf2|
    requires buf1[o1 .. o1 + n] == buf2[o2 .. o2 + n]
    ensures Agree(buf1, o1, buf2, o2, n)
    decreases n
  {
    if n > 0 {
      assert buf1[o1] == buf1[o1 .. o1 + n][0] && buf2[o2] == buf2[o2 .. o2 + n][0];
      assert buf1[o1 + 1 .. o1 + n] == buf1[o1 .. o1 + n][1..];
      assert buf2[o2 + 1 .. o2 + n] == buf2[o2 .. o2 + n][1..];
      SliceAgree(buf1, o1 + 1, buf2, o2 + 1, n - 1);
    }
  }

  /** Two buffers equal at the counters c .. c + n - 1 of one lap agree at their offsets. */
  lemma {:induction false} AgreePointwise(buf1: seq<byte>, buf2: seq<byte>, L: int, c: nat, n: nat)
    requires L >= 1 && |buf1| == L && |buf2| == L && Off(c, L) + n <= L
    requires forall d {:trigger buf1[Off(d, L)]} :: c <= d < c + n ==> buf1[Off(d, L)] == buf2[Off(d, L)]
    ensures Agree(buf1, Off(c, L), buf2, Off(c, L), n)
    decreases n
  {
    if n > 0 {
      assert buf1[Off(c, L)] == buf2[Off(c, L)];
      OffShift(c, 1, L);
      AgreePointwise(buf1, buf2, L, c + 1, n - 1);
    }
  }

  /** Span is the slice. */
  lemma {:induction false} SpanSlice(buf: seq<byte>, o: nat, n: nat)
    requires o + n <= |buf|
    ensures Span(buf, o, n) == buf[o .. o + n]
    decreases n
  {
    if n > 0 {
      SpanSlice(buf, o + 1, n - 1);
      assert buf[o .. o + n] == [buf[o]] + buf[o + 1 .. o + n];
    }
  }

  /** Bytes that agree read the same. */
  lemma {:induction false} ReadShift(buf1: seq<byte>, o1: nat, buf2: seq<byte>, o2: nat, n: nat)
    requires o1 + n <= |buf1| && o2 + n <= |buf2|
    requires Agree(buf1, o1, buf2, o2, n)
    ensures Span(buf1, o1, n) == Span(buf2, o2, n)
    decreases n
  {
    if n > 0 {
      ReadShift(buf1, o1 + 1, buf2, o2 + 1, n - 1);
    }
  }

  /** Equal prefix bytes hold the same length. */
  lemma LenShift(buf1: seq<byte>, o1: nat, buf2: seq<byte>, o2: nat)
    requires o1 + JOBLEN_SIZE <= |buf1| && o2 + JOBLEN_SIZE <= |buf2|
    requires Agree(buf1, o1, buf2, o2, JOBLEN_SIZE)
    ensures Len(buf1, o1) == Len(buf2, o2)
  {
    ReadShift(buf1, o1, buf2, o2, JOBLEN_SIZE);
    SpanSlice(buf1, o1, JOBLEN_SIZE);
    SpanSlice(buf2, o2, JOBLEN_SIZE);
    var s1, s2 := buf1[o1 .. o1 + JOBLEN_SIZE], buf2[o2 .. o2 + JOBLEN_SIZE];
    assert buf1[o1] == s1[0] == s2[0] == buf2[o2];
    assert buf1[o1 + 1] == s1[1] == s2[1] == buf2[o2 + 1];
    assert buf1[o1 + 2] == s1[2] == s2[2] == buf2[o2 + 2];
    assert buf1[o1 + 3] == s1[3] == s2[3] == buf2[o2 + 3];
  }

  /** The length prefix is the int memcpy loads from its 4 bytes. */
  lemma LenDecode(buf: seq<byte>, o: nat)
    requires o + JOBLEN_SIZE <= |buf|
    ensures Len(buf, o) == DecodeInt(buf[o .. o + JOBLEN_SIZE])
  {
  }

  // ---------------------------------------------------------------------
  // The steps of a list

  /** Steps respect laps: a pad ends at the next lap start, a record before it. */
  lemma StepsInLaps(buf: seq<byte>, L: int, M: int, dirty: int)
    requires Geometry(L, M) && |buf| == L
    ensures LapSteps(Steps(buf, L, M, dirty), L)
  {
    var f := Steps(buf, L, M, dirty);
    forall c: nat
      ensures f(c).Skip? ==> f(c).next == LapStart(c, L) + L
      ensures f(c).Item? ==> f(c).next < LapStart(c, L) + L
    {
      assert f(c) == Next(buf, L, M, dirty, c);
    }
  }

  /** The step at r reads only the bytes at the counters it covers. */
  lemma NextFrame(buf1: seq<byte>, buf2: seq<byte>, L: int, M: int, dirty: int, r: nat, w: nat)
    requires Geometry(L, M) && |buf1| == L && |buf2| == L && r < w
    requires forall c {:trigger buf1[Off(c, L)]} :: r <= c < w ==> buf1[Off(c, L)] == buf2[Off(c, L)]
    ensures SameStep(Next(buf1, L, M, dirty, r), Next(buf2, L, M, dirty, r), r, w)
  {
    var o := Off(r, L);
    if !InPadZone(L, M, o) && r + JOBLEN_SIZE <= w {
      var m := if w - r < L - o then w - r else L - o;
      AgreePointwise(buf1, buf2, L, r, m);
      AgreeSplit(buf1, o, buf2, o, m, JOBLEN_SIZE);
      LenShift(buf1, o, buf2, o);
      var n := Len(buf1, o);
      if 0 < n < M && r + JOBLEN_SIZE + n <= w {
        AgreeSplit(buf1, o + JOBLEN_SIZE, buf2, o + JOBLEN_SIZE, m - JOBLEN_SIZE, n);
        ReadShift(buf1, o + JOBLEN_SIZE, buf2, o + JOBLEN_SIZE, n);
      }
    }
  }

  /** A walk from r to w reads only the bytes at the counters between r and w. */
  lemma StepsFrame(buf1: seq<byte>, buf2: seq<byte>, L: int, M: int, dirty: int, r: nat, w: nat)
    requires Geometry(L, M) && |buf1| == L && |buf2| == L
    requires forall c {:trigger buf1[Off(c, L)]} :: r <= c < w ==> buf1[Off(c, L)] == buf2[Off(c, L)]
    ensures Walk(Steps(buf1, L, M, dirty), r, w) == Walk(Steps(buf2, L, M, dirty), r, w)
  {
    var f1, f2 := Steps(buf1, L, M, dirty), Steps(buf2, L, M, dirty);
    forall c: nat | r <= c < w
      ensures SameStep(f1(c), f2(c), c, w)
    {
      NextFrame(buf1, buf2, L, M, dirty, c, w);
    }
    WalkFrame(f1, f2, r, w);
  }

  /** Inside the lap of w the width of the pad plays no part. */
  lemma StepsIgnoreDirty(buf: seq<byte>, L: int, M: int, d1: int, d2: int, r: nat, w: nat)
    requires Geometry(L, M) && |buf| == L
    requires LapStart(w, L) <= r
    ensures Walk(Steps(buf, L, M, d1), r, w) == Walk(Steps(buf, L, M, d2), r, w)
  {
    var f1, f2 := Steps(buf, L, M, d1), Steps(buf, L, M, d2);
    forall c: nat | r <= c < w
      ensures SameStep(f1(c), f2(c), c, w)
    {
      SameLapStart(c, w, L);
    }
    WalkFrame(f1, f2, r, w);
  }

  // ---------------------------------------------------------------------
  // Moving records

  /**
   * The source segment r1 .. w1 stays inside one lap, the target counters
   * r2 .. r2 + (w1 - r1) stay clear of the pad zone, and the bytes agree.
   */
  predicate Relocatable(buf1: seq<byte>, L1: int, r1: nat, w1: nat, buf2: seq<byte>, L2: int, M: int, r2: nat)
    requires Geometry(L1, M) && |buf1| == L1 && Geometry(L2, M) && |buf2| == L2
  {
    r1 <= w1 < LapStart(r1, L1) + L1 &&
    Off(r2, L2) + (w1 - r1) + M + JOBLEN_SIZE <= L2 &&
    Agree(buf1, Off(r1, L1), buf2, Off(r2, L2), w1 - r1)
  }

  lemma RelocateRest(buf1: seq<byte>, L1: int, r1: nat, w1: nat, buf2: seq<byte>, L2: int, M: int, r2: nat, k: nat)
    requires Geometry(L1, M) && |buf1| == L1 && Geometry(L2, M) && |buf2| == L2
    requires Relocatable(buf1, L1, r1, w1, buf2, L2, M, r2) && 0 < k && r1 + k <= w1
    ensures Relocatable(buf1, L1, r1 + k, w1, buf2, L2, M, r2 + k)
  {
    SameLapStart(r1 + k, r1, L1);
    OffShift(r1, k, L1);
    OffShift(r2, k, L2);
    AgreeSplit(buf1, Off(r1, L1), buf2, Off(r2, L2), w1 - r1, k);
  }

  /** A record the source meets at r1 is found again at r2. */
  lemma RelocateHead(buf1: seq<byte>, L1: int, d1: int, r1: nat, w1: nat, buf2: seq<byte>, L2: int, d2: int, M: int, r2: nat)
    requires Geometry(L1, M) && |buf1| == L1 && Geometry(L2, M) && |buf2| == L2
    requires Relocatable(buf1, L1, r1, w1, buf2, L2, M, r2)
    requires Advances(Next(buf1, L1, M, d1, r1), r1, w1)
    ensures var s := Next(buf1, L1, M, d1, r1);
      s.Item? && Next(buf2, L2, M, d2, r2) == Item(r2 + (s.next - r1), s.payload)
  {
    var o1, o2 := Off(r1, L1), Off(r2, L2);
    AgreeSplit(buf1, o1, buf2, o2, w1 - r1, JOBLEN_SIZE);
    LenShift(buf1, o1, buf2, o2);
    var n := Len(buf1, o1);
    AgreeSplit(buf1, o1 + JOBLEN_SIZE, buf2, o2 + JOBLEN_SIZE, w1 - r1 - JOBLEN_SIZE, n);
    ReadShift(buf1, o1 + JOBLEN_SIZE, buf2, o2 + JOBLEN_SIZE, n);
  }

  /** A record the source meets at counter c is found again in the copy. */
  lemma RelocateAt(buf1: seq<byte>, L1: int, d1: int, r1: nat, w1: nat, buf2: seq<byte>, L2: int, d2: int, M: int, r2: nat, c: nat)
    requires Geometry(L1, M) && |buf1| == L1 && Geometry(L2, M) && |buf2| == L2
    requires Relocatable(buf1, L1, r1, w1, buf2, L2, M, r2)
    requires r1 <= c < w1 && Advances(Steps(buf1, L1, M, d1)(c), c, w1)
    ensures var s := Steps(buf1, L1, M, d1)(c);
      s.Item? && Steps(buf2, L2, M, d2)(r2 + (c - r1)) == Item(r2 + (s.next - r1), s.payload)
  {
    var c2 := r2 + (c - r1);
    assert Steps(buf1, L1, M, d1)(c) == Next(buf1, L1, M, d1, c);
    assert Steps(buf2, L2, M, d2)(c2) == Next(buf2, L2, M, d2, c2);
    if c > r1 {
      RelocateRest(buf1, L1, r1, w1, buf2, L2, M, r2, c - r1);
    }
    RelocateHead(buf1, L1, d1, c, w1, buf2, L2, d2, M, c2);
  }

  /** Bytes copied out of one lap, to where no pad can occur, hold the same records at the same distances. */
  lemma RelocateShifted(buf1: seq<byte>, L1: int, d1: int, r1: nat, w1: nat, buf2: seq<byte>, L2: int, d2: int, M: int, r2: nat)
    requires Geometry(L1, M) && |buf1| == L1 && Geometry(L2, M) && |buf2| == L2
    requires Relocatable(buf1, L1, r1, w1, buf2, L2, M, r2)
    ensures Shifted(Steps(buf1, L1, M, d1), r1, w1, Steps(buf2, L2, M, d2), r2)
  {
    forall c: nat | r1 <= c < w1 && Advances(Steps(buf1, L1, M, d1)(c), c, w1)
      ensures Steps(buf1, L1, M, d1)(c).Item?
      ensures Steps(buf2, L2, M, d2)(r2 + (c - r1))
           == Item(r2 + (Steps(buf1, L1, M, d1)(c).next - r1), Steps(buf1, L1, M, d1)(c).payload)
    {
      RelocateAt(buf1, L1, d1, r1, w1, buf2, L2, d2, M, r2, c);
    }
  }

  /** Bytes copied out of one lap, to where no pad can occur, walk alike. */
  lemma Relocate(buf1: seq<byte>, L1: int, d1: int, r1: nat, w1: nat, buf2: seq<byte>, L2: int, d2: int, M: int, r2: nat, w2: nat)
    requires Geometry(L1, M) && |buf1| == L1 && Geometry(L2, M) && |buf2| == L2
    requires Relocatable(buf1, L1, r1, w1, buf2, L2, M, r2) && w2 - r2 == w1 - r1
    requires Walk(Steps(buf1, L1, M, d1), r1, w1).Some?
    ensures Walk(Steps(buf2, L2, M, d2), r2, w2) == Walk(Steps(buf1, L1, M, d1), r1, w1)
  {
    RelocateShifted(buf1, L1, d1, r1, w1, buf2, L2, d2, M, r2);
    ShiftWalk(Steps(buf1, L1, M, d1), r1, w1, Steps(buf2, L2, M, d2), r2, w2);
  }
}
