/**
 * The job list as a FIFO queue of byte strings. These lemmas say what each
 * step of the corrected push, pop and resize protocol does to the queue the
 * reader's walk lists; the two job list classes apply them to their fields.
 */
module Queue {
  import opened Bytes
  import opened ModArith
  import opened Records
  import opened Ring
  import opened Mem

  /** The reader's walk from r reaches w, and w is at most one lap ahead of r. */
  predicate Walkable(buf: seq<byte>, L: int, M: int, r: nat, w: nat, dirty: int)
  {
    Geometry(L, M) && |buf| == L && r <= w <= r + L && Walk(Steps(buf, L, M, dirty), r, w).Some?
  }

  /**
   * What holds between operations: besides the walk, the writer stands at a
   * lap start only when the list is empty (a pad is always followed by the
   * record it made room for).
   */
  predicate Listed(buf: seq<byte>, L: int, M: int, r: nat, w: nat, dirty: int)
  {
    Walkable(buf, L, M, r, w, dirty) && (Off(w, L) == 0 ==> r == w)
  }

  /** The queue a list holds. */
  function Contents(buf: seq<byte>, L: int, M: int, r: nat, w: nat, dirty: int): seq<seq<byte>>
    requires Walkable(buf, L, M, r, w, dirty)
  {
    Walk(Steps(buf, L, M, dirty), r, w).value
  }

  /** A record as push stores it: the length prefix, then the payload. */
  function Record(p: seq<byte>): (b: seq<byte>)
    requires IsCInt(|p|)
    ensures |b| == JOBLEN_SIZE + |p| && b[..JOBLEN_SIZE] == EncodeInt(|p|) && b[JOBLEN_SIZE..] == p
  {
    EncodeInt(|p|) + p
  }

  /**
   * The corrected full test: the record, the pad in front of it and the
   * unread bytes would not fit in one lap.
   */
  predicate Full(L: int, M: int, r: nat, w: nat, n: int)
    requires Geometry(L, M)
  {
    w + Pad(L, M, w) + n + JOBLEN_SIZE - r > L
  }

  /** No push of an admissible length is full. */
  predicate Roomy(L: int, M: int, r: nat, w: nat)
    requires Geometry(L, M)
  {
    forall n :: 0 < n < M ==> !Full(L, M, r, w, n)
  }

  // ---------------------------------------------------------------------
  // Writing

  /** Storing b at the writer's offset leaves the unread records alone when it fits beside them. */
  lemma PokeFrame(buf: seq<byte>, L: int, M: int, dirty: int, r: nat, w: nat, b: seq<byte>)
    requires Geometry(L, M) && |buf| == L && r <= w
    requires Off(w, L) + |b| <= L && w + |b| - r <= L
    ensures Walk(Steps(Poke(buf, Off(w, L), b), L, M, dirty), r, w) == Walk(Steps(buf, L, M, dirty), r, w)
  {
    var buf2 := Poke(buf, Off(w, L), b);
    forall c: nat | r <= c < w
      ensures buf2[Off(c, L)] == buf[Off(c, L)]
    {
      if Off(w, L) <= Off(c, L) < Off(w, L) + |b| {
        var j := Off(c, L) - Off(w, L);
        OffShift(w, j, L);
        OffDistinct(c, w + j, L);
      }
      PokeOutside(buf, Off(w, L), b, Off(c, L));
    }
    StepsFrame(buf2, buf, L, M, dirty, r, w);
  }

  /** A record stored outside the pad zone reads back as that record. */
  lemma ReadRecord(buf: seq<byte>, L: int, M: int, dirty: int, w: nat, p: seq<byte>)
    requires Geometry(L, M) && |buf| == L && !InPadZone(L, M, Off(w, L)) && Admissible(M, p)
    ensures Off(w, L) + JOBLEN_SIZE + |p| < L
    ensures Next(Poke(buf, Off(w, L), Record(p)), L, M, dirty, w) == Item(w + JOBLEN_SIZE + |p|, p)
  {
    var o := Off(w, L);
    var buf2 := Poke(buf, o, Record(p));
    assert buf2[o .. o + JOBLEN_SIZE] == Record(p)[..JOBLEN_SIZE] by {
      assert buf2[o .. o + JOBLEN_SIZE] == buf2[o .. o + |Record(p)|][..JOBLEN_SIZE];
    }
    LenDecode(buf2, o);
    DecodeEncode(|p|);
    SpanSlice(buf2, o + JOBLEN_SIZE, |p|);
    assert buf2[o + JOBLEN_SIZE .. o + JOBLEN_SIZE + |p|] == Record(p)[JOBLEN_SIZE..] by {
      assert buf2[o + JOBLEN_SIZE .. o + JOBLEN_SIZE + |p|] == buf2[o .. o + |Record(p)|][JOBLEN_SIZE..];
    }
  }

  /** Storing a record at the writer's offset appends it to the queue. */
  lemma WriteKeeps(buf: seq<byte>, L: int, M: int, r: nat, w: nat, dirty: int, p: seq<byte>)
    requires Walkable(buf, L, M, r, w, dirty) && !InPadZone(L, M, Off(w, L)) && Admissible(M, p)
    requires w + JOBLEN_SIZE + |p| - r <= L
    ensures var buf2 := Poke(buf, Off(w, L), Record(p));
      Listed(buf2, L, M, r, w + JOBLEN_SIZE + |p|, dirty) &&
      Contents(buf2, L, M, r, w + JOBLEN_SIZE + |p|, dirty) == Contents(buf, L, M, r, w, dirty) + [p]
  {
    var buf2 := Poke(buf, Off(w, L), Record(p));
    var k := JOBLEN_SIZE + |p|;
    var f := Steps(buf2, L, M, dirty);
    PokeFrame(buf, L, M, dirty, r, w, Record(p));
    ReadRecord(buf, L, M, dirty, w, p);
    assert f(w) == Item(w + k, p);
    WalkSnoc(f, r, w, k, p);
    OffShift(w, k, L);
  }

  /** The writer's pad: inside the writer's lap it leaves the queue as it is and moves the writer to the next lap. */
  lemma PadKeeps(buf: seq<byte>, L: int, M: int, r: nat, w: nat, dirty: int)
    requires Walkable(buf, L, M, r, w, dirty) && InPadZone(L, M, Off(w, L)) && LapStart(w, L) <= r
    ensures var pad := L - Off(w, L);
      w + pad == LapStart(w, L) + L && Off(w + pad, L) == 0 &&
      Walkable(buf, L, M, r, w + pad, pad) &&
      Contents(buf, L, M, r, w + pad, pad) == Contents(buf, L, M, r, w, dirty)
  {
    var pad := L - Off(w, L);
    var f := Steps(buf, L, M, pad);
    StepsIgnoreDirty(buf, L, M, dirty, pad, r, w);
    assert f(w) == Skip(w + pad);
    WalkSnocPad(f, r, w, pad);
    LapStartOffset(w, L);
  }

  /** Where push stores its record: at the writer's counter, or at the next lap start when the writer must pad. */
  function PushAt(L: int, M: int, w: nat): (c: nat)
    requires Geometry(L, M)
    ensures !InPadZone(L, M, Off(c, L))
    ensures c == w + Pad(L, M, w) && (Pad(L, M, w) > 0 ==> c == LapStart(w, L) + L && Off(c, L) == 0)
  {
    LapStartOffset(w, L);
    w + Pad(L, M, w)
  }

  /** The pad width after a push: the new pad if the writer padded, the old one otherwise. */
  function PushDirty(L: int, M: int, w: nat, dirty: int): int
    requires Geometry(L, M)
  {
    if Pad(L, M, w) > 0 then Pad(L, M, w) else dirty
  }

  /** The buffer after a push of p. */
  function Pushed(buf: seq<byte>, L: int, M: int, w: nat, p: seq<byte>): (s: seq<byte>)
    requires Geometry(L, M) && |buf| == L && Admissible(M, p)
    ensures |s| == L
  {
    Poke(buf, Off(PushAt(L, M, w), L), Record(p))
  }

  /** A padded push: pad, then store the record at the next lap start. */
  lemma PaddedPushKeeps(buf: seq<byte>, L: int, M: int, r: nat, w: nat, dirty: int, p: seq<byte>)
    requires Walkable(buf, L, M, r, w, dirty) && Admissible(M, p)
    requires InPadZone(L, M, Off(w, L)) && !Full(L, M, r, w, |p|)
    ensures var c := PushAt(L, M, w); var buf2 := Pushed(buf, L, M, w, p);
      Listed(buf2, L, M, r, c + JOBLEN_SIZE + |p|, L - Off(w, L)) &&
      Contents(buf2, L, M, r, c + JOBLEN_SIZE + |p|, L - Off(w, L)) == Contents(buf, L, M, r, w, dirty) + [p]
  {
    var c := PushAt(L, M, w);
    PadKeeps(buf, L, M, r, w, dirty);
    WriteKeeps(buf, L, M, r, c, L - Off(w, L), p);
  }

  /** A push the corrected full test admits appends its payload to the queue. */
  lemma PushKeeps(buf: seq<byte>, L: int, M: int, r: nat, w: nat, dirty: int, p: seq<byte>)
    requires Listed(buf, L, M, r, w, dirty) && Admissible(M, p) && !Full(L, M, r, w, |p|)
    ensures var c := PushAt(L, M, w) + JOBLEN_SIZE + |p|; var buf2 := Pushed(buf, L, M, w, p);
      var dirty2 := PushDirty(L, M, w, dirty);
      Listed(buf2, L, M, r, c, dirty2) && Contents(buf2, L, M, r, c, dirty2) == Contents(buf, L, M, r, w, dirty) + [p]
  {
    if Pad(L, M, w) > 0 {
      PaddedPushKeeps(buf, L, M, r, w, dirty, p);
    } else {
      WriteKeeps(buf, L, M, r, w, dirty, p);
    }
  }

  // ---------------------------------------------------------------------
  // Reading

  /** The queue is empty exactly when the two counters meet. */
  lemma EmptyIff(buf: seq<byte>, L: int, M: int, r: nat, w: nat, dirty: int)
    requires Listed(buf, L, M, r, w, dirty)
    ensures Contents(buf, L, M, r, w, dirty) == [] <==> r == w
  {
    if r < w {
      var f := Steps(buf, L, M, dirty);
      WalkStep(f, r, w);
      assert f(r) == Next(buf, L, M, dirty, r);
      if f(r).Skip? {
        var q := f(r).next;
        LapStartOffset(r, L);
        assert q == LapStart(r, L) + L;
        WalkStep(f, q, w);
        assert f(q) == Next(buf, L, M, dirty, q);
      }
    }
  }

  /** A reader at the pad of a non-empty list skips exactly the pad and lands at a lap start. */
  lemma SkipPad(buf: seq<byte>, L: int, M: int, r: nat, w: nat, dirty: int)
    requires Listed(buf, L, M, r, w, dirty) && r < w && InPadZone(L, M, Off(r, L))
    ensures dirty == L - Off(r, L) && r + dirty < w && Off(r + dirty, L) == 0
    ensures Listed(buf, L, M, r + dirty, w, dirty)
    ensures Contents(buf, L, M, r + dirty, w, dirty) == Contents(buf, L, M, r, w, dirty)
  {
    var f := Steps(buf, L, M, dirty);
    WalkStep(f, r, w);
    assert f(r) == Next(buf, L, M, dirty, r);
    LapStartOffset(r, L);
    SkipStep(f, r, w, dirty);
  }

  /** A reader outside the pad zone of a non-empty list stands at the first record. */
  lemma Head(buf: seq<byte>, L: int, M: int, r: nat, w: nat, dirty: int)
    requires Listed(buf, L, M, r, w, dirty) && r < w && !InPadZone(L, M, Off(r, L))
    ensures var o := Off(r, L); var n := Len(buf, o);
      0 < n < M && o + JOBLEN_SIZE + n < L &&
      Contents(buf, L, M, r, w, dirty) != [] &&
      Contents(buf, L, M, r, w, dirty)[0] == buf[o + JOBLEN_SIZE .. o + JOBLEN_SIZE + n] &&
      Listed(buf, L, M, r + JOBLEN_SIZE + n, w, dirty) &&
      Contents(buf, L, M, r + JOBLEN_SIZE + n, w, dirty) == Contents(buf, L, M, r, w, dirty)[1..]
  {
    var f := Steps(buf, L, M, dirty);
    var o := Off(r, L);
    WalkStep(f, r, w);
    assert f(r) == Next(buf, L, M, dirty, r);
    SpanSlice(buf, o + JOBLEN_SIZE, Len(buf, o));
  }

  // ---------------------------------------------------------------------
  // Resizing

  /**
   * A wrapped list (the writer's offset not past the reader's) with the
   * reader at a record: the reader's part runs up to the pad of the reader's
   * lap, the writer's part from the next lap start Q to the writer.
   */
  lemma WrapLaps(L: int, r: nat, w: nat)
    requires L >= 1 && r < w <= r + L && Off(w, L) <= Off(r, L)
    ensures LapStart(r, L) + L == LapStart(w, L)
  {
    var Q := LapStart(w, L);
    LapStartOffset(w, L);
    SameLapStart(r, w, L);
    LapStartStep(Q, L);
    SameLapStart(r, Q - L, L);
  }

  lemma WrapLayout(buf: seq<byte>, L: int, M: int, r: nat, w: nat, dirty: int) returns (p: nat)
    requires Walkable(buf, L, M, r, w, dirty) && r < w
    requires !InPadZone(L, M, Off(r, L)) && Off(w, L) <= Off(r, L)
    ensures var Q := LapStart(w, L); var f := Steps(buf, L, M, dirty);
      LapStart(r, L) + L == Q && p == Q - dirty && r < p && 0 < dirty && Off(r, L) + dirty < L &&
      Walk(f, r, p).Some? && Walk(f, Q, w).Some? &&
      Contents(buf, L, M, r, w, dirty) == Walk(f, r, p).value + Walk(f, Q, w).value
  {
    var f := Steps(buf, L, M, dirty);
    WrapLaps(L, r, w);
    StepsInLaps(buf, L, M, dirty);
    var Q := LapStart(w, L);
    p := SplitAtLapEnd(f, L, r, Q, w);
    assert f(p) == Next(buf, L, M, dirty, p);
    SameLapStart(p, r, L);
    assert p == Q - dirty;
  }

  /**
   * Resize pads a writer in the pad zone before copying. With the reader at
   * a record of a non-empty list, a writer in the pad zone shares the
   * reader's lap, so the pad keeps the queue.
   */
  lemma PadWriter(buf: seq<byte>, L: int, M: int, r: nat, w: nat, dirty: int)
    requires Listed(buf, L, M, r, w, dirty) && r < w && !InPadZone(L, M, Off(r, L))
    ensures Walkable(buf, L, M, r, PushAt(L, M, w), PushDirty(L, M, w, dirty))
    ensures Contents(buf, L, M, r, PushAt(L, M, w), PushDirty(L, M, w, dirty)) == Contents(buf, L, M, r, w, dirty)
  {
    if Pad(L, M, w) > 0 {
      EarlierLap(r, w, L);
      PadKeeps(buf, L, M, r, w, dirty);
    }
  }

  /** The bytes resize keeps from a wrapped list: the reader's part, then the writer's part. */
  function Unread(buf: seq<byte>, L: int, r: nat, w: nat, dirty: int): (u: seq<byte>)
    requires |buf| == L >= 1 && 0 <= dirty && Off(r, L) + dirty <= L
    ensures |u| == (L - dirty - Off(r, L)) + Off(w, L)
  {
    buf[Off(r, L) .. L - dirty] + buf[..Off(w, L)]
  }

  /** Copying the bytes of a walk from inside one lap to offset o of another buffer keeps what the walk reads. */
  lemma CopySegment(buf: seq<byte>, L: int, dirty: int, a: nat, b: nat, buf2: seq<byte>, L2: int, d2: int, M: int, o: nat, e: nat)
    requires Geometry(L, M) && |buf| == L && Geometry(L2, M) && |buf2| == L2
    requires a <= b < LapStart(a, L) + L && e == o + (b - a) && e + M + JOBLEN_SIZE <= L2
    requires buf[Off(a, L) .. Off(a, L) + (b - a)] == buf2[o .. e]
    requires Walk(Steps(buf, L, M, dirty), a, b).Some?
    ensures Walk(Steps(buf2, L2, M, d2), o, e) == Walk(Steps(buf, L, M, dirty), a, b)
  {
    OffBelow(o, L2);
    SliceAgree(buf, Off(a, L), buf2, o, b - a);
    Relocate(buf, L, dirty, a, b, buf2, L2, d2, M, o, e);
  }

  /**
   * Laying a wrapped list out from offset 0 of a buffer twice as large keeps
   * the queue; the new writer counter is the old distance minus the pad.
   */
  lemma Relinearize(buf: seq<byte>, L: int, M: int, r: nat, w: nat, dirty: int, buf2: seq<byte>, d2: int)
    requires Walkable(buf, L, M, r, w, dirty) && r < w
    requires !InPadZone(L, M, Off(r, L)) && Off(w, L) <= Off(r, L)
    requires 0 <= dirty && Off(r, L) + dirty <= L
    requires Geometry(2 * L, M) && |buf2| == 2 * L
    requires var u := Unread(buf, L, r, w, dirty); buf2[..|u|] == u
    ensures var u := Unread(buf, L, r, w, dirty);
      |u| == w - r - dirty && Listed(buf2, 2 * L, M, 0, |u|, d2) &&
      Contents(buf2, 2 * L, M, 0, |u|, d2) == Contents(buf, L, M, r, w, dirty)
  {
    var p := WrapLayout(buf, L, M, r, w, dirty);
    var Q := LapStart(w, L);
    var B := buf[Off(r, L) .. L - dirty];
    var F := buf[..Off(w, L)];
    var u := B + F;
    LapStartOffset(w, L);
    assert |B| == p - r && Off(Q, L) == 0 && LapStart(Q, L) == Q && w - Q == |F|;
    assert buf2[0 .. |B|] == B by {
      assert buf2[0 .. |B|] == buf2[..|u|][..|B|];
    }
    assert buf2[|B| .. |B| + |F|] == F by {
      assert buf2[|B| .. |B| + |F|] == buf2[..|u|][|B|..];
    }
    CopySegment(buf, L, dirty, r, p, buf2, 2 * L, d2, M, 0, |B|);
    CopySegment(buf, L, dirty, Q, w, buf2, 2 * L, d2, M, |B|, |u|);
    WalkAppend(Steps(buf2, 2 * L, M, d2), 0, |B|, |u|);
    OffBelow(|u|, 2 * L);
  }

  /** After a resize lays the list out from offset 0 of a buffer twice as large, no admissible push is full. */
  lemma RoomAfterGrow(L: int, M: int, w: nat)
    requires Geometry(L, M) && Geometry(2 * L, M) && w <= L
    ensures Roomy(2 * L, M, 0, w)
  {
    OffBelow(w, 2 * L);
  }

  /**
   * When resize finds the writer, after any pad, past the reader in the
   * same lap, the writer did not pad and any admissible record fits beside
   * the unread bytes: no push is full.
   */
  lemma RoomInOneLap(L: int, M: int, r: nat, w: nat)
    requires Geometry(L, M) && r < w <= r + L && Off(r, L) < Off(PushAt(L, M, w), L)
    ensures Pad(L, M, w) == 0 && Roomy(L, M, r, w)
  {
    assert Pad(L, M, w) == 0;
    EarlierLap(r, w, L);
  }
}
