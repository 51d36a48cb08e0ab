/**
 * The header arithmetic of both job lists as the source writes it: the
 * writer's pad, the reader's skip, the full tests and the sizes resize copies
 * with, with concrete states on which it goes wrong. The bytes the copies
 * move are not modelled here. The rest of the project models
 * the corrected protocol; each lemma here names the input that separates the
 * two. Counters are the header fields: w (wSize / wsize), r (rSize / rsize)
 * and the recorded pad width dirty (dirtysize).
 */
module AsWritten {
  import opened Bytes
  import opened ModArith
  import opened Ring
  import opened Persistence
  import Queue

  datatype Header = Header(w: nat, r: nat, dirty: int)

  /** _backJobListWsize / _getjoblistWidx as written: the writer pads when off + M > L, without the length prefix. */
  function PadWriter(L: int, M: int, h: Header): (Header, nat)
    requires L >= 1
  {
    var o := Off(h.w, L);
    if o + M > L then (Header(h.w + (L - o), h.r, L - o), 0) else (h, o)
  }

  /** _backJobListRsize / _getjoblistRidx as written: the reader skips when off + M > L, whether or not the list is empty. */
  function SkipReader(L: int, M: int, h: Header): (Header, nat)
    requires L >= 1
  {
    var o := Off(h.r, L);
    if o + M > L then (Header(h.w, h.r + (L - o), h.dirty), 0) else (h, o)
  }

  /** The assertion the reader makes before it skips (joblist.c:193, persistence.c:318). */
  predicate SkipAsserted(L: int, M: int, h: Header)
    requires L >= 1
  {
    var o := Off(h.r, L);
    o + M > L ==> h.dirty == L - o
  }

  /** _isJobListFull(this, len) as written: the pad the writer may still add is not counted. */
  predicate JoblistFull(L: int, h: Header, len: int)
  {
    h.w + len + JOBLEN_SIZE - h.r > L
  }

  /** _isjoblistfull(pushsize) as written. */
  predicate PersistenceFull(L: int, h: Header, pushsize: int)
  {
    h.w + pushsize - h.r > L
  }

  /**
   * The pad zone test leaves out the length prefix: a writer at offset 6144
   * of a 16384-byte list does not pad, and a record of the largest length
   * push accepts then ends 3 bytes past the buffer.
   */
  lemma PadZoneOverrun()
    ensures var h := Header(6144, 6144, 0); var len := MAX_PERSISTENCE_BUF_SIZE - 1;
      PadWriter(16384, MAX_PERSISTENCE_BUF_SIZE, h) == (h, 6144) &&
      6144 + JOBLEN_SIZE + len == 16384 + 3
  {
  }

  /**
   * pushJobList tests fullness before the writer pads: with the reader at
   * offset 0 and the writer at 11 of a 16-byte list (records under 8 bytes),
   * a 1-byte push is not full, but after the 5-byte pad its record lands on
   * offset 0, over the unread record there.
   */
  lemma FullBeforePad()
    ensures var h := Header(11, 0, 0); var p := PadWriter(16, 8, h);
      !JoblistFull(16, h, 1) && p == (Header(16, 0, 5), 0) &&
      p.0.w + JOBLEN_SIZE + 1 - h.r > 16
  {
  }

  /**
   * _resizeJobListEnd pads the writer before the reader has skipped its own
   * pad: with the reader at the 6-byte pad at offset 10 and the writer at
   * offset 9 of the next lap, the writer's pad overwrites dirtysize and the
   * reader's assertion then fails.
   */
  lemma ResizePadsWriterFirst()
    ensures var h := Header(25, 10, 6); var p := PadWriter(16, 8, h);
      JoblistFull(16, h, 1) && SkipAsserted(16, 8, h) &&
      p.0 == Header(32, 10, 7) && !SkipAsserted(16, 8, p.0)
  {
  }

  /**
   * _popJobList lets the reader skip before it tests for emptiness: once the
   * only job of a fresh list, a 6996-byte one, is consumed, both counters
   * stand at offset 7000, inside the pad zone, no pad was ever written, and
   * the reader's assertion fails on the next pop.
   */
  lemma EmptyListSkip()
    ensures var h := Header(7000, 7000, 0);
      h.r == h.w && !SkipAsserted(16384, MAX_PERSISTENCE_BUF_SIZE, h)
  {
  }

  /**
   * _pushJobList pads the writer before its full test: with the reader on a
   * pad of 8384 bytes at offset 8000 and the writer at offset 7000 of the
   * next lap, the writer's 9384-byte pad overwrites dirtysize, the push is
   * full, and on the next pop the reader's skip at the top of _popJobList
   * fails its assertion, before the resize is reached.
   */
  lemma PadBeforeFull()
    ensures var h := Header(23384, 8000, 8384); var p := PadWriter(16384, MAX_PERSISTENCE_BUF_SIZE, h);
      SkipAsserted(16384, MAX_PERSISTENCE_BUF_SIZE, h) &&
      p.0 == Header(32768, 8000, 9384) && PersistenceFull(16384, p.0, 1 + JOBLEN_SIZE) &&
      !SkipAsserted(16384, MAX_PERSISTENCE_BUF_SIZE, p.0)
  {
  }

  /**
   * A push that is full while reader and writer share a lap: with the reader
   * at 0 and the writer at 6144, a push of the largest length is full, and
   * _resizeJobListEnd then finds widx 6144 > ridx 0 and its assertion fails.
   */
  lemma SameLapResize()
    ensures var h := Header(6144, 0, 0); var M := MAX_PERSISTENCE_BUF_SIZE;
      PadWriter(16384, M, h) == (h, 6144) &&
      PersistenceFull(16384, h, M - 1 + JOBLEN_SIZE) &&
      SkipReader(16384, M, h) == (h, 0) && !(PadWriter(16384, M, h).1 <= SkipReader(16384, M, h).1)
  {
  }

  /** backuplen as _resizeJobListEnd takes it, from the header before either index call (joblist.c:73, persistence.c:119). */
  function BackupLen(h: Header): int
  {
    h.w - h.r - h.dirty
  }

  /** The writer counter _resizeJobListEnd sets: the bytes behind the reader up to the pad, plus the bytes before the writer. */
  function ResizedW(L: int, ridx: int, dirty: int, widx: int): int
  {
    (L - ridx - dirty) + widx
  }

  /**
   * pushJobList refuses only a length of maxBufSize or more, so a zero-length
   * push is stored as a bare length prefix holding 0, and the pop that reads
   * it fails its assertion len > 0.
   */
  lemma ZeroLengthPush()
    ensures var h := Header(0, 0, 0); var len := 0;
      !(len >= MAX_PERSISTENCE_BUF_SIZE) && !JoblistFull(16384, h, len) &&
      PadWriter(16384, MAX_PERSISTENCE_BUF_SIZE, h) == (h, 0) &&
      DecodeInt(EncodeInt(len)) == 0 && !(DecodeInt(EncodeInt(len)) > 0)
  {
    DecodeEncode(0);
  }

  /**
   * joblist.c with a list the consumer empties while a resize is pending:
   * a 9996-byte job takes the writer to 10000, a second one is full, and
   * once the first is consumed reader and writer meet. backuplen is then 0,
   * and the assertion backuplen > 0 fails.
   */
  lemma EmptiedJoblistResize()
    ensures JoblistFull(16384, Header(10000, 0, 0), 9996)
    ensures var h := Header(10000, 10000, 0); h.r == h.w && !(BackupLen(h) > 0)
  {
  }

  /**
   * The same steps on persistence.c: the second push pads the writer to
   * 16384 and is full; once the first job is consumed, the pop's reader
   * index skips the 6384-byte pad and meets the writer before the resize
   * starts. backuplen is then -6384: it passes the assertion <= 16384, it is
   * the size passed to zmalloc and to the final memcpy, and the new writer
   * counter is 10000, over bytes already consumed.
   */
  lemma EmptiedPersistenceResize()
    ensures var M := MAX_PERSISTENCE_BUF_SIZE;
      PadWriter(16384, M, Header(10000, 0, 0)) == (Header(16384, 0, 6384), 0) &&
      PersistenceFull(16384, Header(16384, 0, 6384), 9996 + JOBLEN_SIZE)
    ensures var M := MAX_PERSISTENCE_BUF_SIZE; var h := Header(16384, 10000, 6384); var s := SkipReader(16384, M, h);
      SkipAsserted(16384, M, h) && s == (Header(16384, 16384, 6384), 0) && s.0.r == s.0.w &&
      BackupLen(s.0) == -6384 && BackupLen(s.0) <= 16384 &&
      PadWriter(16384, M, s.0) == (s.0, 0) && ResizedW(16384, 0, 6384, 0) == 10000
  {
  }

  /**
   * The as-written pad and the corrected one differ only on the 4-byte strip
   * just before the pad zone: everywhere else they leave the same header and
   * return the same writer offset; on the strip only the corrected one pads.
   */
  lemma PadWriterAgrees(L: int, M: int, h: Header)
    requires Geometry(L, M)
    ensures var o, p := Off(h.w, L), Pad(L, M, h.w);
      (o + M > L || o + M + JOBLEN_SIZE <= L) ==>
        PadWriter(L, M, h) == (Header(h.w + p, h.r, if p > 0 then p else h.dirty), Off(h.w + p, L))
    ensures var o := Off(h.w, L);
      o + M <= L < o + M + JOBLEN_SIZE ==> PadWriter(L, M, h) == (h, o) && Pad(L, M, h.w) > 0
  {
    LapStartOffset(h.w, L);
  }

  /** The same for the reader's skip, which as written also leaves the recorded pad width alone. */
  lemma SkipReaderAgrees(L: int, M: int, h: Header)
    requires Geometry(L, M)
    ensures var o, p := Off(h.r, L), Pad(L, M, h.r);
      (o + M > L || o + M + JOBLEN_SIZE <= L) ==>
        SkipReader(L, M, h) == (Header(h.w, h.r + p, h.dirty), Off(h.r + p, L))
    ensures var o := Off(h.r, L);
      o + M <= L < o + M + JOBLEN_SIZE ==> SkipReader(L, M, h) == (h, o) && Pad(L, M, h.r) > 0
  {
    LapStartOffset(h.r, L);
  }

  /**
   * The corrected full test is the persistence.c test taken after the
   * corrected pad, and, for a writer that needs no pad, it is the joblist.c
   * test as written.
   */
  lemma FullTestsAgree(L: int, M: int, h: Header, len: int)
    requires Geometry(L, M)
    ensures Queue.Full(L, M, h.r, h.w, len) <==> PersistenceFull(L, Header(Queue.PushAt(L, M, h.w), h.r, h.dirty), len + JOBLEN_SIZE)
    ensures Pad(L, M, h.w) == 0 ==> (Queue.Full(L, M, h.r, h.w, len) <==> JoblistFull(L, h, len))
  {
  }

  /**
   * With the writer one lap past the reader, the size resize allocates
   * (backuplen) and the writer counter it sets (behind + front) agree; they
   * part only when the list is not wrapped, as on an emptied list.
   */
  lemma BackupLenOnWrap(L: int, h: Header)
    requires L >= 1 && LapStart(h.r, L) + L == LapStart(h.w, L)
    ensures ResizedW(L, Off(h.r, L), h.dirty, Off(h.w, L)) == BackupLen(h)
  {
  }
}
