/**
 * The older revision of the job list: a global manager PMgr holding the
 * capacity, the mask, the resize flag and the sleep counter, and pointing
 * at a JobList header (write and read counters, pad width) followed by the
 * bytes. Records may be at most MAX_PERSISTENCE_BUF_SIZE bytes long. As in
 * the other revision this is the corrected protocol run sequentially: a push
 * that finds the list full raises the flag and returns, and the next pop
 * performs the resize.
 */
module Persistence {
  import opened Bytes
  import opened ModArith
  import opened Bits
  import opened PowerOfTwo
  import opened Ring
  import opened Mem
  import opened Queue
  import opened Copies

  const MAX_CMD_ARGV: int := 1024
  const MAX_PERSISTENCE_BUF_SIZE: int := 10240

  const PERSISTENCE_RET_SIZE_OVERFLOW: int := -1
  const PERSISTENCE_RET_ARGC_OVERFLOW: int := -2
  const PERSISTENCE_RET_NOTFOUNDCMD: int := -3
  const PERSISTENCE_RET_KEYSIZE_EXCEED: int := -4
  const PERSISTENCE_RET_POPJOBLIST_EMPTY: int := -5
  const PERSISTENCE_RET_MMAP_ERROR: int := -6
  const PERSISTENCE_RET_PUSHJOBLIST_SUCCESS: int := 0
  const PERSISTENCE_RET_INIT_SUCCESS: int := 0
  const PERSISTENCE_RET_RESET_SUCCESS: int := 0
  /** Returned by a push that raised the resize flag; the source blocks there until the reader has resized. */
  const PERSISTENCE_RET_RESIZING: int := 1

  /** The value at which _waitSleep starts its counter again from 0. */
  const SLEEP_SUM_WRAP: int := 2147483640

  /** The failure codes, in the order of their values from -1 down. */
  const FAILURE_CODES: seq<int> := [PERSISTENCE_RET_SIZE_OVERFLOW, PERSISTENCE_RET_ARGC_OVERFLOW,
    PERSISTENCE_RET_NOTFOUNDCMD, PERSISTENCE_RET_KEYSIZE_EXCEED, PERSISTENCE_RET_POPJOBLIST_EMPTY,
    PERSISTENCE_RET_MMAP_ERROR]

  /**
   * The failure codes are negative and pairwise distinct, and the success
   * codes are 0, so no pop length (always positive) reads as a failure.
   */
  lemma CodesDistinct()
    ensures forall i, j :: 0 <= i < j < |FAILURE_CODES| ==> FAILURE_CODES[i] != FAILURE_CODES[j]
    ensures forall i :: 0 <= i < |FAILURE_CODES| ==> FAILURE_CODES[i] < 0
    ensures PERSISTENCE_RET_PUSHJOBLIST_SUCCESS == PERSISTENCE_RET_INIT_SUCCESS == PERSISTENCE_RET_RESET_SUCCESS == 0
  {
  }

  /** The record framing and size bounds the list is built on. */
  lemma RecordBounds()
    ensures JOBLEN_SIZE == 4 && MAX_PERSISTENCE_BUF_SIZE == 10240
    ensures Geometry(Pow2(14), MAX_PERSISTENCE_BUF_SIZE) && NextPot(MAX_PERSISTENCE_BUF_SIZE + JOBLEN_SIZE) == Pow2(14)
  {
    assert Pow2(13) == 8192 && Pow2(14) == 16384 by {
      assert Pow2(10) == 1024;
    }
    NextPotUnique(MAX_PERSISTENCE_BUF_SIZE + JOBLEN_SIZE, 14);
  }

  /**
   * The sleep counter after one more _waitSleep: a count of the calls
   * modulo the reset value, which therefore never reaches the int range's
   * end.
   */
  function NextSleepSum(s: int): (t: int)
    requires 0 <= s < SLEEP_SUM_WRAP
    ensures 0 <= t < SLEEP_SUM_WRAP && t == (s + 1) % SLEEP_SUM_WRAP
    ensures IsCInt(s + 1)
  {
    if s + 1 >= SLEEP_SUM_WRAP then 0 else s + 1
  }

  /** The counter after k calls of _waitSleep, starting from 0. */
  function SleepSumAfter(k: nat): (s: int)
    ensures 0 <= s < SLEEP_SUM_WRAP
  {
    if k == 0 then 0 else NextSleepSum(SleepSumAfter(k - 1))
  }

  /** After k calls the counter holds k modulo the reset value. */
  lemma {:induction false} SleepSumCounts(k: nat)
    ensures SleepSumAfter(k) == k % SLEEP_SUM_WRAP
  {
    if k > 0 {
      SleepSumCounts(k - 1);
      var q, s := (k - 1) / SLEEP_SUM_WRAP, (k - 1) % SLEEP_SUM_WRAP;
      if s + 1 < SLEEP_SUM_WRAP {
        DivModUnique(k, SLEEP_SUM_WRAP, q, s + 1);
      } else {
        DivModUnique(k, SLEEP_SUM_WRAP, q + 1, 0);
      }
    }
  }

  /** The list header: write and read counters and the pad width, with the bytes after it. */
  class JobList {
    var wsize: nat
    var rsize: nat
    var dirtysize: int
    var buf: array<byte>

    /** A zeroed header over a new buffer of n bytes: the branch of _initJoblist that creates the file. */
    constructor (n: nat)
      ensures wsize == 0 && rsize == 0 && dirtysize == 0 && buf.Length == n && fresh(buf)
    {
      wsize, rsize, dirtysize := 0, 0, 0;
      buf := new byte[n];
    }
  }

  class PMgr {
    var joblist: JobList?
    var joblistsize: int
    var joblistsizeMask: int
    var resize: bool
    var sleepSum: int
    /** The capacity is 2^log. */
    ghost var log: nat

    /** The layout is consistent and the reader's walk lists the queue. */
    ghost predicate Valid()
      reads this, joblist, if joblist == null then null else joblist.buf
    {
      joblist != null && Geometry(joblistsize, MAX_PERSISTENCE_BUF_SIZE) &&
      joblistsize == Pow2(log) && joblistsizeMask == joblistsize - 1 && joblist.buf.Length == joblistsize &&
      Listed(joblist.buf[..], joblistsize, MAX_PERSISTENCE_BUF_SIZE, joblist.rsize, joblist.wsize, joblist.dirtysize)
    }

    /** The queue of jobs the list holds, oldest first. */
    ghost function Jobs(): seq<seq<byte>>
      reads this, joblist, joblist.buf
      requires Valid()
    {
      Contents(joblist.buf[..], joblistsize, MAX_PERSISTENCE_BUF_SIZE, joblist.rsize, joblist.wsize, joblist.dirtysize)
    }

    /** The reader stands at the first job, of n bytes: what a successful pop leaves behind. */
    ghost predicate HeadAt(n: int)
      reads this, joblist, joblist.buf
      requires Valid()
    {
      Jobs() != [] && !InPadZone(joblistsize, MAX_PERSISTENCE_BUF_SIZE, Off(joblist.rsize, joblistsize)) && n == |Jobs()[0]|
    }

    /** _isjoblistempty. */
    predicate IsEmpty(): (e: bool)
      reads this, joblist, joblist.buf
      requires Valid()
      ensures e <==> Jobs() == []
    {
      EmptyIff(joblist.buf[..], joblistsize, MAX_PERSISTENCE_BUF_SIZE, joblist.rsize, joblist.wsize, joblist.dirtysize);
      joblist.rsize == joblist.wsize
    }

    /** _isjoblistfull, counting the pad the writer would add in front of the record. */
    predicate IsFull(pushsize: int): (f: bool)
      reads this, joblist
      requires joblist != null && Geometry(joblistsize, MAX_PERSISTENCE_BUF_SIZE)
      ensures f <==> PushAt(joblistsize, MAX_PERSISTENCE_BUF_SIZE, joblist.wsize) + (pushsize + JOBLEN_SIZE) - joblist.rsize > joblistsize
    {
      Full(joblistsize, MAX_PERSISTENCE_BUF_SIZE, joblist.rsize, joblist.wsize, pushsize)
    }

    /**
     * initPersistence without the file and the thread: no resize pending,
     * the sleep counter at 0, and an empty list of NEXT_POT(joblistsize) bytes.
     */
    constructor (joblistsize: int)
      requires 1 <= joblistsize <= POT_LIMIT && Geometry(NextPot(joblistsize), MAX_PERSISTENCE_BUF_SIZE)
      ensures Valid() && Jobs() == [] && !resize && sleepSum == 0
      ensures this.joblistsize == NextPot(joblistsize)
      ensures fresh(joblist) && fresh(joblist.buf)
    {
      resize := false;
      sleepSum := 0;
      joblist := null;
      this.joblistsize := 0;
      joblistsizeMask := 0;
      new;
      InitJoblist(joblistsize);
      NextPotUnique(joblistsize, log);
    }

    /** _initJoblist without a backing file: a fresh zeroed header and buffer of NEXT_POT(size) bytes. */
    method InitJoblist(size: int)
      requires 1 <= size <= POT_LIMIT
      modifies this
      ensures joblist != null && fresh(joblist) && fresh(joblist.buf)
      ensures joblistsize == Pow2(log) && size <= joblistsize < 2 * size && joblistsizeMask == joblistsize - 1
      ensures joblist.wsize == 0 && joblist.rsize == 0 && joblist.dirtysize == 0 && joblist.buf.Length == joblistsize
      ensures resize == old(resize) && sleepSum == old(sleepSum)
    {
      var n, k := RoundUp(size);
      var j := new JobList(n);
      joblist, joblistsize, joblistsizeMask, log := j, n, n - 1, k;
    }

    /** _initJoblist(oldjoblistsize * 2) as resize calls it: rounding twice a power of two keeps it. */
    method InitDoubled()
      requires joblistsize == Pow2(log) && 2 * joblistsize <= POT_LIMIT
      modifies this
      ensures joblist != null && fresh(joblist) && fresh(joblist.buf)
      ensures joblistsize == 2 * old(joblistsize) == Pow2(log) && joblistsizeMask == joblistsize - 1
      ensures joblist.wsize == 0 && joblist.rsize == 0 && joblist.dirtysize == 0 && joblist.buf.Length == joblistsize
      ensures resize == old(resize) && sleepSum == old(sleepSum)
    {
      ghost var k := log;
      assert Pow2(k + 1) == 2 * joblistsize;
      InitJoblist(2 * joblistsize);
      Pow2Window(k + 1, log, Pow2(k + 1));
    }

    /** The offset of counter c, taken with the mask as the source does. */
    function Index(c: nat): (o: nat)
      reads this
      requires joblistsize == Pow2(log) && joblistsizeMask == joblistsize - 1
      ensures o == Off(c, joblistsize)
    {
      MaskIsMod(c, log);
      BitAnd(c, joblistsizeMask)
    }

    /** _getjoblistWidx: the offset the next record goes to, padding first when the writer is in the pad zone. */
    method GetWidx() returns (widx: int)
      requires Valid()
      modifies joblist
      ensures widx == Off(PushAt(joblistsize, MAX_PERSISTENCE_BUF_SIZE, old(joblist.wsize)), joblistsize)
      ensures joblist.wsize == PushAt(joblistsize, MAX_PERSISTENCE_BUF_SIZE, old(joblist.wsize))
      ensures joblist.dirtysize == PushDirty(joblistsize, MAX_PERSISTENCE_BUF_SIZE, old(joblist.wsize), old(joblist.dirtysize))
      ensures joblist.rsize == old(joblist.rsize) && joblist.buf == old(joblist.buf)
    {
      widx := Index(joblist.wsize);
      if widx + MAX_PERSISTENCE_BUF_SIZE + JOBLEN_SIZE > joblistsize {
        joblist.dirtysize := joblistsize - widx;
        joblist.wsize := joblist.wsize + (joblistsize - widx);
        widx := 0;
      }
    }

    /**
     * _getjoblistRidx: the offset of the first job. A reader in the pad zone
     * of a non-empty list stands at the pad, whose width the writer
     * recorded, and skips it; on an empty list the reader stays.
     */
    method GetRidx() returns (ridx: int)
      requires Valid()
      modifies joblist
      ensures Valid() && Jobs() == old(Jobs())
      ensures ridx == Off(joblist.rsize, joblistsize)
      ensures Jobs() != [] ==> !InPadZone(joblistsize, MAX_PERSISTENCE_BUF_SIZE, ridx)
      ensures joblist.rsize == old(joblist.rsize) ||
        (old(Jobs()) != [] && joblist.rsize == old(joblist.rsize) + joblist.dirtysize)
      ensures joblist.wsize == old(joblist.wsize) && joblist.dirtysize == old(joblist.dirtysize) && joblist.buf == old(joblist.buf)
    {
      ridx := Index(joblist.rsize);
      ghost var buf := joblist.buf[..];
      EmptyIff(buf, joblistsize, MAX_PERSISTENCE_BUF_SIZE, joblist.rsize, joblist.wsize, joblist.dirtysize);
      if ridx + MAX_PERSISTENCE_BUF_SIZE + JOBLEN_SIZE > joblistsize && joblist.rsize != joblist.wsize {
        SkipPad(buf, joblistsize, MAX_PERSISTENCE_BUF_SIZE, joblist.rsize, joblist.wsize, joblist.dirtysize);
        assert joblist.dirtysize == joblistsize - ridx;
        joblist.rsize := joblist.rsize + (joblistsize - ridx);
        ridx := 0;
      }
    }

    /** _incJoblistWriteidx. */
    method IncWriteidx(inc: int)
      requires joblist != null && inc >= 0
      modifies joblist
      ensures joblist.wsize == old(joblist.wsize) + inc
      ensures joblist.rsize == old(joblist.rsize) && joblist.dirtysize == old(joblist.dirtysize) && joblist.buf == old(joblist.buf)
    {
      joblist.wsize := joblist.wsize + inc;
    }

    /** _incJoblistReadidx: the consumer is done with the first job, whose record takes inc bytes. */
    method IncReadidx(inc: int)
      requires Valid() && HeadAt(inc - JOBLEN_SIZE)
      modifies joblist
      ensures Valid() && Jobs() == old(Jobs())[1..]
      ensures joblist.rsize == old(joblist.rsize) + inc
      ensures joblist.wsize == old(joblist.wsize) && joblist.dirtysize == old(joblist.dirtysize) && joblist.buf == old(joblist.buf)
    {
      Head(joblist.buf[..], joblistsize, MAX_PERSISTENCE_BUF_SIZE, joblist.rsize, joblist.wsize, joblist.dirtysize);
      joblist.rsize := joblist.rsize + inc;
    }

    /** _resizeJobListStart without the wait: raise the flag for the reader. */
    method ResizeStart()
      requires !resize
      modifies this
      ensures resize
      ensures joblistsize == old(joblistsize) && joblistsizeMask == old(joblistsizeMask)
      ensures joblist == old(joblist) && log == old(log) && sleepSum == old(sleepSum)
    {
      resize := true;
    }

    /**
     * The write half of _pushJobList: pad if the writer is in the pad zone,
     * store the payload and the length, advance the writer.
     */
    method Append(wbuf: seq<byte>)
      requires Valid() && 0 < |wbuf| < MAX_PERSISTENCE_BUF_SIZE && !IsFull(|wbuf|)
      modifies joblist, joblist.buf
      ensures Valid() && Jobs() == old(Jobs()) + [wbuf] && joblist.buf == old(joblist.buf)
      ensures joblist.rsize == old(joblist.rsize)
      ensures joblist.wsize == PushAt(joblistsize, MAX_PERSISTENCE_BUF_SIZE, old(joblist.wsize)) + JOBLEN_SIZE + |wbuf|
      ensures joblist.dirtysize == PushDirty(joblistsize, MAX_PERSISTENCE_BUF_SIZE, old(joblist.wsize), old(joblist.dirtysize))
      ensures joblist.buf[..] == Pushed(old(joblist.buf[..]), joblistsize, MAX_PERSISTENCE_BUF_SIZE, old(joblist.wsize), wbuf)
    {
      ghost var buf0, r0, w0, d0 := joblist.buf[..], joblist.rsize, joblist.wsize, joblist.dirtysize;
      PushKeeps(buf0, joblistsize, MAX_PERSISTENCE_BUF_SIZE, r0, w0, d0, wbuf);
      var widx := GetWidx();
      StorePayloadFirst(joblist.buf, widx, wbuf);
      IncWriteidx(|wbuf| + JOBLEN_SIZE);
    }

    /**
     * _pushJobList. A record of MAX_PERSISTENCE_BUF_SIZE bytes or more is
     * refused; a push that would overrun unread bytes raises the resize flag
     * and changes nothing else; otherwise the job joins the end of the queue.
     */
    method Push(wbuf: seq<byte>) returns (ret: int)
      requires Valid() && !resize && |wbuf| > 0
      modifies this, joblist, joblist.buf
      ensures Valid() && joblist == old(joblist) && joblistsize == old(joblistsize) && sleepSum == old(sleepSum)
      ensures ret == PERSISTENCE_RET_SIZE_OVERFLOW <==> |wbuf| >= MAX_PERSISTENCE_BUF_SIZE
      ensures ret == PERSISTENCE_RET_RESIZING <==> |wbuf| < MAX_PERSISTENCE_BUF_SIZE && old(IsFull(|wbuf|))
      ensures ret == PERSISTENCE_RET_PUSHJOBLIST_SUCCESS <==> |wbuf| < MAX_PERSISTENCE_BUF_SIZE && !old(IsFull(|wbuf|))
      ensures resize <==> ret == PERSISTENCE_RET_RESIZING
      ensures ret != PERSISTENCE_RET_PUSHJOBLIST_SUCCESS ==> unchanged(joblist) && unchanged(joblist.buf)
      ensures ret == PERSISTENCE_RET_PUSHJOBLIST_SUCCESS ==> Jobs() == old(Jobs()) + [wbuf] && joblist.buf == old(joblist.buf)
      ensures ret != PERSISTENCE_RET_PUSHJOBLIST_SUCCESS ==> Jobs() == old(Jobs())
    {
      if |wbuf| >= MAX_PERSISTENCE_BUF_SIZE {
        return PERSISTENCE_RET_SIZE_OVERFLOW;
      }
      if IsFull(|wbuf|) {
        ResizeStart();
        return PERSISTENCE_RET_RESIZING;
      }
      Append(wbuf);
      return PERSISTENCE_RET_PUSHJOBLIST_SUCCESS;
    }

    /** addPersistenceJob: a non-positive length is refused, otherwise the first len bytes are pushed. */
    method AddPersistenceJob(wbuf: seq<byte>, len: int) returns (ret: int)
      requires Valid() && !resize && len <= |wbuf|
      modifies this, joblist, joblist.buf
      ensures Valid() && joblist == old(joblist) && joblistsize == old(joblistsize) && sleepSum == old(sleepSum)
      ensures len <= 0 ==> ret == PERSISTENCE_RET_SIZE_OVERFLOW && unchanged(this) && unchanged(joblist) && unchanged(joblist.buf)
      ensures ret == PERSISTENCE_RET_SIZE_OVERFLOW <==> len <= 0 || len >= MAX_PERSISTENCE_BUF_SIZE
      ensures ret == PERSISTENCE_RET_PUSHJOBLIST_SUCCESS <==> 0 < len < MAX_PERSISTENCE_BUF_SIZE && !old(IsFull(len))
      ensures ret == PERSISTENCE_RET_RESIZING <==> 0 < len < MAX_PERSISTENCE_BUF_SIZE && old(IsFull(len))
      ensures ret == PERSISTENCE_RET_PUSHJOBLIST_SUCCESS ==> Jobs() == old(Jobs()) + [wbuf[..len]] && joblist.buf == old(joblist.buf)
      ensures ret != PERSISTENCE_RET_PUSHJOBLIST_SUCCESS ==> Jobs() == old(Jobs())
    {
      if len > 0 {
        ret := Push(wbuf[..len]);
      } else {
        ret := PERSISTENCE_RET_SIZE_OVERFLOW;
      }
    }

    /** The empty branch of resize: a fresh empty list of twice the capacity, in which no admissible push is full. */
    method Regrow()
      requires joblist != null && Geometry(joblistsize, MAX_PERSISTENCE_BUF_SIZE) && joblistsize == Pow2(log) && 2 * joblistsize <= POT_LIMIT
      modifies this
      ensures Valid() && Jobs() == [] && joblistsize == 2 * old(joblistsize) && joblist.rsize == 0 && joblist.wsize == 0
      ensures resize == old(resize) && sleepSum == old(sleepSum) && fresh(joblist) && fresh(joblist.buf)
      ensures Roomy(joblistsize, MAX_PERSISTENCE_BUF_SIZE, joblist.rsize, joblist.wsize)
    {
      ghost var L := joblistsize;
      InitDoubled();
      EmptyIff(joblist.buf[..], joblistsize, MAX_PERSISTENCE_BUF_SIZE, 0, 0, 0);
      RoomAfterGrow(L, MAX_PERSISTENCE_BUF_SIZE, 0);
    }

    /**
     * A fresh list twice the size holding the saved bytes from offset 0,
     * with the writer after them. The header lives in the same file as
     * before, so the pad width dirty stays.
     */
    method LayOut(backup: array<byte>, dirty: int)
      requires joblistsize == Pow2(log) && 2 * joblistsize <= POT_LIMIT && backup.Length <= 2 * joblistsize
      modifies this
      ensures joblist != null && fresh(joblist) && fresh(joblist.buf) && joblist.buf != backup
      ensures joblistsize == 2 * old(joblistsize) == Pow2(log) && joblistsizeMask == joblistsize - 1 && joblist.buf.Length == joblistsize
      ensures joblist.buf[..backup.Length] == backup[..]
      ensures joblist.wsize == backup.Length && joblist.rsize == 0 && joblist.dirtysize == dirty
      ensures resize == old(resize) && sleepSum == old(sleepSum)
    {
      InitDoubled();
      joblist.wsize := backup.Length;
      joblist.rsize := 0;
      joblist.dirtysize := dirty;
      ghost var zeros := joblist.buf[..];
      Copy(joblist.buf, 0, backup, 0, backup.Length);
      assert joblist.buf[..] == Poke(zeros, 0, backup[..]);
    }

    /**
     * The wrapped branch of resize: the unread bytes laid out from offset 0
     * of a fresh buffer twice the size, with the reader at 0.
     */
    method Relayout(ridx: int, widx: int)
      requires joblist != null && Geometry(joblistsize, MAX_PERSISTENCE_BUF_SIZE) && joblistsize == Pow2(log) && 2 * joblistsize <= POT_LIMIT
      requires joblist.buf.Length == joblistsize
      requires Walkable(joblist.buf[..], joblistsize, MAX_PERSISTENCE_BUF_SIZE, joblist.rsize, joblist.wsize, joblist.dirtysize)
      requires joblist.rsize < joblist.wsize && ridx == Off(joblist.rsize, joblistsize) && widx == Off(joblist.wsize, joblistsize)
      requires !InPadZone(joblistsize, MAX_PERSISTENCE_BUF_SIZE, ridx) && widx <= ridx
      modifies this
      ensures Valid() && Jobs() == old(Contents(joblist.buf[..], joblistsize, MAX_PERSISTENCE_BUF_SIZE, joblist.rsize, joblist.wsize, joblist.dirtysize))
      ensures joblistsize == 2 * old(joblistsize) && resize == old(resize) && sleepSum == old(sleepSum)
      ensures joblist.wsize == old(joblist.wsize - joblist.rsize - joblist.dirtysize)
      ensures joblist.rsize == 0 && joblist.dirtysize == old(joblist.dirtysize) && fresh(joblist) && fresh(joblist.buf)
      ensures Roomy(joblistsize, MAX_PERSISTENCE_BUF_SIZE, joblist.rsize, joblist.wsize)
    {
      ghost var L, buf0, r, w, d := joblistsize, joblist.buf[..], joblist.rsize, joblist.wsize, joblist.dirtysize;
      ghost var p := WrapLayout(buf0, L, MAX_PERSISTENCE_BUF_SIZE, r, w, d);
      var dirty := joblist.dirtysize;
      var backup := SaveUnread(joblist.buf, ridx, dirty, widx, r, w);
      ghost var u := backup[..];
      LayOut(backup, dirty);
      Relinearize(buf0, L, MAX_PERSISTENCE_BUF_SIZE, r, w, d, joblist.buf[..], d);
      RoomAfterGrow(L, MAX_PERSISTENCE_BUF_SIZE, |u|);
    }

    /**
     * _resizeJobListEnd with the reader skipping its pad before the writer
     * pads. An empty list becomes a fresh list of twice the size; a list
     * whose writer is past its reader in one lap is kept as it is and only
     * the flag is cleared; a wrapped list has its unread bytes, the reader's
     * part then the writer's part, laid out from offset 0 of a buffer twice
     * the size. Afterwards no push of an admissible length is full.
     */
    method ResizeEnd() returns (ridx: int)
      requires Valid() && resize && 2 * joblistsize <= POT_LIMIT
      modifies this, joblist
      ensures Valid() && !resize && Jobs() == old(Jobs()) && sleepSum == old(sleepSum)
      ensures joblistsize == old(joblistsize) || joblistsize == 2 * old(joblistsize)
      ensures ridx == Off(joblist.rsize, joblistsize) && (Jobs() != [] ==> !InPadZone(joblistsize, MAX_PERSISTENCE_BUF_SIZE, ridx))
      ensures Roomy(joblistsize, MAX_PERSISTENCE_BUF_SIZE, joblist.rsize, joblist.wsize)
      ensures (joblist == old(joblist) && joblist.buf == old(joblist.buf)) || (fresh(joblist) && fresh(joblist.buf))
    {
      ridx := GetRidx();
      EmptyIff(joblist.buf[..], joblistsize, MAX_PERSISTENCE_BUF_SIZE, joblist.rsize, joblist.wsize, joblist.dirtysize);
      if joblist.rsize == joblist.wsize {
        Regrow();
        resize := false;
        ridx := Index(joblist.rsize);
        return;
      }
      ghost var L, buf0, r, w0, d0 := joblistsize, joblist.buf[..], joblist.rsize, joblist.wsize, joblist.dirtysize;
      PadWriter(buf0, L, MAX_PERSISTENCE_BUF_SIZE, r, w0, d0);
      var widx := GetWidx();
      if widx > ridx {
        RoomInOneLap(L, MAX_PERSISTENCE_BUF_SIZE, r, w0);
        resize := false;
        return;
      }
      Relayout(ridx, widx);
      resize := false;
      ridx := Index(joblist.rsize);
    }

    /** The read half of _popJobList: the first job's length prefix, and where its payload starts. */
    method ReadHead(ridx: int) returns (len: int, start: int)
      requires Valid() && Jobs() != [] && ridx == Off(joblist.rsize, joblistsize) && !InPadZone(joblistsize, MAX_PERSISTENCE_BUF_SIZE, ridx)
      ensures 0 < len < MAX_PERSISTENCE_BUF_SIZE && len == |Jobs()[0]| && start == ridx + JOBLEN_SIZE
      ensures start + len <= joblist.buf.Length && joblist.buf[start .. start + len] == Jobs()[0]
    {
      Head(joblist.buf[..], joblistsize, MAX_PERSISTENCE_BUF_SIZE, joblist.rsize, joblist.wsize, joblist.dirtysize);
      LenDecode(joblist.buf[..], ridx);
      len := DecodeInt(joblist.buf[ridx .. ridx + JOBLEN_SIZE]);
      assert len > 0 && len <= MAX_PERSISTENCE_BUF_SIZE;
      start := ridx + JOBLEN_SIZE;
    }

    /**
     * _popJobList: after a pending resize, the length of the first job and
     * the offset of its bytes in the buffer, or POPJOBLIST_EMPTY; the job
     * stays in the list until IncReadidx.
     */
    method Pop() returns (len: int, rbuf: int)
      requires Valid() && (resize ==> 2 * joblistsize <= POT_LIMIT)
      modifies this, joblist
      ensures Valid() && Jobs() == old(Jobs()) && !resize && sleepSum == old(sleepSum)
      ensures len == PERSISTENCE_RET_POPJOBLIST_EMPTY <==> Jobs() == []
      ensures len != PERSISTENCE_RET_POPJOBLIST_EMPTY ==>
        0 < len < MAX_PERSISTENCE_BUF_SIZE && HeadAt(len) && 0 <= rbuf && rbuf + len <= joblist.buf.Length &&
        joblist.buf[rbuf .. rbuf + len] == Jobs()[0]
      ensures old(resize) ==> Roomy(joblistsize, MAX_PERSISTENCE_BUF_SIZE, joblist.rsize, joblist.wsize)
      ensures !old(resize) ==> joblist == old(joblist) && joblistsize == old(joblistsize)
      ensures (joblist == old(joblist) && joblist.buf == old(joblist.buf)) || (fresh(joblist) && fresh(joblist.buf))
    {
      var ridx := GetRidx();
      if resize {
        ridx := ResizeEnd();
      }
      if IsEmpty() {
        return PERSISTENCE_RET_POPJOBLIST_EMPTY, 0;
      }
      len, rbuf := ReadHead(ridx);
    }

    /**
     * _pushJobList with its wait made sequential: a push that finds the list
     * full raises the flag, the persistence thread's next pop performs the
     * resize, and the retried push then finds room. Either way the queue
     * gains the job.
     */
    method PushThroughResize(wbuf: seq<byte>) returns (ret: int)
      requires Valid() && !resize && 0 < |wbuf| < MAX_PERSISTENCE_BUF_SIZE && 2 * joblistsize <= POT_LIMIT
      modifies this, joblist, joblist.buf
      ensures Valid() && !resize && ret == PERSISTENCE_RET_PUSHJOBLIST_SUCCESS && Jobs() == old(Jobs()) + [wbuf]
    {
      ret := Push(wbuf);
      if ret == PERSISTENCE_RET_RESIZING {
        var len, rbuf := Pop();
        ret := Push(wbuf);
      }
    }

    /** _waitSleep without the sleep: count one more wait. */
    method WaitSleep()
      requires 0 <= sleepSum < SLEEP_SUM_WRAP
      modifies this
      ensures sleepSum == NextSleepSum(old(sleepSum))
      ensures joblist == old(joblist) && joblistsize == old(joblistsize) && joblistsizeMask == old(joblistsizeMask)
      ensures resize == old(resize) && log == old(log)
    {
      sleepSum := sleepSum + 1;
      if sleepSum >= SLEEP_SUM_WRAP {
        sleepSum := 0;
      }
    }
  }
}
