/**
 * The object-style job list: a JobList holds the capacity, the largest
 * record it accepts and the resize flag, and points at a JobBuff holding the
 * two counters, the pad width and the bytes. This is the corrected protocol
 * run sequentially: a push that finds the list full raises the flag and
 * returns, and the reader's next pop performs the resize.
 */
module Joblist {
  import opened Bytes
  import opened ModArith
  import opened Bits
  import opened PowerOfTwo
  import opened Ring
  import opened Mem
  import opened Queue
  import opened Copies

  const JOBLIST_RET_SIZE_OVERFLOW: int := -1
  const JOBLIST_RET_POP_EMPTY: int := -5
  const JOBLIST_RET_SUCCESS: int := 0
  /** Returned by a push that raised the resize flag; the source blocks there until the reader has resized. */
  const JOBLIST_RET_RESIZING: int := 1

  /** The header and bytes of a list: write and read counters, pad width, buffer. */
  class JobBuff {
    var wSize: nat
    var rSize: nat
    var dirtysize: int
    var buf: array<byte>

    /** A fresh header with zeroed counters over a new buffer of n bytes. */
    constructor (n: nat)
      ensures wSize == 0 && rSize == 0 && dirtysize == 0 && buf.Length == n && fresh(buf)
    {
      wSize, rSize, dirtysize := 0, 0, 0;
      buf := new byte[n];
    }
  }

  class JobList {
    var maxBufSize: int
    var listsize: int
    var listsizeMask: int
    var resize: bool
    var jobbuff: JobBuff?
    /** The capacity is 2^log. */
    ghost var log: nat

    /** The layout is consistent and the reader's walk lists the queue. */
    ghost predicate Valid()
      reads this, jobbuff, if jobbuff == null then null else jobbuff.buf
    {
      jobbuff != null && Geometry(listsize, maxBufSize) &&
      listsize == Pow2(log) && listsizeMask == listsize - 1 && jobbuff.buf.Length == listsize &&
      Listed(jobbuff.buf[..], listsize, maxBufSize, jobbuff.rSize, jobbuff.wSize, jobbuff.dirtysize)
    }

    /** The queue of jobs the list holds, oldest first. */
    ghost function Jobs(): seq<seq<byte>>
      reads this, jobbuff, jobbuff.buf
      requires Valid()
    {
      Contents(jobbuff.buf[..], listsize, maxBufSize, jobbuff.rSize, jobbuff.wSize, jobbuff.dirtysize)
    }

    /** The reader stands at the first job, of n bytes: what a successful pop leaves behind. */
    ghost predicate HeadAt(n: int)
      reads this, jobbuff, jobbuff.buf
      requires Valid()
    {
      Jobs() != [] && !InPadZone(listsize, maxBufSize, Off(jobbuff.rSize, listsize)) && n == |Jobs()[0]|
    }

    /** _isJobListEmpty. */
    predicate IsEmpty(): (e: bool)
      reads this, jobbuff, jobbuff.buf
      requires Valid()
      ensures e <==> Jobs() == []
    {
      EmptyIff(jobbuff.buf[..], listsize, maxBufSize, jobbuff.rSize, jobbuff.wSize, jobbuff.dirtysize);
      jobbuff.rSize == jobbuff.wSize
    }

    /** _isJobListFull, counting the pad the writer would add in front of the record. */
    predicate IsFull(pushsize: int): (f: bool)
      reads this, jobbuff
      requires jobbuff != null && Geometry(listsize, maxBufSize)
      ensures f <==> PushAt(listsize, maxBufSize, jobbuff.wSize) + JOBLEN_SIZE + pushsize > jobbuff.rSize + listsize
      ensures Pad(listsize, maxBufSize, jobbuff.wSize) == 0 ==>
        (f <==> jobbuff.wSize + pushsize + JOBLEN_SIZE - jobbuff.rSize > listsize)
    {
      Full(listsize, maxBufSize, jobbuff.rSize, jobbuff.wSize, pushsize)
    }

    /** initJoblist: a list of NEXT_POT(listsize) bytes, empty, with no resize pending. */
    constructor (maxBufSize: int, listsize: int)
      requires 1 <= listsize <= POT_LIMIT && Geometry(NextPot(listsize), maxBufSize)
      ensures Valid() && Jobs() == [] && !resize
      ensures this.maxBufSize == maxBufSize && this.listsize == NextPot(listsize)
      ensures fresh(jobbuff) && fresh(jobbuff.buf)
    {
      this.maxBufSize := maxBufSize;
      resize := false;
      jobbuff := null;
      this.listsize := 0;
      listsizeMask := 0;
      new;
      InitJobBuff(listsize);
      NextPotUnique(listsize, log);
    }

    /** _initJobBuff without a backing file: a fresh buffer of NEXT_POT(size) bytes with zeroed counters. */
    method InitJobBuff(size: int)
      requires 1 <= size <= POT_LIMIT
      modifies this
      ensures jobbuff != null && fresh(jobbuff) && fresh(jobbuff.buf)
      ensures listsize == Pow2(log) && size <= listsize < 2 * size && listsizeMask == listsize - 1
      ensures jobbuff.wSize == 0 && jobbuff.rSize == 0 && jobbuff.dirtysize == 0 && jobbuff.buf.Length == listsize
      ensures maxBufSize == old(maxBufSize) && resize == old(resize)
    {
      var n, k := RoundUp(size);
      var b := new JobBuff(n);
      jobbuff, listsize, listsizeMask, log := b, n, n - 1, k;
    }

    /** _initJobBuff(this, oldsize * 2) as resize calls it: rounding twice a power of two keeps it. */
    method InitDoubled()
      requires listsize == Pow2(log) && 2 * listsize <= POT_LIMIT
      modifies this
      ensures jobbuff != null && fresh(jobbuff) && fresh(jobbuff.buf)
      ensures listsize == 2 * old(listsize) == Pow2(log) && listsizeMask == listsize - 1
      ensures jobbuff.wSize == 0 && jobbuff.rSize == 0 && jobbuff.dirtysize == 0 && jobbuff.buf.Length == listsize
      ensures maxBufSize == old(maxBufSize) && resize == old(resize)
    {
      ghost var k := log;
      assert Pow2(k + 1) == 2 * listsize;
      InitJobBuff(2 * listsize);
      Pow2Window(k + 1, log, Pow2(k + 1));
    }

    /** The offset of counter c, taken with the mask as the source does. */
    function Index(c: nat): (o: nat)
      reads this
      requires listsize == Pow2(log) && listsizeMask == listsize - 1
      ensures o == Off(c, listsize)
    {
      MaskIsMod(c, log);
      BitAnd(c, listsizeMask)
    }

    /** _backJobListWsize: a writer in the pad zone pads to the end of the lap and records the pad. */
    method BackWsize(widx: int) returns (moved: bool)
      requires Valid() && widx == Off(jobbuff.wSize, listsize)
      modifies jobbuff
      ensures moved == InPadZone(listsize, maxBufSize, widx)
      ensures moved ==> jobbuff.dirtysize == listsize - widx && jobbuff.wSize == old(jobbuff.wSize) + (listsize - widx)
      ensures !moved ==> jobbuff.dirtysize == old(jobbuff.dirtysize) && jobbuff.wSize == old(jobbuff.wSize)
      ensures jobbuff.rSize == old(jobbuff.rSize) && jobbuff.buf == old(jobbuff.buf)
    {
      moved := false;
      if widx + maxBufSize + JOBLEN_SIZE > listsize {
        jobbuff.dirtysize := listsize - widx;
        jobbuff.wSize := jobbuff.wSize + (listsize - widx);
        moved := true;
      }
    }

    /** _jobListWidx: the offset the next record goes to, padding first when the writer is in the pad zone. */
    method WriterIdx() returns (widx: int)
      requires Valid()
      modifies jobbuff
      ensures widx == Off(PushAt(listsize, maxBufSize, old(jobbuff.wSize)), listsize)
      ensures jobbuff.wSize == PushAt(listsize, maxBufSize, old(jobbuff.wSize))
      ensures jobbuff.dirtysize == PushDirty(listsize, maxBufSize, old(jobbuff.wSize), old(jobbuff.dirtysize))
      ensures jobbuff.rSize == old(jobbuff.rSize) && jobbuff.buf == old(jobbuff.buf)
    {
      widx := Index(jobbuff.wSize);
      var moved := BackWsize(widx);
      if moved {
        widx := Index(jobbuff.wSize);
      }
    }

    /**
     * _backJobListRsize: a reader in the pad zone of a non-empty list skips
     * the pad. The source waits while the list is empty; here the reader
     * stays where it is and the caller sees an empty list.
     */
    method BackRsize(ridx: int) returns (moved: bool)
      requires Valid() && ridx == Off(jobbuff.rSize, listsize)
      modifies jobbuff
      ensures Valid() && Jobs() == old(Jobs())
      ensures moved <==> InPadZone(listsize, maxBufSize, ridx) && old(Jobs()) != []
      ensures moved ==> jobbuff.rSize == old(jobbuff.rSize) + (listsize - ridx) && Off(jobbuff.rSize, listsize) == 0
      ensures !moved ==> jobbuff.rSize == old(jobbuff.rSize)
      ensures jobbuff.wSize == old(jobbuff.wSize) && jobbuff.dirtysize == old(jobbuff.dirtysize) && jobbuff.buf == old(jobbuff.buf)
    {
      moved := false;
      ghost var buf := jobbuff.buf[..];
      EmptyIff(buf, listsize, maxBufSize, jobbuff.rSize, jobbuff.wSize, jobbuff.dirtysize);
      if ridx + maxBufSize + JOBLEN_SIZE > listsize {
        if jobbuff.rSize == jobbuff.wSize {
          return;
        }
        SkipPad(buf, listsize, maxBufSize, jobbuff.rSize, jobbuff.wSize, jobbuff.dirtysize);
        assert jobbuff.dirtysize == listsize - ridx;
        jobbuff.rSize := jobbuff.rSize + (listsize - ridx);
        moved := true;
      }
    }

    /** _jobListRidx: the offset of the first job, after skipping a pad in front of it. */
    method ReaderIdx() returns (ridx: int)
      requires Valid()
      modifies jobbuff
      ensures Valid() && Jobs() == old(Jobs())
      ensures ridx == Off(jobbuff.rSize, listsize)
      ensures Jobs() != [] ==> !InPadZone(listsize, maxBufSize, ridx)
      ensures jobbuff.wSize == old(jobbuff.wSize) && jobbuff.dirtysize == old(jobbuff.dirtysize) && jobbuff.buf == old(jobbuff.buf)
    {
      ridx := Index(jobbuff.rSize);
      var moved := BackRsize(ridx);
      if moved {
        ridx := Index(jobbuff.rSize);
      }
    }

    /** _incJoblistWsize. */
    method IncWsize(inc: int)
      requires jobbuff != null && inc + JOBLEN_SIZE >= 0
      modifies jobbuff
      ensures jobbuff.wSize == old(jobbuff.wSize) + inc + JOBLEN_SIZE
      ensures jobbuff.rSize == old(jobbuff.rSize) && jobbuff.dirtysize == old(jobbuff.dirtysize) && jobbuff.buf == old(jobbuff.buf)
    {
      jobbuff.wSize := jobbuff.wSize + (inc + JOBLEN_SIZE);
    }

    /** _resizeJobListStart without the wait: raise the flag for the reader. */
    method ResizeStart()
      requires !resize
      modifies this
      ensures resize
      ensures maxBufSize == old(maxBufSize) && listsize == old(listsize) && listsizeMask == old(listsizeMask)
      ensures jobbuff == old(jobbuff) && log == old(log)
    {
      resize := true;
    }

    /**
     * The write half of pushJobList: pad if the writer is in the pad zone,
     * store the length and then the payload, advance the writer.
     */
    method Append(wbuf: seq<byte>)
      requires Valid() && 0 < |wbuf| < maxBufSize && !IsFull(|wbuf|)
      modifies jobbuff, jobbuff.buf
      ensures Valid() && Jobs() == old(Jobs()) + [wbuf] && jobbuff.buf == old(jobbuff.buf)
      ensures jobbuff.rSize == old(jobbuff.rSize)
      ensures jobbuff.wSize == PushAt(listsize, maxBufSize, old(jobbuff.wSize)) + JOBLEN_SIZE + |wbuf|
      ensures jobbuff.dirtysize == PushDirty(listsize, maxBufSize, old(jobbuff.wSize), old(jobbuff.dirtysize))
      ensures jobbuff.buf[..] == Pushed(old(jobbuff.buf[..]), listsize, maxBufSize, old(jobbuff.wSize), wbuf)
    {
      ghost var buf0, r0, w0, d0 := jobbuff.buf[..], jobbuff.rSize, jobbuff.wSize, jobbuff.dirtysize;
      PushKeeps(buf0, listsize, maxBufSize, r0, w0, d0, wbuf);
      var widx := WriterIdx();
      StoreRecord(jobbuff.buf, widx, wbuf);
      IncWsize(|wbuf|);
    }

    /**
     * pushJobList. A record longer than the list accepts is refused, and so
     * is an empty one, whose zero length the reader would reject; a push
     * that would overrun unread bytes raises the resize flag and changes
     * nothing else; otherwise the job joins the end of the queue.
     */
    method Push(wbuf: seq<byte>) returns (ret: int)
      requires Valid() && !resize
      modifies this, jobbuff, jobbuff.buf
      ensures Valid() && jobbuff == old(jobbuff) && listsize == old(listsize) && maxBufSize == old(maxBufSize)
      ensures ret == JOBLIST_RET_SIZE_OVERFLOW <==> |wbuf| == 0 || |wbuf| >= maxBufSize
      ensures ret == JOBLIST_RET_RESIZING <==> 0 < |wbuf| < maxBufSize && old(IsFull(|wbuf|))
      ensures ret == JOBLIST_RET_SUCCESS <==> 0 < |wbuf| < maxBufSize && !old(IsFull(|wbuf|))
      ensures resize <==> ret == JOBLIST_RET_RESIZING
      ensures ret != JOBLIST_RET_SUCCESS ==> unchanged(jobbuff) && unchanged(jobbuff.buf)
      ensures ret == JOBLIST_RET_SUCCESS ==> Jobs() == old(Jobs()) + [wbuf] && jobbuff.buf == old(jobbuff.buf)
      ensures ret != JOBLIST_RET_SUCCESS ==> Jobs() == old(Jobs())
    {
      if |wbuf| == 0 || |wbuf| >= maxBufSize {
        return JOBLIST_RET_SIZE_OVERFLOW;
      }
      if IsFull(|wbuf|) {
        ResizeStart();
        return JOBLIST_RET_RESIZING;
      }
      Append(wbuf);
      return JOBLIST_RET_SUCCESS;
    }

    /** incJoblistRsize: the consumer is done with the first job, of inc bytes. */
    method IncRsize(inc: int)
      requires Valid() && HeadAt(inc)
      modifies jobbuff
      ensures Valid() && Jobs() == old(Jobs())[1..]
      ensures jobbuff.rSize == old(jobbuff.rSize) + inc + JOBLEN_SIZE
      ensures jobbuff.wSize == old(jobbuff.wSize) && jobbuff.dirtysize == old(jobbuff.dirtysize) && jobbuff.buf == old(jobbuff.buf)
    {
      Head(jobbuff.buf[..], listsize, maxBufSize, jobbuff.rSize, jobbuff.wSize, jobbuff.dirtysize);
      jobbuff.rSize := jobbuff.rSize + (inc + JOBLEN_SIZE);
    }
 
    /** The empty branch of resize: a fresh empty list of twice the capacity, in which no admissible push is full. */
    method Regrow()
      requires jobbuff != null && Geometry(listsize, maxBufSize) && listsize == Pow2(log) && 2 * listsize <= POT_LIMIT
      modifies this
      ensures Valid() && Jobs() == [] && listsize == 2 * old(listsize) && jobbuff.rSize == 0 && jobbuff.wSize == 0
      ensures maxBufSize == old(maxBufSize) && resize == old(resize) && fresh(jobbuff) && fresh(jobbuff.buf)
      ensures Roomy(listsize, maxBufSize, jobbuff.rSize, jobbuff.wSize)
    {
      ghost var L := listsize;
      InitDoubled();
      EmptyIff(jobbuff.buf[..], listsize, maxBufSize, 0, 0, 0);
      RoomAfterGrow(L, maxBufSize, 0);
    }

    /** A fresh buffer twice the size holding the saved bytes from offset 0, with the writer after them. */
    method LayOut(backup: array<byte>)
      requires listsize == Pow2(log) && 2 * listsize <= POT_LIMIT && backup.Length <= 2 * listsize
      modifies this
      ensures jobbuff != null && fresh(jobbuff) && fresh(jobbuff.buf) && jobbuff.buf != backup
      ensures listsize == 2 * old(listsize) == Pow2(log) && listsizeMask == listsize - 1 && jobbuff.buf.Length == listsize
      ensures jobbuff.buf[..backup.Length] == backup[..]
      ensures jobbuff.wSize == backup.Length && jobbuff.rSize == 0 && jobbuff.dirtysize == 0
      ensures maxBufSize == old(maxBufSize) && resize == old(resize)
    {
      InitDoubled();
      jobbuff.wSize := backup.Length;
      ghost var zeros := jobbuff.buf[..];
      Copy(jobbuff.buf, 0, backup, 0, backup.Length);
      assert jobbuff.buf[..] == Poke(zeros, 0, backup[..]);
    }

    /**
     * The wrapped branch of resize: the unread bytes laid out from offset 0
     * of a fresh buffer twice the size, with the reader at 0 and no pad.
     */
    method Relayout(ridx: int, widx: int)
      requires jobbuff != null && Geometry(listsize, maxBufSize) && listsize == Pow2(log) && 2 * listsize <= POT_LIMIT
      requires jobbuff.buf.Length == listsize
      requires Walkable(jobbuff.buf[..], listsize, maxBufSize, jobbuff.rSize, jobbuff.wSize, jobbuff.dirtysize)
      requires jobbuff.rSize < jobbuff.wSize && ridx == Off(jobbuff.rSize, listsize) && widx == Off(jobbuff.wSize, listsize)
      requires !InPadZone(listsize, maxBufSize, ridx) && widx <= ridx
      modifies this
      ensures Valid() && Jobs() == old(Contents(jobbuff.buf[..], listsize, maxBufSize, jobbuff.rSize, jobbuff.wSize, jobbuff.dirtysize))
      ensures listsize == 2 * old(listsize) && maxBufSize == old(maxBufSize) && resize == old(resize)
      ensures jobbuff.wSize == old(jobbuff.wSize - jobbuff.rSize - jobbuff.dirtysize)
      ensures jobbuff.rSize == 0 && jobbuff.dirtysize == 0 && fresh(jobbuff) && fresh(jobbuff.buf)
      ensures Roomy(listsize, maxBufSize, jobbuff.rSize, jobbuff.wSize)
    {
      ghost var L, buf0, r, w, d := listsize, jobbuff.buf[..], jobbuff.rSize, jobbuff.wSize, jobbuff.dirtysize;
      ghost var p := WrapLayout(buf0, L, maxBufSize, r, w, d);
      var backup := SaveUnread(jobbuff.buf, ridx, jobbuff.dirtysize, widx, r, w);
      ghost var u := backup[..];
      LayOut(backup);
      Relinearize(buf0, L, maxBufSize, r, w, d, jobbuff.buf[..], 0);
      RoomAfterGrow(L, maxBufSize, |u|);
    }

    /**
     * _resizeJobListEnd with the reader skipping its pad before the writer
     * pads. An empty list becomes a fresh list of twice the size; a list
     * whose writer is past its reader in one lap is kept as it is and only
     * the flag is cleared; a wrapped list has its unread bytes, the reader's
     * part then the writer's part, laid out from offset 0 of a buffer twice
     * the size. Afterwards no push of an admissible length is full.
     */
    method ResizeEnd() returns (ridx: int)
      requires Valid() && resize && 2 * listsize <= POT_LIMIT
      modifies this, jobbuff
      ensures Valid() && !resize && Jobs() == old(Jobs()) && maxBufSize == old(maxBufSize)
      ensures listsize == old(listsize) || listsize == 2 * old(listsize)
      ensures ridx == Off(jobbuff.rSize, listsize) && (Jobs() != [] ==> !InPadZone(listsize, maxBufSize, ridx))
      ensures Roomy(listsize, maxBufSize, jobbuff.rSize, jobbuff.wSize)
      ensures (jobbuff == old(jobbuff) && jobbuff.buf == old(jobbuff.buf)) || (fresh(jobbuff) && fresh(jobbuff.buf))
    {
      ridx := ReaderIdx();
      EmptyIff(jobbuff.buf[..], listsize, maxBufSize, jobbuff.rSize, jobbuff.wSize, jobbuff.dirtysize);
      if jobbuff.rSize == jobbuff.wSize {
        Regrow();
        resize := false;
        ridx := Index(jobbuff.rSize);
        return;
      }
      ghost var L, buf0, r, w0, d0 := listsize, jobbuff.buf[..], jobbuff.rSize, jobbuff.wSize, jobbuff.dirtysize;
      PadWriter(buf0, L, maxBufSize, r, w0, d0);
      var widx := WriterIdx();
      if widx > ridx {
        RoomInOneLap(L, maxBufSize, r, w0);
        resize := false;
        return;
      }
      Relayout(ridx, widx);
      resize := false;
      ridx := Index(jobbuff.rSize);
    }

    /** The read half of popJobList: the first job's length prefix, and where its payload starts. */
    method ReadHead(ridx: int) returns (len: int, start: int)
      requires Valid() && Jobs() != [] && ridx == Off(jobbuff.rSize, listsize) && !InPadZone(listsize, maxBufSize, ridx)
      ensures 0 < len < maxBufSize && len == |Jobs()[0]| && start == ridx + JOBLEN_SIZE
      ensures start + len <= jobbuff.buf.Length && jobbuff.buf[start .. start + len] == Jobs()[0]
    {
      Head(jobbuff.buf[..], listsize, maxBufSize, jobbuff.rSize, jobbuff.wSize, jobbuff.dirtysize);
      LenDecode(jobbuff.buf[..], ridx);
      len := DecodeInt(jobbuff.buf[ridx .. ridx + JOBLEN_SIZE]);
      assert len > 0 && len <= maxBufSize;
      start := ridx + JOBLEN_SIZE;
    }

    /**
     * popJobList: after a pending resize, the length of the first job and
     * the offset of its bytes in the buffer, or POP_EMPTY; the job stays in
     * the list until IncRsize.
     */
    method Pop() returns (len: int, start: int)
      requires Valid() && (resize ==> 2 * listsize <= POT_LIMIT)
      modifies this, jobbuff
      ensures Valid() && Jobs() == old(Jobs()) && !resize && maxBufSize == old(maxBufSize)
      ensures len == JOBLIST_RET_POP_EMPTY <==> Jobs() == []
      ensures len != JOBLIST_RET_POP_EMPTY ==>
        0 < len < maxBufSize && HeadAt(len) && 0 <= start && start + len <= jobbuff.buf.Length &&
        jobbuff.buf[start .. start + len] == Jobs()[0]
      ensures old(resize) ==> Roomy(listsize, maxBufSize, jobbuff.rSize, jobbuff.wSize)
      ensures !old(resize) ==> jobbuff == old(jobbuff) && listsize == old(listsize)
      ensures (jobbuff == old(jobbuff) && jobbuff.buf == old(jobbuff.buf)) || (fresh(jobbuff) && fresh(jobbuff.buf))
    {
      var ridx;
      if resize {
        ridx := ResizeEnd();
      } else {
        ridx := ReaderIdx();
      }
      if IsEmpty() {
        return JOBLIST_RET_POP_EMPTY, 0;
      }
      len, start := ReadHead(ridx);
    }

    /**
     * pushJobList with its wait made sequential: a push that finds the list
     * full raises the flag, the reader's next pop performs the resize, and
     * the retried push then finds room. Either way the queue gains the job.
     */
    method PushThroughResize(wbuf: seq<byte>) returns (ret: int)
      requires Valid() && !resize && 0 < |wbuf| < maxBufSize && 2 * listsize <= POT_LIMIT
      modifies this, jobbuff, jobbuff.buf
      ensures Valid() && !resize && ret == JOBLIST_RET_SUCCESS && Jobs() == old(Jobs()) + [wbuf]
    {
      ret := Push(wbuf);
      if ret == JOBLIST_RET_RESIZING {
        var len, start := Pop();
        ret := Push(wbuf);
      }
    }
  }
}
