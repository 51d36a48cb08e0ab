/** The memcpy sequences both job lists share: storing a record and saving the unread bytes of a wrapped list. */
module Copies {
  import opened Bytes
  import opened ModArith
  import opened Mem
  import opened Queue

  /**
   * The two memcpy calls that save a wrapped list's unread bytes: from the
   * reader to the pad, then from offset 0 to the writer.
   */
  method SaveUnread(buf: array<byte>, ridx: nat, dirty: nat, widx: nat, ghost r: nat, ghost w: nat) returns (backup: array<byte>)
    requires buf.Length >= 1 && ridx == Off(r, buf.Length) && widx == Off(w, buf.Length) && ridx + dirty <= buf.Length
    ensures fresh(backup) && backup[..] == Unread(buf[..], buf.Length, r, w, dirty)
  {
    var behindUnreadSize := buf.Length - ridx - dirty;
    var frontUnreadSize := widx;
    backup := new byte[behindUnreadSize + frontUnreadSize];
    ghost var zeros := backup[..];
    ghost var behind, front := buf[ridx .. buf.Length - dirty], buf[..widx];
    Copy(backup, 0, buf, ridx, behindUnreadSize);
    assert backup[..] == Poke(zeros, 0, behind);
    Copy(backup, behindUnreadSize, buf, 0, frontUnreadSize);
    assert backup[..] == Poke(Poke(zeros, 0, behind), |behind|, front);
    PokeThen(zeros, 0, behind, front);
    PokeWhole(zeros, behind + front);
  }

  /** The two memcpy calls of a push: the length prefix, then the payload right after it. */
  method StoreRecord(buf: array<byte>, widx: nat, wbuf: seq<byte>)
    requires IsCInt(|wbuf|) && widx + JOBLEN_SIZE + |wbuf| <= buf.Length
    modifies buf
    ensures buf[..] == Poke(old(buf[..]), widx, Record(wbuf))
  {
    ghost var buf0 := buf[..];
    CopyIn(buf, widx, EncodeInt(|wbuf|));
    CopyIn(buf, widx + JOBLEN_SIZE, wbuf);
    PokeThen(buf0, widx, EncodeInt(|wbuf|), wbuf);
  }

  /** The two memcpy calls of the older revision's push: the payload after the prefix first, then the length prefix. */
  method StorePayloadFirst(buf: array<byte>, widx: nat, wbuf: seq<byte>)
    requires IsCInt(|wbuf|) && widx + JOBLEN_SIZE + |wbuf| <= buf.Length
    modifies buf
    ensures buf[..] == Poke(old(buf[..]), widx, Record(wbuf))
  {
    ghost var buf0 := buf[..];
    CopyIn(buf, widx + JOBLEN_SIZE, wbuf);
    CopyIn(buf, widx, EncodeInt(|wbuf|));
    PokeBefore(buf0, widx, EncodeInt(|wbuf|), wbuf);
  }
}
