/**
 * The command records the persistence thread replays into the database: the
 * identity of the command, then each argument as a 4-byte length and its
 * bytes. The identity is the address of the command's handler in the source;
 * here it is a tag naming one of the commands the whitelist admits, stored in
 * the address's PROC_SIZE bytes.
 */
module Codec {
  import opened Bytes
  import opened Mem
  import opened Queue
  import opened Persistence

  /** Longest key plus one (MAX_KEY_LEN, mysqlDB.h). */
  const MAX_KEY_LEN: int := 32
  /** Bytes of the command identity: sizeof(redisCommandProc*) on a 64-bit build. */
  const PROC_SIZE: nat := 8

  /** The commands the whitelist names, and one value for every other command. */
  datatype Command =
    | Set | Mset | Expireat | Lpop | Rpop | Lpushx | Rpushx | Lpush | Rpush
    | Zadd | Incr | Incrby | Zincrby | Zrem | Zremrangebyscore | Zremrangebyrank
    | Unlisted

  /** The number standing for a command in its identity bytes. */
  function Tag(c: Command): (t: byte)
    ensures t <= 16
  {
    match c
    case Set => 0 case Mset => 1 case Expireat => 2 case Lpop => 3 case Rpop => 4
    case Lpushx => 5 case Rpushx => 6 case Lpush => 7 case Rpush => 8 case Zadd => 9
    case Incr => 10 case Incrby => 11 case Zincrby => 12 case Zrem => 13
    case Zremrangebyscore => 14 case Zremrangebyrank => 15 case Unlisted => 16
  }

  /** The identity bytes _packCmd stores for a command. */
  function ProcBytes(c: Command): (b: seq<byte>)
    ensures |b| == PROC_SIZE
  {
    [Tag(c), 0, 0, 0, 0, 0, 0, 0]
  }

  /** The command whose identity bytes b are, if any. */
  function CommandOf(b: seq<byte>): (c: Option<Command>)
    requires |b| == PROC_SIZE
    ensures c.Some? ==> ProcBytes(c.value) == b
  {
    if b[1..] != [0, 0, 0, 0, 0, 0, 0] then None
    else match b[0]
      case 0 => Some(Set) case 1 => Some(Mset) case 2 => Some(Expireat) case 3 => Some(Lpop)
      case 4 => Some(Rpop) case 5 => Some(Lpushx) case 6 => Some(Rpushx) case 7 => Some(Lpush)
      case 8 => Some(Rpush) case 9 => Some(Zadd) case 10 => Some(Incr) case 11 => Some(Incrby)
      case 12 => Some(Zincrby) case 13 => Some(Zrem) case 14 => Some(Zremrangebyscore)
      case 15 => Some(Zremrangebyrank) case 16 => Some(Unlisted) case _ => None
  }

  /** The stored identity names the command it was stored for, so distinct commands get distinct bytes. */
  lemma CommandOfProcBytes(c: Command)
    ensures CommandOf(ProcBytes(c)) == Some(c)
  {
    assert ProcBytes(c)[1..] == [0, 0, 0, 0, 0, 0, 0];
  }

  /** The whitelist of packPersistenceJob: command and number of arguments after the name. */
  predicate Packable(c: Command, argc: int)
  {
    (c == Set && argc == 2) || (c == Mset && argc % 2 == 0) || (c == Expireat && argc == 2) ||
    (c == Lpop && argc == 1) || (c == Rpop && argc == 1) || (c == Lpushx && argc == 2) ||
    (c == Rpushx && argc == 2) || (c == Lpush && argc >= 2) || (c == Rpush && argc >= 2) ||
    (c == Zadd && argc % 2 == 1) || (c == Incr && argc == 1) || (c == Incrby && argc == 2) ||
    (c == Zincrby && argc == 3) || (c == Zrem && argc >= 2) || (c == Zremrangebyscore && argc == 3) ||
    (c == Zremrangebyrank && argc == 3)
  }

  /** The arguments as strlen sees them: each up to its first NUL. */
  function CStrs(argv: seq<seq<byte>>): (s: seq<seq<byte>>)
    ensures |s| == |argv|
  {
    seq(|argv|, i requires 0 <= i < |argv| => CStr(argv[i]))
  }

  /** Every argument's length fits the C int it is stored in. */
  predicate Storable(args: seq<seq<byte>>)
  {
    forall i :: 0 <= i < |args| ==> IsCInt(|args[i]|)
  }

  /** The frames of the first n arguments, one after the other. */
  function Frames(args: seq<seq<byte>>, n: nat): seq<byte>
    requires Storable(args) && n <= |args|
  {
    if n == 0 then [] else Frames(args, n - 1) + Record(args[n - 1])
  }

  /** The frames of the first n arguments are a prefix of the frames of all of them. */
  lemma {:induction false} FramesGrow(args: seq<seq<byte>>, n: nat)
    requires Storable(args) && n <= |args|
    ensures |Frames(args, n)| <= |Frames(args, |args|)|
    decreases |args| - n
  {
    if n < |args| {
      FramesGrow(args, n + 1);
    }
  }

  lemma StorableTail(args: seq<seq<byte>>)
    requires Storable(args) && |args| >= 1
    ensures Storable(args[1..])
  {
    forall i | 0 <= i < |args| - 1
      ensures IsCInt(|args[1..][i]|)
    {
      assert args[1..][i] == args[i + 1];
    }
  }

  /** Framing n arguments is framing the first one, then the n - 1 after it. */
  lemma {:induction false} FramesFirst(args: seq<seq<byte>>, n: nat)
    requires Storable(args) && 1 <= n <= |args|
    ensures Storable(args[1..]) && Frames(args, n) == Record(args[0]) + Frames(args[1..], n - 1)
  {
    StorableTail(args);
    if n > 1 {
      FramesFirst(args, n - 1);
      var tail := args[1..];
      assert tail[n - 2] == args[n - 1];
      assert Frames(args, n) == (Record(args[0]) + Frames(tail, n - 2)) + Record(tail[n - 2]);
    }
  }

  /** The record _packCmd builds: the identity, then each argument's frame. */
  function Packed(c: Command, argv: seq<seq<byte>>): (b: seq<byte>)
    requires Storable(CStrs(argv))
    ensures |b| >= PROC_SIZE && b[..PROC_SIZE] == ProcBytes(c)
  {
    ProcBytes(c) + Frames(CStrs(argv), |argv|)
  }

  /** What _packCmd returns for command c with arguments argv (argv[0] is the key). */
  function PackOutcome(c: Command, argv: seq<seq<byte>>): int
    requires |argv| >= 1 && Storable(CStrs(argv))
  {
    if |CStr(argv[0])| >= MAX_KEY_LEN then PERSISTENCE_RET_KEYSIZE_EXCEED
    else if |Packed(c, argv)| >= MAX_PERSISTENCE_BUF_SIZE then PERSISTENCE_RET_SIZE_OVERFLOW
    else |Packed(c, argv)|
  }

  /** Arguments short enough that the running offset, below MAX_PERSISTENCE_BUF_SIZE, plus a frame stays an int. */
  predicate ShortArgs(argv: seq<seq<byte>>)
  {
    forall i :: 0 <= i < |argv| ==> |argv[i]| <= INT_MAX - MAX_PERSISTENCE_BUF_SIZE - JOBLEN_SIZE
  }

  lemma ShortArgsStorable(argv: seq<seq<byte>>)
    requires ShortArgs(argv)
    ensures Storable(CStrs(argv))
  {
    forall i | 0 <= i < |argv|
      ensures IsCInt(|CStrs(argv)[i]|)
    {
      assert |CStr(argv[i])| <= |argv[i]|;
    }
  }

  /** The bytes of a stored frame, read up to the end of the frame, are the bytes before it and the frame. */
  lemma StoredFrame(buf: seq<byte>, o: nat, a: seq<byte>)
    requires IsCInt(|a|) && o + JOBLEN_SIZE + |a| <= |buf|
    ensures Poke(Poke(buf, o, EncodeInt(|a|)), o + JOBLEN_SIZE, a)[..o + JOBLEN_SIZE + |a|] == buf[..o] + Record(a)
  {
    PokeThen(buf, o, EncodeInt(|a|), a);
    assert Poke(buf, o, Record(a))[..o + JOBLEN_SIZE + |a|] == buf[..o] + Record(a);
  }

  /**
   * Store a frame at offset as the loop of _packCmd does: the length first,
   * then, when the offset past the frame stays below
   * MAX_PERSISTENCE_BUF_SIZE, the bytes.
   */
  method WriteFrame(wbuf: array<byte>, offset: nat, arg: seq<byte>) returns (next: int)
    requires IsCInt(|arg|) && offset < MAX_PERSISTENCE_BUF_SIZE <= wbuf.Length - JOBLEN_SIZE + 1
    modifies wbuf
    ensures next == offset + JOBLEN_SIZE + |arg|
    ensures next < MAX_PERSISTENCE_BUF_SIZE ==> wbuf[..next] == old(wbuf[..offset]) + Record(arg)
  {
    ghost var before := wbuf[..];
    CopyIn(wbuf, offset, EncodeInt(|arg|));
    next := offset + |arg| + JOBLEN_SIZE;
    if next < MAX_PERSISTENCE_BUF_SIZE {
      CopyIn(wbuf, next - |arg|, arg);
      StoredFrame(before, offset, arg);
    }
  }

  /** One more frame: the bytes laid out so far followed by the next argument's frame. */
  lemma FramesStep(head: seq<byte>, args: seq<seq<byte>>, n: nat)
    requires Storable(args) && n < |args|
    ensures head + Frames(args, n + 1) == (head + Frames(args, n)) + Record(args[n])
    ensures |Frames(args, n + 1)| == |Frames(args, n)| + JOBLEN_SIZE + |args[n]|
  {
    var f, r := Frames(args, n), Record(args[n]);
    assert Frames(args, n + 1) == f + r;
    forall i | 0 <= i < |head| + |f| + |r|
      ensures (head + (f + r))[i] == ((head + f) + r)[i]
    {
    }
  }

  /**
   * One pass of the loop of _packCmd, for argument n: its frame is stored
   * at the running offset, so that the frames of the first n + 1 arguments
   * follow the identity unless the offset reaches MAX_PERSISTENCE_BUF_SIZE.
   */
  method StoreArg(wbuf: array<byte>, offset: nat, arg: seq<byte>, ghost head: seq<byte>, ghost args: seq<seq<byte>>, ghost n: nat)
    returns (next: int)
    requires Storable(args) && n < |args| && arg == args[n]
    requires offset == |head| + |Frames(args, n)| < MAX_PERSISTENCE_BUF_SIZE <= wbuf.Length - JOBLEN_SIZE + 1
    requires wbuf[..offset] == head + Frames(args, n)
    modifies wbuf
    ensures next == |head| + |Frames(args, n + 1)|
    ensures next < MAX_PERSISTENCE_BUF_SIZE ==> wbuf[..next] == head + Frames(args, n + 1)
  {
    FramesStep(head, args, n);
    next := WriteFrame(wbuf, offset, arg);
  }

  /**
   * The loop of _packCmd, from the end of the identity: each argument's
   * frame is laid out after the bytes before it until the offset reaches
   * MAX_PERSISTENCE_BUF_SIZE, which gives SIZE_OVERFLOW; otherwise the
   * offset past the last frame is returned.
   */
  method PackArgs(wbuf: array<byte>, ghost head: seq<byte>, argv: seq<seq<byte>>) returns (ret: int)
    requires Storable(CStrs(argv))
    requires |head| == PROC_SIZE && wbuf.Length >= MAX_PERSISTENCE_BUF_SIZE + JOBLEN_SIZE - 1 && wbuf[..PROC_SIZE] == head
    modifies wbuf
    ensures PROC_SIZE + |Frames(CStrs(argv), |argv|)| >= MAX_PERSISTENCE_BUF_SIZE ==> ret == PERSISTENCE_RET_SIZE_OVERFLOW
    ensures PROC_SIZE + |Frames(CStrs(argv), |argv|)| < MAX_PERSISTENCE_BUF_SIZE ==>
      ret == PROC_SIZE + |Frames(CStrs(argv), |argv|)| && wbuf[..ret] == head + Frames(CStrs(argv), |argv|)
  {
    ghost var args := CStrs(argv);
    var offset := PROC_SIZE;
    var n := 0;
    while n < |argv|
      invariant 0 <= n <= |argv|
      invariant offset == PROC_SIZE + |Frames(args, n)| < MAX_PERSISTENCE_BUF_SIZE
      invariant wbuf[..offset] == head + Frames(args, n)
    {
      var arg := CStr(argv[n]);
      offset := StoreArg(wbuf, offset, arg, head, args, n);
      if offset >= MAX_PERSISTENCE_BUF_SIZE {
        FramesGrow(args, n + 1);
        return PERSISTENCE_RET_SIZE_OVERFLOW;
      }
      n := n + 1;
    }
    return offset;
  }

  /**
   * _packCmd. A key of MAX_KEY_LEN bytes or more is refused before anything
   * is written. Otherwise the identity and then each argument's frame are
   * written; the length of each argument is stored before the running
   * offset is checked, so the buffer needs three bytes beyond
   * MAX_PERSISTENCE_BUF_SIZE. An offset reaching MAX_PERSISTENCE_BUF_SIZE
   * gives SIZE_OVERFLOW; otherwise the record's length is returned.
   */
  method PackCmd(wbuf: array<byte>, c: Command, argv: seq<seq<byte>>) returns (ret: int)
    requires |argv| >= 1 && ShortArgs(argv)
    requires wbuf.Length >= MAX_PERSISTENCE_BUF_SIZE + JOBLEN_SIZE - 1
    modifies wbuf
    ensures Storable(CStrs(argv)) && ret == PackOutcome(c, argv)
    ensures ret >= 0 ==> PROC_SIZE <= ret < MAX_PERSISTENCE_BUF_SIZE && wbuf[..ret] == Packed(c, argv)
    ensures ret == PERSISTENCE_RET_KEYSIZE_EXCEED ==> unchanged(wbuf)
  {
    ShortArgsStorable(argv);
    var keylen := |CStr(argv[0])|;
    if keylen >= MAX_KEY_LEN {
      return PERSISTENCE_RET_KEYSIZE_EXCEED;
    }
    CopyIn(wbuf, 0, ProcBytes(c));
    ret := PackArgs(wbuf, ProcBytes(c), argv);
  }

  /** The fields _unpackCmd returns: the identity bytes and the arguments. */
  datatype Unpacked = Unpacked(proc: seq<byte>, args: seq<seq<byte>>)

  /**
   * The arguments framed in rbuf from offset pos to the end, or None when a
   * length prefix is cut short, is negative or announces more bytes than
   * are left (the source would read outside the record there).
   */
  function Unframe(rbuf: seq<byte>, pos: nat): Option<seq<seq<byte>>>
    decreases |rbuf| - pos
  {
    if pos >= |rbuf| then Some([])
    else if pos + JOBLEN_SIZE > |rbuf| then None
    else
      var len := DecodeInt(rbuf[pos .. pos + JOBLEN_SIZE]);
      if len < 0 || pos + JOBLEN_SIZE + len > |rbuf| then None
      else
        var rest := Unframe(rbuf, pos + JOBLEN_SIZE + len);
        if rest.None? then None else Some([rbuf[pos + JOBLEN_SIZE .. pos + JOBLEN_SIZE + len]] + rest.value)
  }

  /**
   * What _unpackCmd recovers from a record: None for a record shorter than
   * the identity, for frames that do not end exactly at the record's end,
   * and for more than MAX_CMD_ARGV arguments (which the source asserts
   * against).
   */
  function Unpack(rbuf: seq<byte>): Option<Unpacked>
  {
    if |rbuf| < PROC_SIZE then None
    else
      var args := Unframe(rbuf, PROC_SIZE);
      if args.None? || |args.value| > MAX_CMD_ARGV then None
      else Some(Unpacked(rbuf[..PROC_SIZE], args.value))
  }

  /** Prepending decoded arguments to a decoding that may have failed. */
  function Join(done: seq<seq<byte>>, rest: Option<seq<seq<byte>>>): Option<seq<seq<byte>>>
  {
    if rest.None? then None else Some(done + rest.value)
  }

  /** One frame further along the walk that started at start, read at end. */
  lemma UnframeNext(rbuf: seq<byte>, start: nat, end: nat, args: seq<seq<byte>>)
    requires end < |rbuf| && Unframe(rbuf, start) == Join(args, Unframe(rbuf, end))
    ensures end + JOBLEN_SIZE > |rbuf| ==> Unframe(rbuf, start) == None
    ensures end + JOBLEN_SIZE <= |rbuf| ==>
      var len := DecodeInt(rbuf[end .. end + JOBLEN_SIZE]);
      (len < 0 || end + JOBLEN_SIZE + len > |rbuf| ==> Unframe(rbuf, start) == None) &&
      (0 <= len && end + JOBLEN_SIZE + len <= |rbuf| ==>
        Unframe(rbuf, start) ==
          Join(args + [rbuf[end + JOBLEN_SIZE .. end + JOBLEN_SIZE + len]], Unframe(rbuf, end + JOBLEN_SIZE + len)))
  {
    if end + JOBLEN_SIZE <= |rbuf| {
      var len := DecodeInt(rbuf[end .. end + JOBLEN_SIZE]);
      if 0 <= len && end + JOBLEN_SIZE + len <= |rbuf| {
        var rest := Unframe(rbuf, end + JOBLEN_SIZE + len);
        if rest.Some? {
          var arg := rbuf[end + JOBLEN_SIZE .. end + JOBLEN_SIZE + len];
          assert args + ([arg] + rest.value) == (args + [arg]) + rest.value;
        }
      }
    }
  }

  /** At the end of the record the walk has nothing left to read. */
  lemma UnframeEnd(rbuf: seq<byte>, start: nat, args: seq<seq<byte>>)
    requires Unframe(rbuf, start) == Join(args, Unframe(rbuf, |rbuf|))
    ensures Unframe(rbuf, start) == Some(args)
  {
    assert args + [] == args;
  }

  /**
   * _unpackCmd: copy the identity, then walk the frames from just after it
   * to the record's end, collecting the arguments.
   */
  method UnpackCmd(rbuf: seq<byte>) returns (r: Option<Unpacked>)
    ensures r == Unpack(rbuf)
  {
    if |rbuf| < PROC_SIZE {
      return None;
    }
    var proc := rbuf[..PROC_SIZE];
    var end := PROC_SIZE;
    var args: seq<seq<byte>> := [];
    assert Unframe(rbuf, end).Some? ==> [] + Unframe(rbuf, end).value == Unframe(rbuf, end).value;
    while end < |rbuf|
      invariant PROC_SIZE <= end <= |rbuf| && |args| <= MAX_CMD_ARGV
      invariant Unframe(rbuf, PROC_SIZE) == Join(args, Unframe(rbuf, end))
      decreases |rbuf| - end
    {
      UnframeNext(rbuf, PROC_SIZE, end, args);
      if end + JOBLEN_SIZE > |rbuf| {
        return None;
      }
      var len := DecodeInt(rbuf[end .. end + JOBLEN_SIZE]);
      if len < 0 || end + JOBLEN_SIZE + len > |rbuf| {
        return None;
      }
      args := args + [rbuf[end + JOBLEN_SIZE .. end + JOBLEN_SIZE + len]];
      end := end + JOBLEN_SIZE + len;
      if |args| > MAX_CMD_ARGV {
        return None;
      }
    }
    UnframeEnd(rbuf, PROC_SIZE, args);
    return Some(Unpacked(proc, args));
  }

  /** A frame at pos, followed by more bytes: its length, its bytes and what follows. */
  lemma FrameAt(rbuf: seq<byte>, pos: nat, a: seq<byte>, rest: seq<byte>)
    requires IsCInt(|a|) && pos <= |rbuf| && rbuf[pos..] == Record(a) + rest
    ensures pos + JOBLEN_SIZE + |a| <= |rbuf|
    ensures DecodeInt(rbuf[pos .. pos + JOBLEN_SIZE]) == |a|
    ensures rbuf[pos + JOBLEN_SIZE .. pos + JOBLEN_SIZE + |a|] == a
    ensures rbuf[pos + JOBLEN_SIZE + |a|..] == rest
  {
    assert rbuf[pos .. pos + JOBLEN_SIZE] == rbuf[pos..][..JOBLEN_SIZE] == EncodeInt(|a|);
    DecodeEncode(|a|);
    assert rbuf[pos + JOBLEN_SIZE .. pos + JOBLEN_SIZE + |a|] == rbuf[pos..][JOBLEN_SIZE .. JOBLEN_SIZE + |a|];
    assert rbuf[pos + JOBLEN_SIZE + |a|..] == rbuf[pos..][JOBLEN_SIZE + |a|..];
  }

  /** Frames read back from where they were stored give the arguments back. */
  lemma {:induction false} UnframeFrames(rbuf: seq<byte>, pos: nat, args: seq<seq<byte>>, n: nat)
    requires Storable(args) && n == |args| && pos <= |rbuf| && rbuf[pos..] == Frames(args, n)
    ensures Unframe(rbuf, pos) == Some(args)
    decreases n
  {
    if n > 0 {
      var a := args[0];
      FramesFirst(args, n);
      FrameAt(rbuf, pos, a, Frames(args[1..], n - 1));
      UnframeFrames(rbuf, pos + JOBLEN_SIZE + |a|, args[1..], n - 1);
      assert [a] + args[1..] == args;
    }
  }

  /**
   * What _unpackCmd reads from a record _packCmd wrote: the identity of the
   * same command and the same arguments, as strlen saw them, in order.
   */
  lemma PackUnpack(c: Command, argv: seq<seq<byte>>)
    requires |argv| >= 1 && ShortArgs(argv) && |argv| <= MAX_CMD_ARGV
    requires PackOutcome(c, argv) >= 0
    ensures Unpack(Packed(c, argv)) == Some(Unpacked(ProcBytes(c), CStrs(argv)))
    ensures CommandOf(Unpack(Packed(c, argv)).value.proc) == Some(c)
  {
    var b := Packed(c, argv);
    assert b[PROC_SIZE..] == Frames(CStrs(argv), |argv|);
    UnframeFrames(b, PROC_SIZE, CStrs(argv), |argv|);
    CommandOfProcBytes(c);
  }

  /**
   * packPersistenceJob. c->argc counts the command name, so it is
   * |argv| + 1. Too many arguments give ARGC_OVERFLOW; a command and arity
   * the whitelist names is packed; anything else gives NOTFOUNDCMD. Only a
   * packed command reads the key argument argv[0]; the server's arity check
   * guarantees it for every whitelisted command (an MSET needs at least one
   * pair), while an unlisted command may come with no argument at all.
   */
  method PackPersistenceJob(c: Command, argv: seq<seq<byte>>, wbuf: array<byte>) returns (ret: int)
    requires (Packable(c, |argv|) ==> |argv| >= 1) && ShortArgs(argv)
    requires wbuf.Length >= MAX_PERSISTENCE_BUF_SIZE + JOBLEN_SIZE - 1
    modifies wbuf
    ensures Storable(CStrs(argv))
    ensures |argv| + 1 >= MAX_CMD_ARGV ==> ret == PERSISTENCE_RET_ARGC_OVERFLOW
    ensures |argv| + 1 < MAX_CMD_ARGV && !Packable(c, |argv|) ==> ret == PERSISTENCE_RET_NOTFOUNDCMD
    ensures |argv| + 1 < MAX_CMD_ARGV && Packable(c, |argv|) ==> ret == PackOutcome(c, argv)
    ensures ret >= 0 ==> PROC_SIZE <= ret < MAX_PERSISTENCE_BUF_SIZE && wbuf[..ret] == Packed(c, argv)
    ensures ret < 0 && ret != PERSISTENCE_RET_SIZE_OVERFLOW ==> unchanged(wbuf)
  {
    ShortArgsStorable(argv);
    if |argv| + 1 >= MAX_CMD_ARGV {
      return PERSISTENCE_RET_ARGC_OVERFLOW;
    }
    if Packable(c, |argv|) {
      ret := PackCmd(wbuf, c, argv);
      return;
    }
    return PERSISTENCE_RET_NOTFOUNDCMD;
  }
}
